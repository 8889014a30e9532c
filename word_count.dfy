/**
 * The word-frequency table and `count_words_in_file_unicode`: content that is
 * not UTF-8 is ignored; otherwise the text is case-folded, split into Unicode
 * words, and each word's entry is incremented (a missing entry is inserted
 * with 1). Case folding and word segmentation are external collaborators and
 * are given as the two functions of a `Tokenizer`.
 */
module WordCount {
  import opened Utf8

  /** The frequency table (the shared `CHashMap<String, usize>`). */
  type Table = map<string, nat>

  datatype Tokenizer = Tokenizer(caseFold: string -> string, unicodeWords: string -> seq<string>)

  /** The count of `w` in `t`, zero when `w` has no entry. */
  function Count(t: Table, w: string): nat {
    if w in t then t[w] else 0
  }

  /** Every entry of a table built by counting is at least 1. */
  ghost predicate Positive(t: Table) {
    forall w :: w in t ==> t[w] >= 1
  }

  /** The words of a file, or `None` when its bytes are not UTF-8. */
  function Tokens(tk: Tokenizer, content: seq<byte>): Option<seq<string>> {
    match Decode(content)
    case None => None
    case Some(s) => Some(tk.unicodeWords(tk.caseFold(s)))
  }

  /** The multiset of words one file contributes (empty for non-UTF-8 content). */
  function FileWords(tk: Tokenizer, content: seq<byte>): multiset<string> {
    match Tokens(tk, content)
    case None => multiset{}
    case Some(ws) => multiset(ws)
  }

  /** One step of the token loop: increment `w`, or insert it with 1. */
  function Bump(t: Table, w: string): Table {
    if w in t then t[w := t[w] + 1] else t[w := 1]
  }

  /** The table after the token loop has run over `ws`, in order. */
  function AddWords(t: Table, ws: seq<string>): Table
    decreases |ws|
  {
    if ws == [] then t else Bump(AddWords(t, ws[..|ws| - 1]), ws[|ws| - 1])
  }

  /** The table after counting one file. */
  function CountFile(t: Table, content: seq<byte>, tk: Tokenizer): Table {
    match Tokens(tk, content)
    case None => t
    case Some(ws) => AddWords(t, ws)
  }

  /** The table after counting several files, first to last. */
  function CountFiles(t: Table, contents: seq<seq<byte>>, tk: Tokenizer): Table
    decreases |contents|
  {
    if contents == [] then t else CountFiles(CountFile(t, contents[0], tk), contents[1..], tk)
  }

  /** The multiset of words several files contribute. */
  function FilesWords(tk: Tokenizer, contents: seq<seq<byte>>): multiset<string>
    decreases |contents|
  {
    if contents == [] then multiset{} else FileWords(tk, contents[0]) + FilesWords(tk, contents[1..])
  }

  /** The shared counter map, updated in place by the workers. */
  class Counter {
    var table: Table

    constructor ()
      ensures table == map[]
    {
      table := map[];
    }

    /** `count_words_in_file_unicode(content, counter)`. */
    method CountWordsInFileUnicode(content: seq<byte>, tk: Tokenizer)
      modifies this
      ensures table == CountFile(old(table), content, tk)
    {
      var decoded := Decode(content);
      if decoded.None? {
        return;
      }
      var words := tk.unicodeWords(tk.caseFold(decoded.value));
      for i := 0 to |words|
        invariant table == AddWords(old(table), words[..i])
      {
        var w := words[i];
        if w in table {
          table := table[w := table[w] + 1];
        } else {
          table := table[w := 1];
        }
        assert words[..i + 1][..i] == words[..i];
      }
      assert words[..|words|] == words;
    }
  }

  /** Content that is not UTF-8 leaves the table exactly as it was. */
  lemma InvalidUtf8Ignored(t: Table, content: seq<byte>, tk: Tokenizer)
    requires Decode(content).None?
    ensures CountFile(t, content, tk) == t
    ensures FileWords(tk, content) == multiset{}
  {
  }

  /** After the token loop, each word's count has risen by its number of occurrences. */
  lemma {:induction false} AddWordsCount(t: Table, ws: seq<string>, w: string)
    ensures Count(AddWords(t, ws), w) == Count(t, w) + multiset(ws)[w]
    decreases |ws|
  {
    if ws != [] {
      var init := ws[..|ws| - 1];
      AddWordsCount(t, init, w);
      assert ws == init + [ws[|ws| - 1]];
    }
  }

  /** The token loop removes no key and adds exactly the words it sees. */
  lemma {:induction false} AddWordsKeys(t: Table, ws: seq<string>)
    ensures forall w :: w in AddWords(t, ws) <==> w in t || w in ws
    decreases |ws|
  {
    if ws != [] {
      var init := ws[..|ws| - 1];
      AddWordsKeys(t, init);
      assert ws == init + [ws[|ws| - 1]];
    }
  }

  /** A word absent before ends at exactly its number of occurrences; keys not among the words keep their count. */
  lemma AddWordsFresh(t: Table, ws: seq<string>, w: string)
    ensures w !in t && w in ws ==> w in AddWords(t, ws) && AddWords(t, ws)[w] == multiset(ws)[w]
    ensures w !in ws ==> Count(AddWords(t, ws), w) == Count(t, w)
  {
    AddWordsCount(t, ws, w);
    AddWordsKeys(t, ws);
  }

  /** Counting never creates a zero entry. */
  lemma {:induction false} AddWordsPositive(t: Table, ws: seq<string>)
    requires Positive(t)
    ensures Positive(AddWords(t, ws))
    decreases |ws|
  {
    if ws != [] {
      AddWordsPositive(t, ws[..|ws| - 1]);
    }
  }

  /** Two tables with the same keys and counts are the same table. */
  lemma TableExt(t1: Table, t2: Table)
    requires forall w :: (w in t1 <==> w in t2) && Count(t1, w) == Count(t2, w)
    ensures t1 == t2
  {
    assert t1.Keys == t2.Keys;
    forall w | w in t1 ensures t1[w] == t2[w] {
      assert Count(t1, w) == Count(t2, w);
    }
  }

  /** Per key, counting one file adds the file's occurrences; no key is removed. */
  lemma CountFileSpec(t: Table, content: seq<byte>, tk: Tokenizer)
    ensures forall w :: Count(CountFile(t, content, tk), w) == Count(t, w) + FileWords(tk, content)[w]
    ensures forall w :: w in CountFile(t, content, tk) <==> w in t || w in FileWords(tk, content)
  {
    match Tokens(tk, content)
    case None =>
    case Some(ws) =>
      forall w ensures Count(AddWords(t, ws), w) == Count(t, w) + multiset(ws)[w] {
        AddWordsCount(t, ws, w);
      }
      AddWordsKeys(t, ws);
  }

  /** Per key, counting several files adds all their occurrences; no key is removed. */
  lemma {:induction false} CountFilesSpec(t: Table, contents: seq<seq<byte>>, tk: Tokenizer)
    ensures forall w :: Count(CountFiles(t, contents, tk), w) == Count(t, w) + FilesWords(tk, contents)[w]
    ensures forall w :: w in CountFiles(t, contents, tk) <==> w in t || w in FilesWords(tk, contents)
    decreases |contents|
  {
    if contents != [] {
      CountFileSpec(t, contents[0], tk);
      CountFilesSpec(CountFile(t, contents[0], tk), contents[1..], tk);
    }
  }

  /** Counting is additive and order-independent: file A then B gives the same table as B then A. */
  lemma CountFileCommutes(t: Table, a: seq<byte>, b: seq<byte>, tk: Tokenizer)
    ensures CountFile(CountFile(t, a, tk), b, tk) == CountFile(CountFile(t, b, tk), a, tk)
    ensures forall w :: Count(CountFile(CountFile(t, a, tk), b, tk), w)
                        == Count(t, w) + FileWords(tk, a)[w] + FileWords(tk, b)[w]
  {
    CountFileSpec(t, a, tk);
    CountFileSpec(t, b, tk);
    CountFileSpec(CountFile(t, a, tk), b, tk);
    CountFileSpec(CountFile(t, b, tk), a, tk);
    TableExt(CountFile(CountFile(t, a, tk), b, tk), CountFile(CountFile(t, b, tk), a, tk));
  }
}
