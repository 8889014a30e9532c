/**
 * The indexing workers (`one_thread_count`) and the driver (`count_words`),
 * run sequentially: the scanner fills the queue and pushes the sentinel,
 * then the workers run one after another on the shared counter. A worker
 * pops records until it pops the sentinel, which it pushes back before it
 * stops, so the next worker sees it too.
 */
module Worker {
  import opened Utf8
  import opened Files
  import opened WordCount
  import opened Archives
  import Scanner

  /** The entry contents a worker counts for an archive record; nothing when it cannot be opened. */
  function ArchiveTexts(content: seq<byte>, open: Opener): (r: seq<seq<byte>>)
    ensures content == [] || open(content).None? ==> r == []
  {
    if content == [] then []
    else match open(content)
      case None => []
      case Some(a) => ArchiveYield(a, 0)
  }

  /** The table after a worker has handled one record. */
  function ProcessOne(t: Table, f: MyFile, tk: Tokenizer, open: Opener): Table {
    match f
    case Regular(_, content) => CountFile(t, content, tk)
    case Archive(_, content) => CountFiles(t, ArchiveTexts(content, open), tk)
    case Poisoned => t
  }

  /** The table after handling records in order: no entry is removed and no count goes down. */
  function ProcessAll(t: Table, recs: seq<MyFile>, tk: Tokenizer, open: Opener): (r: Table)
    ensures forall w :: w in t ==> w in r && t[w] <= r[w]
    decreases |recs|
  {
    if recs == [] then t
    else
      var mid := ProcessAll(t, recs[..|recs| - 1], tk, open);
      ProcessOneGrows(mid, recs[|recs| - 1], tk, open);
      ProcessOne(mid, recs[|recs| - 1], tk, open)
  }

  lemma ProcessOneGrows(t: Table, f: MyFile, tk: Tokenizer, open: Opener)
    ensures forall w :: w in t ==> w in ProcessOne(t, f, tk, open) && t[w] <= ProcessOne(t, f, tk, open)[w]
  {
    var r := ProcessOne(t, f, tk, open);
    match f {
      case Regular(_, content) => CountFileSpec(t, content, tk);
      case Archive(_, content) => CountFilesSpec(t, ArchiveTexts(content, open), tk);
      case Poisoned =>
    }
    forall w | w in t ensures w in r && t[w] <= r[w] {
      assert Count(t, w) == t[w] && Count(t, w) <= Count(r, w);
    }
  }

  /** The words one record contributes. */
  function RecordWords(f: MyFile, tk: Tokenizer, open: Opener): multiset<string> {
    match f
    case Regular(_, content) => FileWords(tk, content)
    case Archive(_, content) => FilesWords(tk, ArchiveTexts(content, open))
    case Poisoned => multiset{}
  }

  /** The words a sequence of records contributes. */
  function RecordsWords(recs: seq<MyFile>, tk: Tokenizer, open: Opener): multiset<string>
    decreases |recs|
  {
    if recs == [] then multiset{}
    else RecordsWords(recs[..|recs| - 1], tk, open) + RecordWords(recs[|recs| - 1], tk, open)
  }

  /**
   * The `MyFile::Archive` arm of `one_thread_count`: open the archive, then
   * alternate `prepare_next` and `get_next`, counting each entry, until
   * `prepare_next` reports the end of the archive or an error.
   */
  method CountArchive(content: seq<byte>, counter: Counter, am: ArchiveManager, tk: Tokenizer, open: Opener)
    modifies counter, am
    ensures counter.table == CountFiles(old(counter.table), ArchiveTexts(content, open), tk)
    ensures content == [] || open(content).None? ==> am.arch == Unopened
    ensures content != [] && open(content).Some? ==> am.arch == Freed && !IsEntryStatus(am.lastStatus)
  {
    var setResult := am.SetArchive(content, open);
    if setResult.Err? {
      return;
    }
    ghost var a := am.arch.stream;
    ghost var target := CountFiles(counter.table, ArchiveYield(a, 0), tk);
    while true
      invariant am.arch.Opened? && am.arch.stream == a && am.arch.cursor <= |a.steps|
      invariant CountFiles(counter.table, ArchiveYield(a, am.arch.cursor), tk) == target
      decreases |a.steps| - am.arch.cursor
    {
      var more := ArchiveStep(counter, am, tk, a);
      if !more {
        break;
      }
    }
  }

  /**
   * One pass of the archive loop: `prepare_next`, then `get_next` and counting
   * the entry. `more` is false when the loop breaks, at the end of the archive
   * or on a `prepare_next` error.
   */
  method ArchiveStep(counter: Counter, am: ArchiveManager, tk: Tokenizer, ghost a: HeaderStream) returns (more: bool)
    requires am.arch.Opened? && am.arch.stream == a && am.arch.cursor <= |a.steps|
    modifies counter, am
    ensures more ==> am.arch.Opened? && am.arch.stream == a && old(am.arch.cursor) < am.arch.cursor <= |a.steps|
    ensures more ==> CountFiles(counter.table, ArchiveYield(a, am.arch.cursor), tk)
                     == CountFiles(old(counter.table), ArchiveYield(a, old(am.arch.cursor)), tk)
    ensures !more ==> counter.table == CountFiles(old(counter.table), ArchiveYield(a, old(am.arch.cursor)), tk)
    ensures !more ==> am.arch == Freed && !IsEntryStatus(am.lastStatus)
  {
    ghost var t0 := counter.table;
    ghost var c := am.arch.cursor;
    ghost var j := NextStop(a, c);
    ArchiveYieldStep(a, c);
    var status := am.PrepareNext();
    if status != Ok(true) {
      assert !IsEntryStatus(StepAt(a, j).status);
      return false;
    }
    assert am.arch == Opened(a, j + 1);
    var data := am.GetNext();
    var bytes := data.value;
    counter.CountWordsInFileUnicode(bytes, tk);
    CountFilesCons(t0, bytes, ArchiveYield(a, j + 1), tk);
    return true;
  }

  lemma ArchiveYieldStep(a: HeaderStream, c: nat)
    requires c <= |a.steps|
    ensures var j := NextStop(a, c);
            var st := StepAt(a, j);
            if IsEntryStatus(st.status) then
              j < |a.steps| && ArchiveYield(a, c) == [ReadBuffer(st.entry.size, st.entry.data)] + ArchiveYield(a, j + 1)
            else ArchiveYield(a, c) == []
  {
  }

  lemma CountFilesCons(t: Table, b: seq<byte>, rest: seq<seq<byte>>, tk: Tokenizer)
    ensures CountFiles(t, [b] + rest, tk) == CountFiles(CountFile(t, b, tk), rest, tk)
  {
    assert ([b] + rest)[1..] == rest;
  }

  /** `one_thread_count`: count every record before the first sentinel, then push the sentinel back and stop. */
  method OneThreadCount(queue: WorkQueue, counter: Counter, tk: Tokenizer, open: Opener)
    requires Poisoned in queue.items
    modifies queue, counter
    ensures var k := FirstPoisoned(old(queue.items));
            && counter.table == ProcessAll(old(counter.table), old(queue.items)[..k], tk, open)
            && queue.items == old(queue.items)[k + 1..] + [Poisoned]
    ensures queue.sentinelPops == old(queue.sentinelPops) + 1
  {
    var am := new ArchiveManager();
    ghost var q0 := queue.items;
    ghost var k := FirstPoisoned(q0);
    ghost var t0 := counter.table;
    ghost var n := 0;
    while true
      invariant 0 <= n <= k
      invariant queue.items == q0[n..]
      invariant counter.table == ProcessAll(t0, q0[..n], tk, open)
      invariant queue.sentinelPops == old(queue.sentinelPops)
      decreases k - n
    {
      var popped := queue.Pop();
      var file := popped.value;
      match file {
        case Archive(_, content) =>
          CountArchive(content, counter, am, tk, open);
        case Regular(_, content) =>
          counter.CountWordsInFileUnicode(content, tk);
        case Poisoned =>
          queue.Push(Poisoned);
          break;
      }
      assert q0[..n + 1][..n] == q0[..n];
      n := n + 1;
    }
  }

  /** A queue as the scanner leaves it: records, then exactly one sentinel at the end. */
  ghost predicate ScannedQueue(q: seq<MyFile>) {
    |q| > 0 && q[|q| - 1] == Poisoned && Poisoned !in q[..|q| - 1]
  }

  /** In a scanned queue the first sentinel is the last item. */
  lemma ScannedQueueSplit(q: seq<MyFile>)
    requires ScannedQueue(q)
    ensures FirstPoisoned(q) == |q| - 1
    ensures q[..FirstPoisoned(q)] == q[..|q| - 1] && q[FirstPoisoned(q) + 1..] == []
  {
  }

  /**
   * The workers of `count_words`, one after another. The first consumes every
   * record; each sees the sentinel exactly once and leaves it in the queue.
   */
  method RunWorkers(queue: WorkQueue, counter: Counter, threads: nat, tk: Tokenizer, open: Opener)
    requires ScannedQueue(queue.items)
    modifies queue, counter
    ensures threads == 0 ==> counter.table == old(counter.table) && queue.items == old(queue.items)
    ensures threads > 0 ==>
              && counter.table == ProcessAll(old(counter.table), old(queue.items)[..|old(queue.items)| - 1], tk, open)
              && queue.items == [Poisoned]
    ensures queue.sentinelPops == old(queue.sentinelPops) + threads
  {
    ghost var q0 := queue.items;
    ghost var recs := q0[..|q0| - 1];
    assert q0 == recs + [Poisoned];
    ScannedQueueSplit(q0);
    ScannedQueueSplit([Poisoned]);
    for i := 0 to threads
      invariant i == 0 ==> counter.table == old(counter.table) && queue.items == q0
      invariant i > 0 ==> counter.table == ProcessAll(old(counter.table), recs, tk, open) && queue.items == [Poisoned]
      invariant queue.sentinelPops == old(queue.sentinelPops) + i
    {
      OneThreadCount(queue, counter, tk, open);
    }
  }

  /**
   * `count_words`, sequentialised: scan, then run `threads` workers; the
   * result is the shared counter.
   */
  method CountWords(files: seq<Scanner.FileInfo>, plainExt: string, threads: nat, tk: Tokenizer, open: Opener)
    returns (table: Table)
    ensures threads == 0 ==> table == map[]
    ensures threads > 0 ==> table == ProcessAll(map[], Scanner.Records(files, plainExt), tk, open)
  {
    var queue := new WorkQueue();
    var counter := new Counter();
    Scanner.ReadFilesRecur(files, plainExt, queue);
    ghost var recs := Scanner.Records(files, plainExt);
    assert queue.items == recs + [Poisoned];
    Scanner.RecordsFromFiles(files, plainExt);
    assert queue.items[..|queue.items| - 1] == recs;
    RunWorkers(queue, counter, threads, tk, open);
    table := counter.table;
  }

  lemma RecordsWordsAppend(a: seq<MyFile>, b: seq<MyFile>, tk: Tokenizer, open: Opener)
    ensures RecordsWords(a + b, tk, open) == RecordsWords(a, tk, open) + RecordsWords(b, tk, open)
    decreases |b|
  {
    if b != [] {
      var b' := b[..|b| - 1];
      assert (a + b)[..|a + b| - 1] == a + b';
      assert (a + b)[|a + b| - 1] == b[|b| - 1];
      RecordsWordsAppend(a, b', tk, open);
    } else {
      assert a + b == a;
    }
  }

  /** The words the records contribute depend only on which records there are, not on their order. */
  lemma {:induction false} RecordsWordsPermutation(a: seq<MyFile>, b: seq<MyFile>, tk: Tokenizer, open: Opener)
    requires multiset(a) == multiset(b)
    ensures RecordsWords(a, tk, open) == RecordsWords(b, tk, open)
    decreases |a|
  {
    if a != [] {
      var x := a[|a| - 1];
      var a' := a[..|a| - 1];
      assert x in multiset(b);
      var i :| 0 <= i < |b| && b[i] == x;
      var b' := b[..i] + b[i + 1..];
      RemoveAt(a, |a| - 1);
      RemoveAt(b, i);
      assert a[..|a| - 1] + a[|a|..] == a';
      RecordsWordsPermutation(a', b', tk, open);
      RecordsWordsRemove(b, i, tk, open);
    }
  }

  lemma RemoveAt<T>(s: seq<T>, i: nat)
    requires i < |s|
    ensures s == s[..i] + [s[i]] + s[i + 1..]
    ensures multiset(s[..i] + s[i + 1..]) == multiset(s) - multiset{s[i]}
  {
    assert s == s[..i] + [s[i]] + s[i + 1..];
  }

  lemma RecordsWordsRemove(b: seq<MyFile>, i: nat, tk: Tokenizer, open: Opener)
    requires i < |b|
    ensures RecordsWords(b, tk, open) == RecordsWords(b[..i] + b[i + 1..], tk, open) + RecordWords(b[i], tk, open)
  {
    RemoveAt(b, i);
    var pre := b[..i] + [b[i]];
    assert pre[..i] == b[..i];
    RecordsWordsAppend(pre, b[i + 1..], tk, open);
    RecordsWordsAppend(b[..i], b[i + 1..], tk, open);
  }

  /** Per key, handling records adds every word of every record (sum of all contributions); no key is removed. */
  lemma {:induction false} ProcessAllSpec(t: Table, recs: seq<MyFile>, tk: Tokenizer, open: Opener)
    ensures forall w :: Count(ProcessAll(t, recs, tk, open), w) == Count(t, w) + RecordsWords(recs, tk, open)[w]
    ensures forall w :: w in ProcessAll(t, recs, tk, open) <==> w in t || w in RecordsWords(recs, tk, open)
    decreases |recs|
  {
    if recs != [] {
      var init := recs[..|recs| - 1];
      var f := recs[|recs| - 1];
      ProcessAllSpec(t, init, tk, open);
      var mid := ProcessAll(t, init, tk, open);
      match f
      case Regular(_, content) => CountFileSpec(mid, content, tk);
      case Archive(_, content) => CountFilesSpec(mid, ArchiveTexts(content, open), tk);
      case Poisoned =>
    }
  }

  /**
   * The table does not depend on the order in which records are handled:
   * any order in which whole records are handled gives the same table.
   */
  lemma ProcessAllPermutation(t: Table, a: seq<MyFile>, b: seq<MyFile>, tk: Tokenizer, open: Opener)
    requires multiset(a) == multiset(b)
    ensures ProcessAll(t, a, tk, open) == ProcessAll(t, b, tk, open)
  {
    ProcessAllSpec(t, a, tk, open);
    ProcessAllSpec(t, b, tk, open);
    RecordsWordsPermutation(a, b, tk, open);
    TableExt(ProcessAll(t, a, tk, open), ProcessAll(t, b, tk, open));
  }

  lemma {:induction false} RecordWordsIncluded(recs: seq<MyFile>, i: nat, tk: Tokenizer, open: Opener)
    requires i < |recs|
    ensures RecordWords(recs[i], tk, open) <= RecordsWords(recs, tk, open)
    decreases |recs|
  {
    if i < |recs| - 1 {
      RecordWordsIncluded(recs[..|recs| - 1], i, tk, open);
    }
  }

  /** Every regular record before the sentinel is counted: its words are all in the final table. */
  lemma RegularRecordCounted(t: Table, recs: seq<MyFile>, i: nat, tk: Tokenizer, open: Opener, w: string)
    requires i < |recs| && recs[i].Regular?
    ensures Count(ProcessAll(t, recs, tk, open), w) >= Count(t, w) + FileWords(tk, recs[i].content)[w]
  {
    ProcessAllSpec(t, recs, tk, open);
    RecordWordsIncluded(recs, i, tk, open);
  }

  /** An archive that fails to open, or is empty, contributes nothing. */
  lemma FailedArchiveContributesNothing(t: Table, path: string, content: seq<byte>, tk: Tokenizer, open: Opener)
    requires content == [] || open(content).None?
    ensures ProcessOne(t, Archive(path, content), tk, open) == t
    ensures RecordWords(Archive(path, content), tk, open) == multiset{}
  {
  }
}
