/**
 * `dump_res`: the counted table as a vector of (word, count) pairs, sorted
 * in place by descending count and written one line per pair, then sorted
 * in place by ascending word and written again. Each line is
 * "<word> : <count>\n". The two files are modelled as their sequences of
 * lines.
 */
module Report {
  import opened Utf8
  import opened WordCount

  type Pair = (string, nat)

  /** `std::cmp::Ordering`. */
  datatype Ordering = Less | Equal | Greater

  function CmpNat(x: nat, y: nat): Ordering {
    if x < y then Less else if x == y then Equal else Greater
  }

  /**
   * `Ord for str`: lexicographic order on code points, which is also the
   * order of the UTF-8 bytes Rust actually compares.
   */
  function CmpStr(x: string, y: string): Ordering
    decreases |x|
  {
    if x == [] then (if y == [] then Equal else Less)
    else if y == [] then Greater
    else if x[0] < y[0] then Less
    else if x[0] > y[0] then Greater
    else CmpStr(x[1..], y[1..])
  }

  /** The comparator of the first sort, `|a, b| b.1.cmp(&a.1)`. */
  function ByCountDesc(p: Pair, q: Pair): (r: Ordering)
    ensures r == Less <==> p.1 > q.1
    ensures r == Equal <==> p.1 == q.1
    ensures r == Greater <==> p.1 < q.1
  {
    CmpNat(q.1, p.1)
  }

  /** The comparator of the second sort, `|a, b| a.0.cmp(&b.0)`. */
  function ByWord(p: Pair, q: Pair): (r: Ordering)
    ensures r == Equal <==> p.0 == q.0
    ensures r == Less <==> CmpStr(q.0, p.0) == Greater
  {
    CmpStrEqual(p.0, q.0);
    CmpStrFlip(p.0, q.0);
    CmpStr(p.0, q.0)
  }

  /** `x` may stand before `y`. */
  predicate Le(cmp: (Pair, Pair) -> Ordering, x: Pair, y: Pair) {
    cmp(x, y) != Greater
  }

  /** What `sort_by` needs of a comparator: a total preorder. */
  ghost predicate TotalPreorder(cmp: (Pair, Pair) -> Ordering) {
    && (forall x, y :: cmp(x, y) == Greater ==> Le(cmp, y, x))
    && (forall x, y, z :: Le(cmp, x, y) && Le(cmp, y, z) ==> Le(cmp, x, z))
  }

  ghost predicate SortedBy(v: seq<Pair>, cmp: (Pair, Pair) -> Ordering) {
    forall i, j :: 0 <= i < j < |v| ==> Le(cmp, v[i], v[j])
  }

  lemma {:induction false} CmpStrEqual(x: string, y: string)
    ensures CmpStr(x, y) == Equal <==> x == y
    decreases |x|
  {
    if x != [] && y != [] && x[0] == y[0] {
      CmpStrEqual(x[1..], y[1..]);
      assert x == [x[0]] + x[1..] && y == [y[0]] + y[1..];
    }
  }

  lemma {:induction false} CmpStrFlip(x: string, y: string)
    ensures CmpStr(x, y) == Less <==> CmpStr(y, x) == Greater
    decreases |x|
  {
    if x != [] && y != [] && x[0] == y[0] {
      CmpStrFlip(x[1..], y[1..]);
    }
  }

  lemma {:induction false} CmpStrTrans(x: string, y: string, z: string)
    requires CmpStr(x, y) != Greater && CmpStr(y, z) != Greater
    ensures CmpStr(x, z) != Greater
    decreases |x|
  {
    if x != [] && y != [] && z != [] && x[0] == y[0] && y[0] == z[0] {
      CmpStrTrans(x[1..], y[1..], z[1..]);
    }
  }

  lemma ByCountDescIsPreorder()
    ensures TotalPreorder(ByCountDesc)
  {
  }

  lemma ByWordIsPreorder()
    ensures TotalPreorder(ByWord)
  {
    forall x: Pair, y: Pair | ByWord(x, y) == Greater ensures Le(ByWord, y, x) {
      CmpStrFlip(y.0, x.0);
    }
    forall x: Pair, y: Pair, z: Pair | Le(ByWord, x, y) && Le(ByWord, y, z) ensures Le(ByWord, x, z) {
      CmpStrTrans(x.0, y.0, z.0);
    }
  }

  /** `slice::sort_by`, as an insertion sort: sorted under `cmp`, and a permutation of the input. */
  method SortBy(a: array<Pair>, cmp: (Pair, Pair) -> Ordering)
    requires TotalPreorder(cmp)
    modifies a
    ensures SortedBy(a[..], cmp)
    ensures multiset(a[..]) == old(multiset(a[..]))
  {
    for i := 0 to a.Length
      invariant SortedBy(a[..i], cmp)
      invariant multiset(a[..]) == old(multiset(a[..]))
    {
      InsertLast(a, i, cmp);
    }
  }

  /** Moves `a[i]` left into the sorted prefix `a[..i]`. */
  method InsertLast(a: array<Pair>, i: nat, cmp: (Pair, Pair) -> Ordering)
    requires TotalPreorder(cmp)
    requires i < a.Length && SortedBy(a[..i], cmp)
    modifies a
    ensures SortedBy(a[..i + 1], cmp)
    ensures multiset(a[..]) == old(multiset(a[..]))
  {
    var j := i;
    while j > 0 && cmp(a[j - 1], a[j]) == Greater
      invariant 0 <= j <= i
      invariant forall p, q :: 0 <= p < q <= i && p != j && q != j ==> Le(cmp, a[p], a[q])
      invariant forall q :: j < q <= i ==> Le(cmp, a[j], a[q])
      invariant multiset(a[..]) == old(multiset(a[..]))
    {
      a[j - 1], a[j] := a[j], a[j - 1];
      j := j - 1;
    }
    forall p, q | 0 <= p < q <= i
      ensures Le(cmp, a[p], a[q])
    {
      if q == j && p < j - 1 {
        assert Le(cmp, a[p], a[j - 1]) && Le(cmp, a[j - 1], a[j]);
      }
    }
  }

  /** Strictly before in the by-word order: the words differ and the first is smaller. */
  predicate WordLess(x: Pair, y: Pair) {
    CmpStr(x.0, y.0) == Less
  }

  lemma WordLessAsymmetric(x: Pair, y: Pair)
    ensures !(WordLess(x, y) && WordLess(y, x))
  {
    CmpStrFlip(x.0, y.0);
  }

  // ----- `Display for usize` and the line format -----

  predicate IsDigit(c: char) {
    '0' <= c <= '9'
  }

  function DigitChar(d: nat): (c: char)
    requires d < 10
    ensures IsDigit(c)
  {
    ('0' as int + d) as char
  }

  predicate AllDigits(s: string) {
    forall i :: 0 <= i < |s| ==> IsDigit(s[i])
  }

  /** A count as `{}` prints it: decimal digits, most significant first, no leading zero. */
  function NatToString(n: nat): (s: string)
    ensures |s| >= 1 && AllDigits(s)
    ensures s[0] == '0' ==> n == 0
    decreases n
  {
    if n < 10 then [DigitChar(n)] else NatToString(n / 10) + [DigitChar(n % 10)]
  }

  /** The value of a string of decimal digits. */
  function ParseDecimal(s: string): nat
    requires AllDigits(s)
    decreases |s|
  {
    if s == [] then 0 else ParseDecimal(s[..|s| - 1]) * 10 + (s[|s| - 1] as int - '0' as int)
  }

  lemma {:induction false} DecimalRoundTrip(n: nat)
    ensures ParseDecimal(NatToString(n)) == n
    decreases n
  {
    if n >= 10 {
      var s := NatToString(n);
      assert s[..|s| - 1] == NatToString(n / 10);
      DecimalRoundTrip(n / 10);
    }
  }

  /** One line of either report, `"{} : {}\n"`. */
  function Line(p: Pair): string {
    p.0 + " : " + NatToString(p.1) + "\n"
  }

  /** A line is the word, " : ", the count in decimal digits that read back to it, and a newline. */
  lemma LineFormat(p: Pair)
    ensures var l := Line(p);
            && |l| >= |p.0| + 5 && l[..|p.0|] == p.0 && l[|p.0|..|p.0| + 3] == " : " && l[|l| - 1] == '\n'
            && AllDigits(l[|p.0| + 3..|l| - 1]) && ParseDecimal(l[|p.0| + 3..|l| - 1]) == p.1
  {
    var l := Line(p);
    assert l[|p.0| + 3..|l| - 1] == NatToString(p.1);
    DecimalRoundTrip(p.1);
  }

  /** The number of decimal digits at the end of `s`. */
  function TrailingDigits(s: string): (k: nat)
    ensures k <= |s| && AllDigits(s[|s| - k..])
    decreases |s|
  {
    if s == [] || !IsDigit(s[|s| - 1]) then 0
    else
      var k := TrailingDigits(s[..|s| - 1]);
      assert s[|s| - (k + 1)..] == s[..|s| - 1][|s| - 1 - k..] + [s[|s| - 1]];
      k + 1
  }

  /** Reads a report line back: the word before the last " : ", and the count after it. */
  function ParseLine(l: string): Option<Pair> {
    if l == [] || l[|l| - 1] != '\n' then None
    else
      var body := l[..|l| - 1];
      var k := TrailingDigits(body);
      var m := |body| - k;
      if k == 0 || m < 3 || body[m - 3..m] != " : " then None
      else Some((body[..m - 3], ParseDecimal(body[m..])))
  }

  lemma {:induction false} TrailingDigitsAfter(x: string, d: string)
    requires x != [] && !IsDigit(x[|x| - 1]) && AllDigits(d)
    ensures TrailingDigits(x + d) == |d|
    decreases |d|
  {
    if d != [] {
      var d' := d[..|d| - 1];
      assert (x + d)[..|x + d| - 1] == x + d';
      TrailingDigitsAfter(x, d');
    } else {
      assert x + d == x;
    }
  }

  /** Every line can be read back to the pair it was written from, whatever digits the word holds. */
  lemma LineRoundTrip(p: Pair)
    ensures ParseLine(Line(p)) == Some(p)
  {
    var d := NatToString(p.1);
    var x := p.0 + " : ";
    var l := Line(p);
    var body := l[..|l| - 1];
    assert body == x + d;
    TrailingDigitsAfter(x, d);
    var m := |body| - |d|;
    assert body[m - 3..m] == " : ";
    assert body[..m - 3] == p.0;
    assert body[m..] == d;
    DecimalRoundTrip(p.1);
  }

  lemma LineInjective(p: Pair, q: Pair)
    ensures Line(p) == Line(q) <==> p == q
  {
    LineRoundTrip(p);
    LineRoundTrip(q);
  }

  /** The lines written for a vector, in its order. */
  function Lines(v: seq<Pair>): (r: seq<string>)
    ensures |r| == |v|
    decreases |v|
  {
    if v == [] then [] else Lines(v[..|v| - 1]) + [Line(v[|v| - 1])]
  }

  /** The `i`-th line is the line of the `i`-th pair. */
  lemma {:induction false} LinesAt(v: seq<Pair>)
    ensures forall i :: 0 <= i < |v| ==> Lines(v)[i] == Line(v[i])
    decreases |v|
  {
    if v != [] {
      LinesAt(v[..|v| - 1]);
    }
  }

  /** `for (word, n) in &counted_words { write!(...) }`. */
  method WriteLines(a: array<Pair>) returns (lines: seq<string>)
    ensures lines == Lines(a[..])
  {
    lines := [];
    for i := 0 to a.Length
      invariant lines == Lines(a[..i])
    {
      lines := lines + [Line(a[i])];
      assert a[..i + 1][..i] == a[..i];
    }
    assert a[..a.Length] == a[..];
  }

  lemma {:induction false} LinesCount(v: seq<Pair>, p: Pair)
    ensures multiset(Lines(v))[Line(p)] == multiset(v)[p]
    decreases |v|
  {
    if v != [] {
      var init, x := v[..|v| - 1], v[|v| - 1];
      LinesCount(init, p);
      assert v == init + [x];
      LinesCountStep(init, x, p);
    }
  }

  lemma LinesCountStep(init: seq<Pair>, x: Pair, p: Pair)
    requires multiset(Lines(init))[Line(p)] == multiset(init)[p]
    ensures multiset(Lines(init + [x]))[Line(p)] == multiset(init + [x])[p]
  {
    var v := init + [x];
    assert v[..|v| - 1] == init;
    if x != p {
      LineInjective(x, p);
    }
    CountAfterAppend(Lines(init), Line(x), Line(p));
    CountAfterAppend(init, x, p);
  }

  lemma CountAfterAppend<T>(s: seq<T>, x: T, y: T)
    ensures multiset(s + [x])[y] == multiset(s)[y] + if x == y then 1 else 0
  {
  }

  /** Reordering the pairs reorders the lines and nothing more. */
  lemma LinesPermutation(v1: seq<Pair>, v2: seq<Pair>)
    requires multiset(v1) == multiset(v2)
    ensures multiset(Lines(v1)) == multiset(Lines(v2))
  {
    forall l ensures multiset(Lines(v1))[l] == multiset(Lines(v2))[l] {
      if l in Lines(v1) {
        LinesCountOf(v1, v2, l);
      } else if l in Lines(v2) {
        LinesCountOf(v2, v1, l);
      }
    }
  }

  lemma LinesCountOf(v1: seq<Pair>, v2: seq<Pair>, l: string)
    requires multiset(v1) == multiset(v2) && l in Lines(v1)
    ensures multiset(Lines(v1))[l] == multiset(Lines(v2))[l]
  {
    var i :| 0 <= i < |v1| && Lines(v1)[i] == l;
    LinesAt(v1);
    LinesCount(v1, v1[i]);
    LinesCount(v2, v1[i]);
  }

  // ----- The table as a vector -----

  /** The (word, count) pairs of the words in `ks`. */
  function PairsOver(t: Table, ks: set<string>): set<Pair>
    requires ks <= t.Keys
  {
    set w | w in ks :: (w, t[w])
  }

  /** `v` holds each entry of `t` once, in some order. */
  ghost predicate Enumerates(v: seq<Pair>, t: Table) {
    multiset(v) == multiset(PairsOver(t, t.Keys))
  }

  lemma PairsOverAdd(t: Table, ks: set<string>, w: string)
    requires ks <= t.Keys && w in t && w !in ks
    ensures multiset(PairsOver(t, ks + {w})) == multiset(PairsOver(t, ks)) + multiset{(w, t[w])}
  {
    assert PairsOver(t, ks + {w}) == PairsOver(t, ks) + {(w, t[w])};
    assert (w, t[w]) !in PairsOver(t, ks);
  }

  /** `Vec::from_iter(counted_words.into_iter())`: the entries of the map, in the map's own (unspecified) order. */
  method CollectPairs(t: Table) returns (v: seq<Pair>)
    ensures Enumerates(v, t)
  {
    v := [];
    var rest := t.Keys;
    ghost var done: set<string> := {};
    while rest != {}
      invariant rest !! done && rest + done == t.Keys
      invariant multiset(v) == multiset(PairsOver(t, done))
      decreases |rest|
    {
      var w :| w in rest;
      PairsOverAdd(t, done, w);
      v := v + [(w, t[w])];
      rest := rest - {w};
      done := done + {w};
    }
    assert done == t.Keys;
  }

  lemma TwoOccurrences(v: seq<Pair>, i: nat, j: nat)
    requires i < j < |v| && v[i] == v[j]
    ensures multiset(v)[v[i]] >= 2
  {
    assert v == v[..j] + [v[j]] + v[j + 1..];
    assert v[i] in v[..j];
  }

  /** An enumeration lists every word of the table, with its count, exactly once. */
  lemma EnumeratesEntries(v: seq<Pair>, t: Table)
    requires Enumerates(v, t)
    ensures forall i :: 0 <= i < |v| ==> v[i].0 in t && v[i].1 == t[v[i].0]
    ensures forall i, j :: 0 <= i < j < |v| ==> v[i].0 != v[j].0
    ensures forall w :: w in t ==> multiset(v)[(w, t[w])] == 1
  {
    forall i | 0 <= i < |v| ensures v[i].0 in t && v[i].1 == t[v[i].0] {
      assert v[i] in multiset(v);
    }
    forall i, j | 0 <= i < j < |v| ensures v[i].0 != v[j].0 {
      if v[i].0 == v[j].0 {
        assert v[i] in multiset(v) && v[j] in multiset(v);
        TwoOccurrences(v, i, j);
      }
    }
    forall w | w in t ensures multiset(v)[(w, t[w])] == 1 {
      assert (w, t[w]) in PairsOver(t, t.Keys);
    }
  }

  // ----- dump_res -----

  /** `lines` is one line per entry of `t`, written in an order sorted under `cmp`. */
  ghost predicate IsReport(lines: seq<string>, t: Table, cmp: (Pair, Pair) -> Ordering) {
    exists v :: Enumerates(v, t) && SortedBy(v, cmp) && lines == Lines(v)
  }

  /**
   * `dump_res`: the by-count report (`out_by_n`), then the by-word report
   * (`out_by_a`), sorting the same vector twice in place.
   */
  method DumpRes(t: Table) returns (byN: seq<string>, byA: seq<string>)
    ensures IsReport(byN, t, ByCountDesc)
    ensures IsReport(byA, t, ByWord)
  {
    var v := CollectPairs(t);
    var a := new Pair[|v|](i requires 0 <= i < |v| => v[i]);
    assert a[..] == v;
    ByCountDescIsPreorder();
    SortBy(a, ByCountDesc);
    byN := WriteLines(a);
    ReportOf(a[..], t, ByCountDesc);
    ByWordIsPreorder();
    SortBy(a, ByWord);
    byA := WriteLines(a);
    ReportOf(a[..], t, ByWord);
  }

  lemma ReportOf(v: seq<Pair>, t: Table, cmp: (Pair, Pair) -> Ordering)
    requires Enumerates(v, t) && SortedBy(v, cmp)
    ensures IsReport(Lines(v), t, cmp)
  {
  }

  /** Each report holds exactly one line per counted word, and every line reads back to a word and its count. */
  lemma ReportContents(lines: seq<string>, t: Table, cmp: (Pair, Pair) -> Ordering)
    requires IsReport(lines, t, cmp)
    ensures forall w :: w in t ==> multiset(lines)[Line((w, t[w]))] == 1
    ensures forall l :: l in lines ==>
              ParseLine(l).Some? && ParseLine(l).value.0 in t && t[ParseLine(l).value.0] == ParseLine(l).value.1
  {
    var v: seq<Pair> :| Enumerates(v, t) && SortedBy(v, cmp) && lines == Lines(v);
    LinesAt(v);
    EnumeratesEntries(v, t);
    forall w | w in t ensures multiset(lines)[Line((w, t[w]))] == 1 {
      LinesCount(v, (w, t[w]));
    }
    forall l | l in lines
      ensures ParseLine(l).Some? && ParseLine(l).value.0 in t && t[ParseLine(l).value.0] == ParseLine(l).value.1
    {
      var i :| 0 <= i < |lines| && lines[i] == l;
      LineRoundTrip(v[i]);
    }
  }

  /** In the by-count report the counts never increase from one line to the next. */
  lemma ByCountReportOrder(lines: seq<string>, t: Table)
    requires IsReport(lines, t, ByCountDesc)
    ensures forall i, j :: 0 <= i < j < |lines| ==>
              ParseLine(lines[i]).Some? && ParseLine(lines[j]).Some? &&
              ParseLine(lines[i]).value.1 >= ParseLine(lines[j]).value.1
  {
    var v: seq<Pair> :| Enumerates(v, t) && SortedBy(v, ByCountDesc) && lines == Lines(v);
    LinesAt(v);
    forall i, j | 0 <= i < j < |lines|
      ensures ParseLine(lines[i]).Some? && ParseLine(lines[j]).Some? &&
              ParseLine(lines[i]).value.1 >= ParseLine(lines[j]).value.1
    {
      LineRoundTrip(v[i]);
      LineRoundTrip(v[j]);
      assert Le(ByCountDesc, v[i], v[j]);
    }
  }

  /** In the by-word report the words strictly increase: sorted, and no word twice. */
  lemma ByWordReportOrder(lines: seq<string>, t: Table)
    requires IsReport(lines, t, ByWord)
    ensures forall i, j :: 0 <= i < j < |lines| ==>
              ParseLine(lines[i]).Some? && ParseLine(lines[j]).Some? &&
              CmpStr(ParseLine(lines[i]).value.0, ParseLine(lines[j]).value.0) == Less
  {
    var v: seq<Pair> :| Enumerates(v, t) && SortedBy(v, ByWord) && lines == Lines(v);
    LinesAt(v);
    StrictByWord(v, t);
    forall i, j | 0 <= i < j < |lines|
      ensures ParseLine(lines[i]).Some? && ParseLine(lines[j]).Some? &&
              CmpStr(ParseLine(lines[i]).value.0, ParseLine(lines[j]).value.0) == Less
    {
      LineRoundTrip(v[i]);
      LineRoundTrip(v[j]);
      assert WordLess(v[i], v[j]);
    }
  }

  predicate StrictlyByWord(v: seq<Pair>) {
    forall i, j :: 0 <= i < j < |v| ==> WordLess(v[i], v[j])
  }

  lemma {:induction false} StrictlyByWordUnique(v1: seq<Pair>, v2: seq<Pair>)
    requires multiset(v1) == multiset(v2) && StrictlyByWord(v1) && StrictlyByWord(v2)
    ensures v1 == v2
    decreases |v1|
  {
    if v1 != [] {
      assert |v2| == |multiset(v2)| == |multiset(v1)| == |v1|;
      SameFirst(v1, v2);
      DropFirst(v1);
      DropFirst(v2);
      StrictlyByWordUnique(v1[1..], v2[1..]);
      assert v1 == [v1[0]] + v1[1..] && v2 == [v2[0]] + v2[1..];
    } else {
      assert |v2| == |multiset(v2)| == 0;
    }
  }

  /** Two strictly ascending vectors with the same elements start with the same element. */
  lemma SameFirst(v1: seq<Pair>, v2: seq<Pair>)
    requires multiset(v1) == multiset(v2) && StrictlyByWord(v1) && StrictlyByWord(v2)
    requires v1 != [] && v2 != []
    ensures v1[0] == v2[0]
  {
    assert v1[0] in multiset(v2) && v2[0] in multiset(v1);
    var k :| 0 <= k < |v2| && v2[k] == v1[0];
    var m :| 0 <= m < |v1| && v1[m] == v2[0];
    if k != 0 && m != 0 {
      assert WordLess(v2[0], v1[0]) && WordLess(v1[0], v2[0]);
      WordLessAsymmetric(v1[0], v2[0]);
    }
  }

  lemma DropFirst(v: seq<Pair>)
    requires v != []
    ensures multiset(v[1..]) == multiset(v) - multiset{v[0]}
  {
    assert v == [v[0]] + v[1..];
  }

  /**
   * The by-word report depends on the table alone: neither the map's
   * iteration order nor the earlier by-count sort can change it.
   */
  lemma ByWordReportDetermined(l1: seq<string>, l2: seq<string>, t: Table)
    requires IsReport(l1, t, ByWord) && IsReport(l2, t, ByWord)
    ensures l1 == l2
  {
    var v1: seq<Pair> :| Enumerates(v1, t) && SortedBy(v1, ByWord) && l1 == Lines(v1);
    var v2: seq<Pair> :| Enumerates(v2, t) && SortedBy(v2, ByWord) && l2 == Lines(v2);
    StrictByWord(v1, t);
    StrictByWord(v2, t);
    StrictlyByWordUnique(v1, v2);
  }

  lemma StrictByWord(v: seq<Pair>, t: Table)
    requires Enumerates(v, t) && SortedBy(v, ByWord)
    ensures StrictlyByWord(v)
  {
    EnumeratesEntries(v, t);
    forall i: nat, j: nat | i < j < |v| ensures WordLess(v[i], v[j]) {
      assert Le(ByWord, v[i], v[j]);
      CmpStrEqual(v[i].0, v[j].0);
    }
  }

  /** The two reports hold the same lines, only in different orders. */
  lemma ReportsAgree(byN: seq<string>, byA: seq<string>, t: Table)
    requires IsReport(byN, t, ByCountDesc) && IsReport(byA, t, ByWord)
    ensures multiset(byN) == multiset(byA)
  {
    var v1: seq<Pair> :| Enumerates(v1, t) && SortedBy(v1, ByCountDesc) && byN == Lines(v1);
    var v2: seq<Pair> :| Enumerates(v2, t) && SortedBy(v2, ByWord) && byA == Lines(v2);
    LinesPermutation(v1, v2);
  }
}
