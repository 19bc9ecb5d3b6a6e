/** Two text helpers: the greedy filter that keeps non-overlapping token spans
    (`filter_spans`) and the cleaner that removes line breaks and surrounding
    whitespace (`massage_str`). */
module TextAnalyze {

  /** A span of tokens `start .. end - 1`, as spaCy numbers them. */
  datatype Span = Span(start: int, end: int)

  function Len(s: Span): int {
    s.end - s.start
  }

  /** The sort key, compared as the pair (length, start). */
  predicate KeyLe(a: Span, b: Span) {
    Len(a) < Len(b) || (Len(a) == Len(b) && a.start <= b.start)
  }

  /** Ordered by decreasing (length, start). */
  predicate SortedDesc(ss: seq<Span>) {
    forall i, j | 0 <= i < j < |ss| :: KeyLe(ss[j], ss[i])
  }

  /** Places `x` before the first element whose key is not larger. */
  function Insert(x: Span, ss: seq<Span>): seq<Span> {
    if ss == [] then [x]
    else if KeyLe(ss[0], x) then [x] + ss
    else [ss[0]] + Insert(x, ss[1..])
  }

  /** `sorted(spans, key=(length, start), reverse=True)`, as an insertion sort. */
  function SortDesc(ss: seq<Span>): seq<Span> {
    if ss == [] then [] else Insert(ss[0], SortDesc(ss[1..]))
  }

  /** The tokens a span covers. */
  predicate Covers(s: Span, t: int) {
    s.start <= t < s.end
  }

  /** `set(range(lo, hi))`. */
  function Range(lo: int, hi: int): (r: set<int>)
    ensures forall t :: t in r <==> lo <= t < hi
    decreases hi - lo
  {
    if lo >= hi then {} else Range(lo, hi - 1) + {hi - 1}
  }

  /** `result` and `seen_tokens` of the loop. */
  datatype Scan = Scan(kept: seq<Span>, seen: set<int>)

  /** The loop after the first `i` sorted spans: a span is kept when neither its first
      token nor its last token has been seen, and then all its tokens are seen. */
  function Greedy(ss: seq<Span>, i: nat): Scan
    requires i <= |ss|
  {
    if i == 0 then Scan([], {})
    else
      var prev := Greedy(ss, i - 1);
      var s := ss[i - 1];
      if s.start !in prev.seen && s.end - 1 !in prev.seen
      then Scan(prev.kept + [s], prev.seen + Range(s.start, s.end))
      else prev
  }

  /** What `filter_spans` returns. */
  function Filter(spans: seq<Span>): seq<Span> {
    var ss := SortDesc(spans);
    Greedy(ss, |ss|).kept
  }

  /** `filter_spans`: sorts the spans, then keeps each one whose ends are not yet seen
      and marks its tokens seen. */
  method FilterSpans(spans: seq<Span>) returns (result: seq<Span>)
    ensures result == Filter(spans)
  {
    var sortedSpans := SortDesc(spans);
    result := [];
    var seenTokens: set<int> := {};
    var i := 0;
    while i < |sortedSpans|
      invariant 0 <= i <= |sortedSpans|
      invariant Greedy(sortedSpans, i) == Scan(result, seenTokens)
    {
      var span := sortedSpans[i];
      if span.start !in seenTokens && span.end - 1 !in seenTokens {
        result := result + [span];
        seenTokens := seenTokens + Range(span.start, span.end);
      }
      i := i + 1;
    }
  }

  /** The characters Python's `str.isspace` accepts. */
  predicate IsSpace(c: char) {
    || c == ' ' || ('\t' <= c <= '\r') || ('\U{1C}' <= c <= '\U{1F}')
    || c == '\U{85}' || c == '\U{A0}' || c == '\U{1680}'
    || ('\U{2000}' <= c <= '\U{200A}') || c == '\U{2028}' || c == '\U{2029}'
    || c == '\U{202F}' || c == '\U{205F}' || c == '\U{3000}'
  }

  /** `s.replace(c, '')`. */
  function Without(s: string, c: char): (r: string)
    ensures c !in r
    ensures forall d :: d in r <==> d in s && d != c
    ensures |r| <= |s|
  {
    if s == [] then []
    else (if s[0] == c then [] else [s[0]]) + Without(s[1..], c)
  }

  /** `s.lstrip()`. */
  function StripLeft(s: string): string {
    if s != [] && IsSpace(s[0]) then StripLeft(s[1..]) else s
  }

  /** `s.rstrip()`. */
  function StripRight(s: string): string {
    if s != [] && IsSpace(s[|s| - 1]) then StripRight(s[..|s| - 1]) else s
  }

  /** `s.strip()`. */
  function Strip(s: string): string {
    StripRight(StripLeft(s))
  }

  /** `s.replace('\r', '').replace('\n', '')`. */
  function Unbroken(s: string): string {
    Without(Without(s, '\r'), '\n')
  }

  /** `massage_str`. */
  function MassageStr(currStr: string): string {
    Strip(Unbroken(currStr))
  }
}

module TextAnalyzeProps {
  import opened TextAnalyze

  /** `b` keeps the elements of `a`, in order, possibly with others between them. */
  predicate IsSubseq(a: seq<Span>, b: seq<Span>)
    decreases |b|
  {
    if a == [] then true
    else if b == [] then false
    else (a[|a| - 1] == b[|b| - 1] && IsSubseq(a[..|a| - 1], b[..|b| - 1])) || IsSubseq(a, b[..|b| - 1])
  }

  lemma {:induction false} SubseqLength(a: seq<Span>, b: seq<Span>)
    requires IsSubseq(a, b)
    ensures |a| <= |b|
    decreases |b|
  {
    if a != [] {
      if a[|a| - 1] == b[|b| - 1] && IsSubseq(a[..|a| - 1], b[..|b| - 1]) {
        SubseqLength(a[..|a| - 1], b[..|b| - 1]);
      } else {
        SubseqLength(a, b[..|b| - 1]);
      }
    }
  }

  lemma SubseqSkip(a: seq<Span>, b: seq<Span>, x: Span)
    requires IsSubseq(a, b)
    ensures IsSubseq(a, b + [x])
  {
    assert (b + [x])[..|b|] == b;
  }

  lemma SubseqTake(a: seq<Span>, b: seq<Span>, x: Span)
    requires IsSubseq(a, b)
    ensures IsSubseq(a + [x], b + [x])
  {
    assert (a + [x])[..|a|] == a;
    assert (b + [x])[..|b|] == b;
  }

  /** Inserting into a sorted list keeps it sorted and adds exactly `x`. */
  lemma {:induction false} InsertSpec(x: Span, ss: seq<Span>)
    requires SortedDesc(ss)
    ensures SortedDesc(Insert(x, ss))
    ensures multiset(Insert(x, ss)) == multiset(ss) + multiset{x}
  {
    if ss == [] {
    } else if KeyLe(ss[0], x) {
      HeadBounds(ss, x);
      ConsSorted(x, ss);
    } else {
      var tail := ss[1..];
      SortedTail(ss);
      InsertSpec(x, tail);
      var rest := Insert(x, tail);
      HeadBounds(ss, ss[0]);
      BoundCarries(ss[0], x, tail, rest);
      ConsSorted(ss[0], rest);
      TailMultiset(ss);
    }
  }

  /** Every span of a sorted list has a key no larger than any key that bounds its head. */
  lemma HeadBounds(ss: seq<Span>, h: Span)
    requires SortedDesc(ss) && ss != [] && KeyLe(ss[0], h)
    ensures forall k | 0 <= k < |ss| :: KeyLe(ss[k], h)
  {
    assert forall k | 0 < k < |ss| :: KeyLe(ss[k], ss[0]);
  }

  lemma SortedTail(ss: seq<Span>)
    requires SortedDesc(ss) && ss != []
    ensures SortedDesc(ss[1..])
  {
    assert forall i, j | 0 <= i < j < |ss| - 1 :: ss[1..][i] == ss[i + 1] && ss[1..][j] == ss[j + 1];
  }

  /** A span whose key bounds every span of a sorted list heads it. */
  lemma ConsSorted(h: Span, rest: seq<Span>)
    requires SortedDesc(rest)
    requires forall k | 0 <= k < |rest| :: KeyLe(rest[k], h)
    ensures SortedDesc([h] + rest)
  {
    var l := [h] + rest;
    forall i, j | 0 <= i < j < |l|
      ensures KeyLe(l[j], l[i])
    {
      assert l[j] == rest[j - 1];
      if i > 0 {
        assert l[i] == rest[i - 1];
      }
    }
  }

  /** A bound on the tail and on `x` bounds every span of the tail with `x` inserted. */
  lemma BoundCarries(h: Span, x: Span, tail: seq<Span>, rest: seq<Span>)
    requires forall k | 0 <= k < |tail| :: KeyLe(tail[k], h)
    requires KeyLe(x, h)
    requires multiset(rest) == multiset(tail) + multiset{x}
    ensures forall k | 0 <= k < |rest| :: KeyLe(rest[k], h)
  {
    forall k | 0 <= k < |rest|
      ensures KeyLe(rest[k], h)
    {
      assert rest[k] in multiset(rest);
      if rest[k] != x {
        assert rest[k] in tail;
      }
    }
  }

  /** The sort orders the spans by decreasing key and keeps every span. */
  lemma {:induction false} SortDescSpec(ss: seq<Span>)
    ensures SortedDesc(SortDesc(ss))
    ensures multiset(SortDesc(ss)) == multiset(ss)
  {
    if ss != [] {
      SortDescSpec(ss[1..]);
      InsertSpec(ss[0], SortDesc(ss[1..]));
      assert ss == [ss[0]] + ss[1..];
    }
  }

  /** The head of a sorted list has the largest key. */
  lemma HeadIsLargest(b: seq<Span>, x: Span)
    requires SortedDesc(b) && x in b
    ensures KeyLe(x, b[0])
  {
    var j :| 0 <= j < |b| && b[j] == x;
    assert j == 0 || KeyLe(b[j], b[0]);
  }

  lemma TailMultiset(a: seq<Span>)
    requires a != []
    ensures multiset(a[1..]) == multiset(a) - multiset{a[0]}
  {
    assert a == [a[0]] + a[1..];
  }

  /** The key orders spans totally: equal keys mean equal spans. */
  lemma KeyAntisymmetric(a: Span, b: Span)
    requires KeyLe(a, b) && KeyLe(b, a)
    ensures a == b
  {
  }

  /** Any two lists sorted by the key with the same elements are the same list, so
      every sort of the spans by (length, start) gives the list `SortDesc` gives. */
  lemma {:induction false} SortedUnique(a: seq<Span>, b: seq<Span>)
    requires SortedDesc(a) && SortedDesc(b)
    requires multiset(a) == multiset(b)
    ensures a == b
    decreases |a|
  {
    if a == [] {
      assert |multiset(b)| == 0;
    } else {
      SameHead(a, b);
      SortedTail(a);
      SortedTail(b);
      TailMultiset(a);
      TailMultiset(b);
      SortedUnique(a[1..], b[1..]);
      ConsEqual(a, b);
    }
  }

  /** Two sorted lists with the same elements start with the same span. */
  lemma SameHead(a: seq<Span>, b: seq<Span>)
    requires SortedDesc(a) && SortedDesc(b)
    requires multiset(a) == multiset(b) && a != []
    ensures b != [] && a[0] == b[0]
  {
    assert a[0] in multiset(b);
    assert b[0] in multiset(a);
    HeadIsLargest(b, a[0]);
    HeadIsLargest(a, b[0]);
    KeyAntisymmetric(a[0], b[0]);
  }

  lemma ConsEqual(a: seq<Span>, b: seq<Span>)
    requires a != [] && b != [] && a[0] == b[0] && a[1..] == b[1..]
    ensures a == b
  {
    assert a == [a[0]] + a[1..];
    assert b == [b[0]] + b[1..];
  }

  /** Any sort of the spans by decreasing key is the list `SortDesc` gives. */
  lemma SortIsDetermined(spans: seq<Span>, sorted: seq<Span>)
    requires SortedDesc(sorted) && multiset(sorted) == multiset(spans)
    ensures sorted == SortDesc(spans)
  {
    SortDescSpec(spans);
    SortedUnique(sorted, SortDesc(spans));
  }

  /** Some earlier kept span covers token `t`. */
  predicate CoveredBy(ks: seq<Span>, t: int) {
    exists k | 0 <= k < |ks| :: Covers(ks[k], t)
  }

  /** `seen_tokens` is exactly the set of tokens of the kept spans. */
  lemma {:induction false} SeenIsKeptTokens(ss: seq<Span>, i: nat)
    requires i <= |ss|
    ensures forall t :: t in Greedy(ss, i).seen <==> CoveredBy(Greedy(ss, i).kept, t)
  {
    if i > 0 {
      SeenIsKeptTokens(ss, i - 1);
      var prev := Greedy(ss, i - 1);
      var s := ss[i - 1];
      if s.start !in prev.seen && s.end - 1 !in prev.seen {
        var kept := prev.kept + [s];
        forall t
          ensures t in Greedy(ss, i).seen <==> CoveredBy(kept, t)
        {
          if CoveredBy(prev.kept, t) {
            var k :| 0 <= k < |prev.kept| && Covers(prev.kept[k], t);
            assert kept[k] == prev.kept[k];
          }
          if CoveredBy(kept, t) {
            var k :| 0 <= k < |kept| && Covers(kept[k], t);
            if k < |prev.kept| {
              assert prev.kept[k] == kept[k];
            }
          }
          if Covers(s, t) {
            assert kept[|prev.kept|] == s;
          }
        }
      }
    }
  }

  /** The next span is kept exactly when neither its first nor its last token is covered
      by a span kept before it; the kept list only ever grows at its end. */
  lemma KeptWhenEndsFree(ss: seq<Span>, i: nat)
    requires i < |ss|
    ensures var prev := Greedy(ss, i).kept;
      Greedy(ss, i + 1).kept ==
        if !CoveredBy(prev, ss[i].start) && !CoveredBy(prev, ss[i].end - 1) then prev + [ss[i]] else prev
  {
    SeenIsKeptTokens(ss, i);
  }

  /** The kept spans appear in the order of the sorted list and are at most as many. */
  lemma {:induction false} KeptIsSubseq(ss: seq<Span>, i: nat)
    requires i <= |ss|
    ensures IsSubseq(Greedy(ss, i).kept, ss[..i])
    ensures |Greedy(ss, i).kept| <= i
  {
    if i > 0 {
      KeptIsSubseq(ss, i - 1);
      var prev := Greedy(ss, i - 1).kept;
      assert ss[..i] == ss[..i - 1] + [ss[i - 1]];
      if Greedy(ss, i).kept == prev {
        SubseqSkip(prev, ss[..i - 1], ss[i - 1]);
      } else {
        SubseqTake(prev, ss[..i - 1], ss[i - 1]);
      }
    }
    SubseqLength(Greedy(ss, i).kept, ss[..i]);
  }

  /** Every kept span comes from the list. */
  lemma {:induction false} KeptFromList(ss: seq<Span>, i: nat)
    requires i <= |ss|
    ensures forall k | 0 <= k < |Greedy(ss, i).kept| :: exists j | 0 <= j < i :: Greedy(ss, i).kept[k] == ss[j]
  {
    if i > 0 {
      KeptFromList(ss, i - 1);
      var prev := Greedy(ss, i - 1).kept;
      var kept := Greedy(ss, i).kept;
      forall k | 0 <= k < |kept|
        ensures exists j | 0 <= j < i :: kept[k] == ss[j]
      {
        if k < |prev| {
          var j :| 0 <= j < i - 1 && prev[k] == ss[j];
          assert kept[k] == ss[j];
        } else {
          assert kept[k] == ss[i - 1];
        }
      }
    } else {
      assert Greedy(ss, i).kept == [];
    }
  }

  /** No token lies in two spans. */
  ghost predicate Disjoint(a: Span, b: Span) {
    forall t :: !(Covers(a, t) && Covers(b, t))
  }

  ghost predicate PairwiseDisjoint(ks: seq<Span>) {
    forall k, l | 0 <= k < l < |ks| :: Disjoint(ks[k], ks[l])
  }

  /** A span no longer than `k` whose two ends lie outside `k` shares no token with it. */
  lemma EndsOutsideShorter(k: Span, s: Span)
    requires Len(s) <= Len(k)
    requires !Covers(k, s.start) && !Covers(k, s.end - 1)
    ensures Disjoint(k, s)
  {
  }

  /** Appending a span no longer than, and with both ends outside, every kept span keeps
      the kept spans disjoint and in order. */
  lemma AppendFree(prev: seq<Span>, s: Span)
    requires PairwiseDisjoint(prev) && SortedDesc(prev)
    requires forall k | 0 <= k < |prev| :: KeyLe(s, prev[k])
    requires forall k | 0 <= k < |prev| :: !Covers(prev[k], s.start) && !Covers(prev[k], s.end - 1)
    ensures PairwiseDisjoint(prev + [s]) && SortedDesc(prev + [s])
  {
    var kept := prev + [s];
    forall k | 0 <= k < |prev|
      ensures Disjoint(kept[k], s)
    {
      EndsOutsideShorter(prev[k], s);
    }
  }

  /** On a list sorted by decreasing length the kept spans share no token, and they stay
      in decreasing (length, start) order. */
  lemma {:induction false} KeptDisjoint(ss: seq<Span>, i: nat)
    requires i <= |ss| && SortedDesc(ss)
    ensures PairwiseDisjoint(Greedy(ss, i).kept)
    ensures SortedDesc(Greedy(ss, i).kept)
  {
    if i > 0 {
      KeptDisjoint(ss, i - 1);
      KeptDisjointStep(ss, i - 1);
    }
  }

  /** One more sorted span keeps the kept spans disjoint and sorted. */
  lemma KeptDisjointStep(ss: seq<Span>, i: nat)
    requires i < |ss| && SortedDesc(ss)
    requires PairwiseDisjoint(Greedy(ss, i).kept) && SortedDesc(Greedy(ss, i).kept)
    ensures PairwiseDisjoint(Greedy(ss, i + 1).kept) && SortedDesc(Greedy(ss, i + 1).kept)
  {
    KeptWhenEndsFree(ss, i);
    var prev := Greedy(ss, i).kept;
    var s := ss[i];
    if !CoveredBy(prev, s.start) && !CoveredBy(prev, s.end - 1) {
      NextBelowKept(ss, i);
      AppendFree(prev, s);
    }
  }

  /** A span kept next comes later in the sorted list than every span kept before it,
      and neither of its ends lies in one of them. */
  lemma NextBelowKept(ss: seq<Span>, i: nat)
    requires i < |ss| && SortedDesc(ss)
    requires !CoveredBy(Greedy(ss, i).kept, ss[i].start) && !CoveredBy(Greedy(ss, i).kept, ss[i].end - 1)
    ensures var prev := Greedy(ss, i).kept;
      forall k | 0 <= k < |prev| ::
        KeyLe(ss[i], prev[k]) && !Covers(prev[k], ss[i].start) && !Covers(prev[k], ss[i].end - 1)
  {
    KeptFromList(ss, i);
    var prev := Greedy(ss, i).kept;
    forall k | 0 <= k < |prev|
      ensures KeyLe(ss[i], prev[k])
    {
      var j :| 0 <= j < i && prev[k] == ss[j];
    }
  }

  /** The first span in sorted order is always kept, and stays first. */
  lemma {:induction false} FirstKept(ss: seq<Span>, i: nat)
    requires 0 < i <= |ss|
    ensures |Greedy(ss, i).kept| > 0 && Greedy(ss, i).kept[0] == ss[0]
  {
    if i > 1 {
      FirstKept(ss, i - 1);
    }
  }

  /** `filter_spans`: its result keeps the sorted order of the input, has no more spans
      than the input, keeps the longest span, and no token lies in two kept spans. */
  lemma FilterSpec(spans: seq<Span>)
    ensures IsSubseq(Filter(spans), SortDesc(spans))
    ensures SortedDesc(Filter(spans))
    ensures |Filter(spans)| <= |spans|
    ensures PairwiseDisjoint(Filter(spans))
    ensures |spans| > 0 ==> |Filter(spans)| > 0 && Filter(spans)[0] == SortDesc(spans)[0]
  {
    var ss := SortDesc(spans);
    SortDescSpec(spans);
    assert |ss| == |spans| by { assert |multiset(ss)| == |multiset(spans)|; }
    KeptIsSubseq(ss, |ss|);
    assert ss[..|ss|] == ss;
    KeptDisjoint(ss, |ss|);
    if |spans| > 0 {
      FirstKept(ss, |ss|);
    }
  }

  /** Removing a character that does not occur changes nothing. */
  lemma {:induction false} WithoutAbsent(s: string, c: char)
    requires c !in s
    ensures Without(s, c) == s
  {
    if s != [] {
      WithoutAbsent(s[1..], c);
      assert s == [s[0]] + s[1..];
    }
  }

  /** Removing a character works piece by piece, so the characters kept stay in their
      order: `Without(s, c)` is `s` with each `c` deleted where it stands. */
  lemma {:induction false} WithoutAppend(a: string, b: string, c: char)
    ensures Without(a + b, c) == Without(a, c) + Without(b, c)
  {
    if a == [] {
      assert a + b == b;
    } else {
      var head := if a[0] == c then [] else [a[0]];
      calc {
        Without(a + b, c);
        { assert (a + b)[0] == a[0] && (a + b)[1..] == a[1..] + b; }
        head + Without(a[1..] + b, c);
        { WithoutAppend(a[1..], b, c); }
        head + (Without(a[1..], c) + Without(b, c));
        (head + Without(a[1..], c)) + Without(b, c);
        Without(a, c) + Without(b, c);
      }
    }
  }

  /** Every other character keeps its multiplicity; `c` has none left. */
  lemma {:induction false} WithoutMultiset(s: string, c: char)
    ensures multiset(Without(s, c)) == multiset(s)[c := 0]
  {
    if s != [] {
      WithoutMultiset(s[1..], c);
      assert s == [s[0]] + s[1..];
      assert multiset(s) == multiset{s[0]} + multiset(s[1..]);
    }
  }

  /** A single character is kept exactly when it is not the one removed. */
  lemma WithoutOne(d: char, c: char)
    ensures Without([d], c) == if d == c then [] else [d]
  {
  }

  /** How many whitespace characters `s` starts with. */
  function LeadCount(s: string): (n: nat)
    ensures n <= |s|
  {
    if s != [] && IsSpace(s[0]) then 1 + LeadCount(s[1..]) else 0
  }

  /** How many whitespace characters `s` ends with. */
  function TrailCount(s: string): (n: nat)
    ensures n <= |s|
  {
    if s != [] && IsSpace(s[|s| - 1]) then 1 + TrailCount(s[..|s| - 1]) else 0
  }

  /** `lstrip` drops exactly the whitespace prefix and leaves no leading whitespace. */
  lemma {:induction false} StripLeftSpec(s: string)
    ensures StripLeft(s) == s[LeadCount(s)..]
    ensures forall k | 0 <= k < LeadCount(s) :: IsSpace(s[k])
    ensures StripLeft(s) != [] ==> !IsSpace(StripLeft(s)[0])
  {
    if s != [] && IsSpace(s[0]) {
      var t := s[1..];
      StripLeftSpec(t);
      assert t[LeadCount(t)..] == s[LeadCount(s)..];
      forall k | 0 <= k < LeadCount(s)
        ensures IsSpace(s[k])
      {
        if k > 0 {
          assert s[k] == t[k - 1];
        }
      }
    }
  }

  /** `rstrip` drops exactly the whitespace suffix and leaves no trailing whitespace. */
  lemma {:induction false} StripRightSpec(s: string)
    ensures StripRight(s) == s[..|s| - TrailCount(s)]
    ensures forall k | |s| - TrailCount(s) <= k < |s| :: IsSpace(s[k])
    ensures StripRight(s) != [] ==> !IsSpace(StripRight(s)[|StripRight(s)| - 1])
  {
    if s != [] && IsSpace(s[|s| - 1]) {
      var t := s[..|s| - 1];
      StripRightSpec(t);
      assert t[..|t| - TrailCount(t)] == s[..|s| - TrailCount(s)];
      forall k | |s| - TrailCount(s) <= k < |s|
        ensures IsSpace(s[k])
      {
        if k < |t| {
          assert s[k] == t[k];
        }
      }
    } else {
      assert s[..|s|] == s;
    }
  }

  /** Stripping keeps what stripping already left. */
  lemma StripLeftStable(s: string)
    requires s == [] || !IsSpace(s[0])
    ensures StripLeft(s) == s
  {
  }

  lemma StripRightStable(s: string)
    requires s == [] || !IsSpace(s[|s| - 1])
    ensures StripRight(s) == s
  {
  }

  /** `strip` removes only whitespace, from both ends, and leaves none at either end. */
  lemma StripSpec(s: string)
    ensures exists i, j | 0 <= i <= j <= |s| ::
      && Strip(s) == s[i..j]
      && (forall k | 0 <= k < i :: IsSpace(s[k]))
      && (forall k | j <= k < |s| :: IsSpace(s[k]))
    ensures Strip(s) != [] ==> !IsSpace(Strip(s)[0]) && !IsSpace(Strip(s)[|Strip(s)| - 1])
  {
    StripLeftSpec(s);
    var i := LeadCount(s);
    var l := s[i..];
    StripRightSpec(l);
    var j := i + |l| - TrailCount(l);
    assert l[..|l| - TrailCount(l)] == s[i..j];
    forall k | j <= k < |s|
      ensures IsSpace(s[k])
    {
      assert s[k] == l[k - i];
    }
    if Strip(s) != [] {
      assert Strip(s)[0] == l[0];
    }
    assert Strip(s) == s[i..j];
  }

  /** `massage_str` leaves no carriage return or newline and no whitespace at either end,
      and everything it removed from the ends is whitespace. */
  lemma MassageStrSpec(currStr: string)
    ensures '\r' !in MassageStr(currStr) && '\n' !in MassageStr(currStr)
    ensures var r := MassageStr(currStr);
      r != [] ==> !IsSpace(r[0]) && !IsSpace(r[|r| - 1])
    ensures exists i, j | 0 <= i <= j <= |Unbroken(currStr)| ::
      && MassageStr(currStr) == Unbroken(currStr)[i..j]
      && (forall k | 0 <= k < i :: IsSpace(Unbroken(currStr)[k]))
      && (forall k | j <= k < |Unbroken(currStr)| :: IsSpace(Unbroken(currStr)[k]))
  {
    var t := Unbroken(currStr);
    StripSpec(t);
    var i, j :| 0 <= i <= j <= |t| && Strip(t) == t[i..j]
      && (forall k | 0 <= k < i :: IsSpace(t[k]))
      && (forall k | j <= k < |t| :: IsSpace(t[k]));
    NoLineBreaks(currStr, i, j);
  }

  /** A slice of a string without line breaks has none either. */
  lemma NoLineBreaks(currStr: string, i: nat, j: nat)
    requires i <= j <= |Unbroken(currStr)|
    ensures '\r' !in Unbroken(currStr)[i..j] && '\n' !in Unbroken(currStr)[i..j]
  {
    var t := Unbroken(currStr);
    assert '\r' !in t && '\n' !in t;
    forall c | c in t[i..j]
      ensures c in t
    {
      var k :| 0 <= k < j - i && t[i..j][k] == c;
      assert t[i + k] == c;
    }
  }

  /** Cleaning a cleaned string changes nothing. */
  lemma MassageStrIdempotent(currStr: string)
    ensures MassageStr(MassageStr(currStr)) == MassageStr(currStr)
  {
    var r := MassageStr(currStr);
    MassageStrSpec(currStr);
    WithoutAbsent(r, '\r');
    WithoutAbsent(r, '\n');
    StripLeftStable(r);
    StripRightStable(r);
  }
}
