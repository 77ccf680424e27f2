/**
 Overlap detection and replacement from the tail of the file (tools/edit.rs),
 against simultaneous substitution on the original.
 */
module Splice {
  import opened Seqs
  import opened Sorting

  /** A matched range of the original and the text to put in its place; `index`
      is the edit's position in the request. */
  datatype Match<T> = Match(index: nat, start: nat, end: nat, text: seq<T>)

  function Start<T>(m: Match<T>): int {
    m.start
  }

  /** `Reverse(range.start)`, the key of the second sort. */
  function NegatedStart<T>(m: Match<T>): int {
    -Start(m)
  }

  ghost predicate InRange<T>(ms: seq<Match<T>>, n: nat) {
    forall i :: 0 <= i < |ms| ==> ms[i].start < ms[i].end <= n
  }

  predicate Apart<T>(a: Match<T>, b: Match<T>) {
    a.end <= b.start || b.end <= a.start
  }

  // ----- overlap detection -----

  /** The first pair of neighbours, in the order of `start`, that overlap. */
  function FirstOverlap<T>(sorted: seq<Match<T>>): Option<(nat, nat)> {
    if |sorted| < 2 then None
    else if sorted[1].start < sorted[0].end then
      Some((Min(sorted[0].index, sorted[1].index), Max(sorted[0].index, sorted[1].index)))
    else FirstOverlap(sorted[1..])
  }

  function Min(a: nat, b: nat): nat {
    if a <= b then a else b
  }

  function Max(a: nat, b: nat): nat {
    if a <= b then b else a
  }

  /** `sorted.windows(2)`, in order. */
  method FindOverlap<T>(sorted: seq<Match<T>>) returns (r: Option<(nat, nat)>)
    ensures r == FirstOverlap(sorted)
  {
    var i := 0;
    assert sorted[0..] == sorted;
    while i + 1 < |sorted|
      invariant i <= |sorted|
      invariant FirstOverlap(sorted) == FirstOverlap(sorted[i..])
    {
      var a, b := sorted[i], sorted[i + 1];
      if b.start < a.end {
        return Some((Min(a.index, b.index), Max(a.index, b.index)));
      }
      assert sorted[i..][1..] == sorted[i + 1..];
      i := i + 1;
    }
    return None;
  }

  /** In the order of `start`, each range begins at or after the end of the previous. */
  predicate Ordered<T>(es: seq<Match<T>>, from: nat, n: nat)
    decreases |es|
  {
    es == [] || (from <= es[0].start < es[0].end <= n && Ordered(es[1..], es[0].end, n))
  }

  /** Neighbours that do not overlap put all ranges in order. */
  lemma {:induction false} NoOverlapOrdered<T>(sorted: seq<Match<T>>, from: nat, n: nat)
    requires InRange(sorted, n)
    ensures FirstOverlap(sorted) == None && (sorted != [] ==> from <= sorted[0].start) <==> Ordered(sorted, from, n)
    decreases |sorted|
  {
    if sorted != [] {
      NoOverlapOrdered(sorted[1..], sorted[0].end, n);
    }
  }

  lemma {:induction false} OrderedLaterStarts<T>(es: seq<Match<T>>, from: nat, n: nat, j: nat)
    requires Ordered(es, from, n) && j < |es|
    ensures from <= es[j].start < es[j].end <= n
    decreases |es|
  {
    if j > 0 {
      OrderedLaterStarts(es[1..], es[0].end, n, j - 1);
    }
  }

  lemma {:induction false} OrderedPairs<T>(es: seq<Match<T>>, from: nat, n: nat, i: nat, j: nat)
    requires Ordered(es, from, n) && i < j < |es|
    ensures es[i].end <= es[j].start
    decreases |es|
  {
    if i > 0 {
      OrderedPairs(es[1..], es[0].end, n, i - 1, j - 1);
    } else {
      OrderedLaterStarts(es[1..], es[0].end, n, j - 1);
    }
  }

  lemma {:induction false} PairwiseOrdered<T(!new)>(sorted: seq<Match<T>>, from: nat, n: nat)
    requires InRange(sorted, n) && Sorted(sorted, Start) && Pairwise(sorted, Apart)
    requires sorted != [] ==> from <= sorted[0].start
    ensures Ordered(sorted, from, n)
    decreases |sorted|
  {
    if |sorted| > 1 {
      assert Apart(sorted[0], sorted[1]);
      assert Start(sorted[0]) <= Start(sorted[1]);
      PairwiseOrdered(sorted[1..], sorted[0].end, n);
    }
  }

  lemma SortedInRange<T(!new)>(ms: seq<Match<T>>, n: nat)
    requires InRange(ms, n)
    ensures InRange(SortBy(ms, Start), n)
  {
    var sorted := SortBy(ms, Start);
    forall i | 0 <= i < |sorted|
      ensures sorted[i].start < sorted[i].end <= n
    {
      assert sorted[i] in multiset(sorted);
      assert sorted[i] in multiset(ms);
    }
  }

  /** Checking neighbours only is exact: the check passes if and only if all the
      matched ranges, of any number of edits, are pairwise disjoint. */
  lemma AdjacentCheckExact<T(!new)>(ms: seq<Match<T>>, n: nat)
    requires InRange(ms, n)
    ensures FirstOverlap(SortBy(ms, Start)) == None <==> Pairwise(ms, Apart)
    ensures FirstOverlap(SortBy(ms, Start)) == None <==> Ordered(SortBy(ms, Start), 0, n)
  {
    var sorted := SortBy(ms, Start);
    SortBySorted(ms, Start);
    SortedInRange(ms, n);
    NoOverlapOrdered(sorted, 0, n);
    if Ordered(sorted, 0, n) {
      forall i, j | 0 <= i < j < |sorted|
        ensures Apart(sorted[i], sorted[j])
      {
        OrderedPairs(sorted, 0, n, i, j);
      }
      PairwiseUnordered(sorted, ms, Apart);
    }
    if Pairwise(ms, Apart) {
      PairwiseUnordered(ms, sorted, Apart);
      PairwiseOrdered(sorted, 0, n);
    }
  }

  /** The pair that is reported does overlap. */
  lemma {:induction false} ReportedPairOverlaps<T>(sorted: seq<Match<T>>)
    requires FirstOverlap(sorted).Some?
    requires forall i :: 0 <= i < |sorted| ==> sorted[i].start < sorted[i].end
    requires forall i, j :: 0 <= i < j < |sorted| ==> sorted[i].start <= sorted[j].start && sorted[i].index != sorted[j].index
    ensures var (low, high) := FirstOverlap(sorted).value;
            low < high && exists i, j ::
              && 0 <= i < |sorted| && 0 <= j < |sorted|
              && sorted[i].index == low && sorted[j].index == high && !Apart(sorted[i], sorted[j])
  {
    if sorted[1].start < sorted[0].end {
      assert !Apart(sorted[0], sorted[1]) && !Apart(sorted[1], sorted[0]);
    } else {
      ReportedPairOverlaps(sorted[1..]);
      var (low, high) := FirstOverlap(sorted[1..]).value;
      var i, j :| && 0 <= i < |sorted| - 1 && 0 <= j < |sorted| - 1
                  && sorted[1..][i].index == low && sorted[1..][j].index == high && !Apart(sorted[1..][i], sorted[1..][j]);
      assert sorted[i + 1].index == low && sorted[j + 1].index == high && !Apart(sorted[i + 1], sorted[j + 1]);
    }
  }

  /** Disjoint non-empty ranges start at different places. */
  lemma ApartStartsDiffer<T(!new)>(ms: seq<Match<T>>, n: nat)
    requires InRange(ms, n) && Pairwise(ms, Apart)
    ensures Pairwise(ms, (x: Match<T>, y: Match<T>) => Start(x) != Start(y))
  {
    forall i, j | 0 <= i < j < |ms|
      ensures Start(ms[i]) != Start(ms[j])
    {
      assert Apart(ms[i], ms[j]);
    }
  }

  /** The two sorts of disjoint ranges are each other's reverse. */
  lemma TwoSorts<T(!new)>(ms: seq<Match<T>>, n: nat)
    requires InRange(ms, n) && Pairwise(ms, Apart)
    ensures Reverse(SortBy(ms, NegatedStart)) == SortBy(ms, Start)
  {
    ApartStartsDiffer(ms, n);
    SortDescending(ms, Start, NegatedStart);
  }

  // ----- replacement -----

  /** Simultaneous substitution from index `from` on: gaps as they are, in order,
      with the new texts between them. */
  function Substitute<T>(content: seq<T>, es: seq<Match<T>>, from: nat): seq<T>
    requires from <= |content| && Ordered(es, from, |content|)
    decreases |es|
  {
    if es == [] then content[from..]
    else content[from..es[0].start] + es[0].text + Substitute(content, es[1..], es[0].end)
  }

  lemma OrderedFrom<T>(es: seq<Match<T>>, from: nat, from': nat, n: nat)
    requires Ordered(es, from, n) && from' <= from
    ensures Ordered(es, from', n)
  {
  }

  /** A substitution leaves what lies in front of the first range alone. */
  lemma SubstituteFrom<T>(content: seq<T>, es: seq<Match<T>>, from: nat)
    requires from <= |content| && Ordered(es, from, |content|)
    ensures Ordered(es, 0, |content|)
    ensures Substitute(content, es, 0) == content[..from] + Substitute(content, es, from)
  {
    OrderedFrom(es, from, 0, |content|);
    if es == [] {
      assert content == content[..from] + content[from..];
    } else {
      SubstituteHead(content, es, from);
      SubstituteHead(content, es, 0);
      hide Substitute;
      GapSplit(content, from, es[0].start, es[0].text, Substitute(content, es[1..], es[0].end));
    }
  }

  lemma GapSplit<T>(content: seq<T>, from: nat, start: nat, text: seq<T>, rest: seq<T>)
    requires from <= start <= |content|
    ensures content[0..start] + text + rest == content[..from] + (content[from..start] + text + rest)
  {
    assert content[0..start] == content[..from] + content[from..start];
  }

  lemma SubstituteHead<T>(content: seq<T>, es: seq<Match<T>>, from: nat)
    requires from <= |content| && Ordered(es, from, |content|) && es != []
    ensures from <= es[0].start < es[0].end <= |content| && Ordered(es[1..], es[0].end, |content|)
    ensures Substitute(content, es, from) ==
            content[from..es[0].start] + es[0].text + Substitute(content, es[1..], es[0].end)
  {
  }

  /** Replacing the range in front of ranges already replaced. */
  lemma ReplaceNext<T>(content: seq<T>, es: seq<Match<T>>)
    requires es != [] && Ordered(es, 0, |content|)
    ensures Ordered(es[1..], 0, |content|)
    ensures var done := Substitute(content, es[1..], 0);
            && es[0].end <= |done|
            && done[..es[0].start] + es[0].text + done[es[0].end..] == Substitute(content, es, 0)
  {
    var e := es[0];
    SubstituteFrom(content, es[1..], e.end);
    SubstituteHead(content, es, 0);
    hide Substitute;
    var done := Substitute(content, es[1..], 0);
    assert done[..e.start] == content[0..e.start];
    assert done[e.end..] == Substitute(content, es[1..], e.end);
  }

  lemma {:induction false} OrderedSuffix<T>(es: seq<Match<T>>, from: nat, n: nat, k: nat)
    requires Ordered(es, from, n) && k <= |es|
    ensures Ordered(es[k..], from, n)
    decreases |es|
  {
    if k == 0 {
      assert es[0..] == es;
    } else {
      OrderedSuffix(es[1..], es[0].end, n, k - 1);
      assert es[1..][k - 1..] == es[k..];
      OrderedFrom(es[k..], es[0].end, from, n);
    }
  }

  /** The loop over `by_start`: `replace_range` from the last range to the first. */
  method ReplaceFromTail<T>(content: seq<T>, byStart: seq<Match<T>>) returns (final: seq<T>)
    requires Ordered(Reverse(byStart), 0, |content|)
    ensures final == Substitute(content, Reverse(byStart), 0)
  {
    hide Substitute, Ordered;
    ghost var es := Reverse(byStart);
    final := content;
    SubstituteNone(content, es);
    for k := 0 to |byStart|
      invariant Ordered(es[|es| - k..], 0, |content|)
      invariant final == Substitute(content, es[|es| - k..], 0)
    {
      ghost var tail := es[|es| - k - 1..];
      OrderedSuffix(es, 0, |content|, |es| - k - 1);
      assert tail[1..] == es[|es| - k..];
      assert tail[0] == byStart[k];
      OrderedLaterStarts(tail, 0, |content|, 0);
      ReplaceNext(content, tail);
      final := final[..byStart[k].start] + byStart[k].text + final[byStart[k].end..];
    }
    assert es[0..] == es;
  }

  lemma SubstituteNone<T>(content: seq<T>, es: seq<Match<T>>)
    ensures Ordered(es[|es|..], 0, |content|)
    ensures Substitute(content, es[|es|..], 0) == content
  {
  }

  // ----- what a substitution does, position by position -----

  /** By how much the edits in front of original index `i` move it. */
  function Shift<T>(es: seq<Match<T>>, i: nat): int {
    if es == [] then 0
    else (if es[0].end <= i then |es[0].text| - (es[0].end - es[0].start) else 0) + Shift(es[1..], i)
  }

  function Growth<T>(es: seq<Match<T>>): int {
    if es == [] then 0 else |es[0].text| - (es[0].end - es[0].start) + Growth(es[1..])
  }

  lemma {:induction false} ShiftZero<T>(es: seq<Match<T>>, from: nat, n: nat, i: nat)
    requires Ordered(es, from, n) && (es != [] ==> i < es[0].end)
    ensures Shift(es, i) == 0
    decreases |es|
  {
    if es != [] {
      ShiftZero(es[1..], es[0].end, n, i);
    }
  }

  /** The length is the original's, less what was matched, plus what was inserted. */
  lemma {:induction false} SubstituteLength<T>(content: seq<T>, es: seq<Match<T>>, from: nat)
    requires from <= |content| && Ordered(es, from, |content|)
    ensures |Substitute(content, es, from)| == |content| - from + Growth(es)
    decreases |es|
  {
    if es != [] {
      SubstituteLength(content, es[1..], es[0].end);
    }
  }

  /** An untouched character is found again, moved by the edits in front of it. */
  lemma {:induction false} UntouchedFrom<T>(content: seq<T>, es: seq<Match<T>>, from: nat, i: nat)
    requires from <= i < |content| && Ordered(es, from, |content|)
    requires forall j :: 0 <= j < |es| ==> i < es[j].start || es[j].end <= i
    ensures var r := Substitute(content, es, from);
            0 <= i - from + Shift(es, i) < |r| && r[i - from + Shift(es, i)] == content[i]
    decreases |es|
  {
    if es != [] {
      SubstituteHead(content, es, from);
      var e := es[0];
      if i < e.start {
        ShiftZero(es, from, |content|, i);
      } else {
        UntouchedFrom(content, es[1..], e.end, i);
        hide Substitute, Ordered;
        var gap := content[from..e.start] + e.text;
        assert Shift(es, i) == |e.text| - (e.end - e.start) + Shift(es[1..], i);
        assert i - from + Shift(es, i) == |gap| + (i - e.end + Shift(es[1..], i));
      }
    }
  }

  /** Each new text stands where its range was, moved by the edits in front of it. */
  lemma {:induction false} InsertedFrom<T>(content: seq<T>, es: seq<Match<T>>, from: nat, j: nat)
    requires from <= |content| && Ordered(es, from, |content|) && j < |es|
    ensures var r := Substitute(content, es, from);
            var at := es[j].start - from + Shift(es, es[j].start);
            0 <= at && at + |es[j].text| <= |r| && r[at..at + |es[j].text|] == es[j].text
    decreases |es|
  {
    hide Substitute, Ordered, Shift;
    var e := es[0];
    var x := es[j].start;
    SubstituteHead(content, es, from);
    if j == 0 {
      ShiftZero(es, from, |content|, e.start);
    } else {
      InsertedFrom(content, es[1..], e.end, j - 1);
      OrderedPairs(es, from, |content|, 0, j);
      ShiftPassed(es, x);
      var gap := content[from..e.start] + e.text;
      SliceBehind(gap, Substitute(content, es[1..], e.end), x - e.end + Shift(es[1..], x), |es[j].text|);
    }
  }

  lemma ShiftPassed<T>(es: seq<Match<T>>, i: nat)
    requires es != [] && es[0].end <= i
    ensures Shift(es, i) == |es[0].text| - (es[0].end - es[0].start) + Shift(es[1..], i)
  {
  }

  lemma SliceBehind<T>(gap: seq<T>, rest: seq<T>, at: nat, n: nat)
    requires at + n <= |rest|
    ensures (gap + rest)[|gap| + at..|gap| + at + n] == rest[at..at + n]
  {
  }

  /** Index `i` of the original lies outside every range. */
  ghost predicate Untouched<T>(es: seq<Match<T>>, i: nat) {
    forall j :: 0 <= j < |es| ==> i < es[j].start || es[j].end <= i
  }

  ghost predicate FoundAgain<T>(content: seq<T>, es: seq<Match<T>>, r: seq<T>, i: nat)
    requires i < |content|
  {
    0 <= i + Shift(es, i) < |r| && r[i + Shift(es, i)] == content[i]
  }

  ghost predicate Placed<T>(e: Match<T>, es: seq<Match<T>>, r: seq<T>) {
    var at := e.start + Shift(es, e.start);
    0 <= at && at + |e.text| <= |r| && r[at..at + |e.text|] == e.text
  }

  /** Simultaneous substitution: every character outside the ranges stays, in
      order, every range becomes its new text, and nothing else is there. */
  lemma SubstituteMeaning<T>(content: seq<T>, es: seq<Match<T>>)
    requires Ordered(es, 0, |content|)
    ensures |Substitute(content, es, 0)| == |content| + Growth(es)
    ensures forall i: nat :: i < |content| && Untouched(es, i) ==> FoundAgain(content, es, Substitute(content, es, 0), i)
    ensures forall j :: 0 <= j < |es| ==> Placed(es[j], es, Substitute(content, es, 0))
  {
    hide Substitute, Ordered, Shift, Growth;
    SubstituteLength(content, es, 0);
    forall i: nat | i < |content| && Untouched(es, i)
      ensures FoundAgain(content, es, Substitute(content, es, 0), i)
    {
      UntouchedFrom(content, es, 0, i);
    }
    forall j | 0 <= j < |es|
      ensures Placed(es[j], es, Substitute(content, es, 0))
    {
      InsertedFrom(content, es, 0, j);
    }
  }
}
