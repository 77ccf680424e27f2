/**
 Locating one edit's `oldText` (tools/edit.rs): the exact pass over
 non-overlapping matches, then the normalised fallback over all positions.
 */
module Matching {
  import opened Seqs
  import opened Utf8
  import opened Normalizer
  import opened PositionMap

  // ----- the exact pass -----

  /** `str::match_indices` from index `from` on: leftmost first, never overlapping. */
  function NonOverlapping(hay: string, needle: string, from: nat): seq<nat>
    requires needle != []
    decreases |hay| - from
  {
    if from + |needle| > |hay| then []
    else if OccursAt(hay, needle, from) then [from] + NonOverlapping(hay, needle, from + |needle|)
    else NonOverlapping(hay, needle, from + 1)
  }

  /** Occurrences from `from` on, each starting at or after the end of the one before. */
  ghost predicate Disjoint(hay: string, needle: string, from: nat, ps: seq<nat>) {
    && (forall i :: 0 <= i < |ps| ==> from <= ps[i] && OccursAt(hay, needle, ps[i]))
    && forall i, j :: 0 <= i < j < |ps| ==> ps[i] + |needle| <= ps[j]
  }

  lemma {:induction false} NonOverlappingDisjoint(hay: string, needle: string, from: nat)
    requires needle != []
    ensures Disjoint(hay, needle, from, NonOverlapping(hay, needle, from))
    decreases |hay| - from
  {
    if from + |needle| <= |hay| {
      if OccursAt(hay, needle, from) {
        NonOverlappingDisjoint(hay, needle, from + |needle|);
      } else {
        NonOverlappingDisjoint(hay, needle, from + 1);
      }
    }
  }

  lemma DisjointTail(hay: string, needle: string, from: nat, ps: seq<nat>)
    requires ps != [] && Disjoint(hay, needle, from, ps)
    ensures Disjoint(hay, needle, from + |needle|, ps[1..])
  {
    hide OccursAt;
    assert from <= ps[0];
  }

  /** No choice of pairwise disjoint occurrences is larger than the one counted. */
  lemma {:induction false} NonOverlappingMaximal(hay: string, needle: string, from: nat, ps: seq<nat>)
    requires needle != [] && Disjoint(hay, needle, from, ps)
    ensures |ps| <= |NonOverlapping(hay, needle, from)|
    decreases |hay| - from
  {
    if ps != [] {
      assert from <= ps[0] && ps[0] + |needle| <= |hay|;
      hide OccursAt, NonOverlapping;
      if OccursAt(hay, needle, from) {
        Hit(hay, needle, from);
        DisjointTail(hay, needle, from, ps);
        hide Disjoint;
        NonOverlappingMaximal(hay, needle, from + |needle|, ps[1..]);
      } else {
        Miss(hay, needle, from);
        NonOverlappingMaximal(hay, needle, from + 1, ps);
      }
    }
  }

  /** The first match is the leftmost occurrence; no match, no occurrence. */
  lemma {:induction false} NonOverlappingFirst(hay: string, needle: string, from: nat)
    requires needle != []
    ensures var ms := NonOverlapping(hay, needle, from);
            forall p: nat :: from <= p && OccursAt(hay, needle, p) ==> ms != [] && ms[0] <= p
    decreases |hay| - from
  {
    if from + |needle| <= |hay| && !OccursAt(hay, needle, from) {
      NonOverlappingFirst(hay, needle, from + 1);
    }
  }

  /** With one match counted, it is the leftmost occurrence and every other
      occurrence starts strictly inside it. */
  lemma SingleMatch(hay: string, needle: string)
    requires needle != [] && |NonOverlapping(hay, needle, 0)| == 1
    ensures var m := NonOverlapping(hay, needle, 0)[0];
            && OccursAt(hay, needle, m)
            && forall p: nat :: OccursAt(hay, needle, p) && p != m ==> m < p < m + |needle|
  {
    var m := NonOverlapping(hay, needle, 0)[0];
    NonOverlappingDisjoint(hay, needle, 0);
    NonOverlappingFirst(hay, needle, 0);
    forall p: nat | OccursAt(hay, needle, p) && p != m
      ensures m < p < m + |needle|
    {
      if m + |needle| <= p {
        assert Disjoint(hay, needle, 0, [m, p]);
        NonOverlappingMaximal(hay, needle, 0, [m, p]);
      }
    }
  }

  /** A proper border: `needle` starts and ends with the same `k` characters. */
  predicate HasBorder(needle: string, k: nat) {
    0 < k < |needle| && needle[..k] == needle[|needle| - k..]
  }

  ghost predicate UniqueOccurrence(hay: string, needle: string) {
    exists m: nat :: OccursAt(hay, needle, m) && forall p: nat :: OccursAt(hay, needle, p) ==> p == m
  }

  lemma OverlapIsBorder(hay: string, needle: string, m: nat, p: nat)
    requires OccursAt(hay, needle, m) && OccursAt(hay, needle, p) && m < p < m + |needle|
    ensures HasBorder(needle, m + |needle| - p)
  {
    var k := m + |needle| - p;
    assert needle[|needle| - k..] == hay[p..m + |needle|];
    assert needle[..k] == hay[p..p + k];
  }

  /** A needle with a border, written out overlapping itself: two occurrences, one counted. */
  lemma BorderFoolsTheCount(needle: string, k: nat)
    requires HasBorder(needle, k)
    ensures var hay := needle[..|needle| - k] + needle;
            && NonOverlapping(hay, needle, 0) == [0]
            && OccursAt(hay, needle, |needle| - k)
  {
    SelfOverlap(needle, k);
    hide OccursAt;
    LoneMatch(needle[..|needle| - k] + needle, needle);
  }

  /** No second match fits behind a match at the start. */
  lemma LoneMatch(hay: string, needle: string)
    requires needle != [] && OccursAt(hay, needle, 0) && |hay| < 2 * |needle|
    ensures NonOverlapping(hay, needle, 0) == [0]
  {
    hide OccursAt, NonOverlapping;
    Hit(hay, needle, 0);
    NoRoom(hay, needle, |needle|);
  }

  lemma SelfOverlap(needle: string, k: nat)
    requires HasBorder(needle, k)
    ensures var hay := needle[..|needle| - k] + needle;
            OccursAt(hay, needle, 0) && OccursAt(hay, needle, |needle| - k)
  {
    var n := |needle|;
    var a := needle[..n - k];
    assert (a + needle)[..n] == a + needle[..k];
    assert needle == a + needle[n - k..];
  }

  lemma Hit(hay: string, needle: string, from: nat)
    requires needle != [] && OccursAt(hay, needle, from)
    ensures NonOverlapping(hay, needle, from) == [from] + NonOverlapping(hay, needle, from + |needle|)
  {
  }

  lemma Miss(hay: string, needle: string, from: nat)
    requires needle != [] && from + |needle| <= |hay| && !OccursAt(hay, needle, from)
    ensures NonOverlapping(hay, needle, from) == NonOverlapping(hay, needle, from + 1)
  {
  }

  lemma NoRoom(hay: string, needle: string, from: nat)
    requires needle != [] && from + |needle| > |hay|
    ensures NonOverlapping(hay, needle, from) == []
  {
  }

  /** A count of one is to be trusted in this text. */
  ghost predicate CountTells(hay: string, needle: string)
    requires needle != []
  {
    |NonOverlapping(hay, needle, 0)| == 1 ==> UniqueOccurrence(hay, needle)
  }

  /** A count of one means exactly one occurrence, in every text, for exactly the
      needles without a proper border. */
  lemma CountOneIsUnique(needle: string)
    requires needle != []
    ensures (forall k: nat :: !HasBorder(needle, k)) <==> (forall hay: string :: CountTells(hay, needle))
  {
    hide NonOverlapping, UniqueOccurrence;
    if forall k: nat :: !HasBorder(needle, k) {
      forall hay: string
        ensures CountTells(hay, needle)
      {
        if |NonOverlapping(hay, needle, 0)| == 1 {
          BorderlessUnique(hay, needle);
        }
      }
    }
    if k: nat :| HasBorder(needle, k) {
      BorderMisleads(needle, k);
      var hay := needle[..|needle| - k] + needle;
      assert !CountTells(hay, needle);
      assert HasBorder(needle, k);
    }
  }

  lemma BorderMisleads(needle: string, k: nat)
    requires HasBorder(needle, k)
    ensures !CountTells(needle[..|needle| - k] + needle, needle)
  {
    assert 0 < k < |needle|;
    hide NonOverlapping, HasBorder, OccursAt;
    BorderFoolsTheCount(needle, k);
    SelfOverlap(needle, k);
    TwoOccurrences(needle[..|needle| - k] + needle, needle, 0, |needle| - k);
  }

  lemma TwoOccurrences(hay: string, needle: string, a: nat, b: nat)
    requires OccursAt(hay, needle, a) && OccursAt(hay, needle, b) && a != b
    ensures !UniqueOccurrence(hay, needle)
  {
    hide OccursAt;
  }

  lemma BorderlessUnique(hay: string, needle: string)
    requires needle != [] && |NonOverlapping(hay, needle, 0)| == 1
    requires forall k: nat :: !HasBorder(needle, k)
    ensures UniqueOccurrence(hay, needle)
  {
    SingleMatch(hay, needle);
    var m := NonOverlapping(hay, needle, 0)[0];
    hide NonOverlapping, HasBorder;
    forall p: nat | OccursAt(hay, needle, p)
      ensures p == m
    {
      if p != m {
        OverlapIsBorder(hay, needle, m, p);
      }
    }
  }

  /** The smallest case: `aa` in `aaa` counts once and occurs twice. */
  lemma DoubledLetter()
    ensures NonOverlapping("aaa", "aa", 0) == [0]
    ensures OccursAt("aaa", "aa", 0) && OccursAt("aaa", "aa", 1)
  {
    assert HasBorder("aa", 1);
    BorderFoolsTheCount("aa", 1);
    SelfOverlap("aa", 1);
    assert "aa"[..1] + "aa" == "aaa";
  }

  /** The exact pass: first match and number of matches, in byte offsets. */
  method ExactPass(content: string, oldText: string) returns (exact: Option<Range>, count: nat)
    requires oldText != []
    ensures var ms := NonOverlapping(content, oldText, 0);
            && count == |ms|
            && exact == if ms == [] then None else Some(ByteRange(content, Range(ms[0], ms[0] + |oldText|)))
  {
    hide ByteRange, NonOverlapping, Len, Offset;
    exact := None;
    count := 0;
    ghost var ms := NonOverlapping(content, oldText, 0);
    var i := 0;
    var byteIndex := 0;
    OffsetZero(content);
    while i + |oldText| <= |content|
      invariant i <= |content|
      invariant byteIndex == Offset(content, i)
      invariant count <= |ms| && ms[count..] == NonOverlapping(content, oldText, i)
      invariant exact == if count == 0 then None else Some(ByteRange(content, Range(ms[0], ms[0] + |oldText|)))
      decreases |content| - i
    {
      if content[i..i + |oldText|] == oldText {
        Hit(content, oldText, i);
        assert ms[count] == i && ms[count + 1..] == ms[count..][1..];
        OffsetSlice(content, i, i + |oldText|);
        count := count + 1;
        if count == 1 {
          ByteRangeIs(content, i, i + |oldText|);
          exact := Some(Range(byteIndex, byteIndex + Len(oldText)));
        }
        i, byteIndex := i + |oldText|, byteIndex + Len(oldText);
      } else {
        Miss(content, oldText, i);
        OffsetStep(content, i);
        i, byteIndex := i + 1, byteIndex + CharLen(content[i]);
      }
    }
    NoRoom(content, oldText, i);
  }

  lemma OffsetZero(s: string)
    ensures Offset(s, 0) == 0
  {
    assert s[..0] == [];
  }

  /** A character range in byte offsets. */
  function ByteRange(content: string, r: Range): Range {
    if r.start <= |content| && r.end <= |content|
    then Range(Offset(content, r.start), Offset(content, r.end)) else r
  }

  lemma ByteRangeIs(content: string, start: nat, end: nat)
    requires start <= end <= |content|
    ensures ByteRange(content, Range(start, end)) == Range(Offset(content, start), Offset(content, end))
  {
  }

  // ----- the fallback -----

  /** Every position from `from` on where `needle` occurs, overlapping or not. */
  function Positions(hay: string, needle: string, from: nat): seq<nat>
    decreases |hay| - from
  {
    if from + |needle| > |hay| then []
    else (if OccursAt(hay, needle, from) then [from] else []) + Positions(hay, needle, from + 1)
  }

  lemma {:induction false} PositionsAreAll(hay: string, needle: string, from: nat)
    ensures forall p: nat :: p in Positions(hay, needle, from) <==> from <= p && OccursAt(hay, needle, p)
    ensures forall i, j :: 0 <= i < j < |Positions(hay, needle, from)| ==>
              Positions(hay, needle, from)[i] < Positions(hay, needle, from)[j]
    decreases |hay| - from
  {
    if from + |needle| <= |hay| {
      PositionsAreAll(hay, needle, from + 1);
      var rest := Positions(hay, needle, from + 1);
      forall i, j | 0 <= i < j < |Positions(hay, needle, from)|
        ensures Positions(hay, needle, from)[i] < Positions(hay, needle, from)[j]
      {
        if i == 0 && OccursAt(hay, needle, from) {
          assert rest[j - 1] in rest;
        }
      }
    }
  }

  method FindAllCharPositions(haystack: string, needle: string) returns (positions: seq<nat>)
    ensures positions == if needle == [] then [] else Positions(haystack, needle, 0)
  {
    positions := [];
    if needle == [] || |needle| > |haystack| {
      assert needle != [] ==> Positions(haystack, needle, 0) == [];
      return;
    }
    hide Positions, OccursAt, Collected;
    CollectedNone(haystack, needle);
    for start := 0 to |haystack| - |needle| + 1
      invariant Collected(haystack, needle, positions, start)
    {
      var matches := true;
      var offset := 0;
      while offset < |needle|
        invariant offset <= |needle|
        invariant matches
        invariant forall k :: 0 <= k < offset ==> haystack[start + k] == needle[k]
      {
        if haystack[start + offset] != needle[offset] {
          matches := false;
          break;
        }
        offset := offset + 1;
      }
      OccursPointwise(haystack, needle, start);
      assert matches <==> OccursAt(haystack, needle, start);
      CollectedStep(haystack, needle, positions, start);
      if matches {
        positions := positions + [start];
      }
    }
    CollectedAll(haystack, needle, positions);
  }

  /** `positions` holds what occurs in front of `start`. */
  ghost predicate Collected(hay: string, needle: string, positions: seq<nat>, start: nat) {
    Positions(hay, needle, 0) == positions + Positions(hay, needle, start)
  }

  lemma CollectedNone(hay: string, needle: string)
    ensures Collected(hay, needle, [], 0)
  {
    hide Positions;
  }

  lemma CollectedStep(hay: string, needle: string, positions: seq<nat>, start: nat)
    requires start + |needle| <= |hay| && Collected(hay, needle, positions, start)
    ensures if OccursAt(hay, needle, start) then Collected(hay, needle, positions + [start], start + 1)
            else Collected(hay, needle, positions, start + 1)
  {
    hide Positions, OccursAt;
    PositionsStep(hay, needle, start);
    if OccursAt(hay, needle, start) {
      MoveHead(Positions(hay, needle, 0), positions, Positions(hay, needle, start), [start], Positions(hay, needle, start + 1));
    }
  }

  lemma CollectedAll(hay: string, needle: string, positions: seq<nat>)
    requires |needle| <= |hay| && Collected(hay, needle, positions, |hay| - |needle| + 1)
    ensures positions == Positions(hay, needle, 0)
  {
    hide Positions;
    PositionsEnd(hay, needle);
  }

  lemma OccursPointwise(hay: string, needle: string, p: nat)
    requires p + |needle| <= |hay|
    ensures OccursAt(hay, needle, p) <==> forall k :: 0 <= k < |needle| ==> hay[p + k] == needle[k]
  {
    var cut := hay[p..p + |needle|];
    assert forall k :: 0 <= k < |needle| ==> cut[k] == hay[p + k];
  }

  lemma PositionsStep(hay: string, needle: string, from: nat)
    requires from + |needle| <= |hay|
    ensures Positions(hay, needle, from) ==
            if OccursAt(hay, needle, from) then [from] + Positions(hay, needle, from + 1)
            else Positions(hay, needle, from + 1)
  {
    hide OccursAt;
  }

  lemma PositionsEnd(hay: string, needle: string)
    requires |needle| <= |hay|
    ensures Positions(hay, needle, |hay| - |needle| + 1) == []
  {
  }

  datatype MatchResult = Found(range: Range) | NotFound | Multiple(count: nat)

  /** What the fallback finds, as a range of original characters. */
  function Fallback(nfkc: Nfkc, content: string, oldText: string): MatchResult {
    var needle := Norm(nfkc, oldText);
    var ps := if needle == [] then [] else Positions(Norm(nfkc, content), needle, 0);
    if ps == [] then NotFound
    else if |ps| > 1 then Multiple(|ps|)
    else if ps[0] + |needle| > |Spans(nfkc, content)| then NotFound
    else Found(Range(CharStart(Spans(nfkc, content), ps[0]), CharEnd(Spans(nfkc, content), ps[0] + |needle|)))
  }

  /** `find_unique_range`, as a range of original characters. */
  function FindUnique(nfkc: Nfkc, content: string, oldText: string): MatchResult
    requires oldText != []
  {
    var ms := NonOverlapping(content, oldText, 0);
    if |ms| == 1 then Found(Range(ms[0], ms[0] + |oldText|))
    else if |ms| > 1 then Multiple(|ms|)
    else Fallback(nfkc, content, oldText)
  }

  function InBytes(content: string, m: MatchResult): MatchResult {
    if m.Found? then Found(ByteRange(content, m.range)) else m
  }

  method FindUniqueRange(nfkc: Nfkc, content: string, oldText: string) returns (r: MatchResult)
    requires oldText != []
    ensures r == InBytes(content, FindUnique(nfkc, content, oldText))
  {
    hide NonOverlapping, Norm, Positions, Spans, OriginalRange, Offset;
    var exact, count := ExactPass(content, oldText);
    if count == 1 {
      return Found(exact.value);
    } else if count > 1 {
      return Multiple(count);
    }
    var normalized := Normalize(nfkc, content);
    var needle := NormalizeChars(nfkc, oldText);
    if needle == [] {
      return NotFound;
    }
    var positions := FindAllCharPositions(normalized.chars, needle);
    PositionsAreAll(normalized.chars, needle, 0);
    if |positions| == 0 {
      return NotFound;
    } else if |positions| == 1 {
      var start := positions[0];
      var end := start + |needle|;
      assert start in positions;
      OriginalRangeIsCut(nfkc, normalized, start, end);
      ByteRangeIs(content, CharStart(normalized.spans, start), CharEnd(normalized.spans, end));
      return Found(OriginalRange(normalized, start, end));
    } else {
      return Multiple(|positions|);
    }
  }

  // ----- what a result means -----

  /** Nothing is reported missing that occurs literally, or whose normal form occurs. */
  lemma NotFoundMeaning(nfkc: Nfkc, content: string, oldText: string)
    requires oldText != []
    ensures FindUnique(nfkc, content, oldText) == NotFound <==>
            && (forall p: nat :: !OccursAt(content, oldText, p))
            && (Norm(nfkc, oldText) == [] || forall p: nat :: !OccursAt(Norm(nfkc, content), Norm(nfkc, oldText), p))
  {
    hide Norm, NonOverlapping, Positions;
    NonOverlappingFirst(content, oldText, 0);
    NonOverlappingDisjoint(content, oldText, 0);
    var ms := NonOverlapping(content, oldText, 0);
    assert ms != [] ==> OccursAt(content, oldText, ms[0]);
    var needle := Norm(nfkc, oldText);
    PositionsAreAll(Norm(nfkc, content), needle, 0);
    SpansLength(nfkc, content);
    var ps := Positions(Norm(nfkc, content), needle, 0);
    if ps != [] {
      assert ps[0] in ps;
    }
  }

  /** A range the exact pass found: the literal text, leftmost. */
  ghost predicate IsExactMatch(content: string, oldText: string, r: Range) {
    && r.end == r.start + |oldText|
    && OccursAt(content, oldText, r.start)
    && forall p: nat :: OccursAt(content, oldText, p) && p != r.start ==> r.start < p < r.end
  }

  /** The match at output index `p`, the only one, and the cut `r` behind it, which
      normalises to `[lo, hi)` of the normal form: the match widened to whole groups. */
  ghost predicate CutAround(nfkc: Nfkc, content: string, needle: string, r: Range, p: nat, lo: nat, hi: nat) {
    && OccursAt(Norm(nfkc, content), needle, p)
    && (forall q: nat :: OccursAt(Norm(nfkc, content), needle, q) ==> q == p)
    && lo <= p && p + |needle| <= hi <= |Norm(nfkc, content)|
    && r.start < r.end <= |content|
    && Norm(nfkc, content[r.start..r.end]) == Norm(nfkc, content)[lo..hi]
    && (lo == p <==> Edge(Spans(nfkc, content), p))
    && (hi == p + |needle| <==> Edge(Spans(nfkc, content), p + |needle|))
  }

  /** A range the fallback found: the text does not occur literally, its normal form
      occurs once, and the cut normalises to a text around that occurrence. */
  ghost predicate IsFallbackMatch(nfkc: Nfkc, content: string, oldText: string, r: Range) {
    && r.start < r.end <= |content|
    && (forall p: nat :: !OccursAt(content, oldText, p))
    && !InsideCrLf(content, r.start) && !InsideCrLf(content, r.end)
    && exists p: nat, lo: nat, hi: nat :: CutAround(nfkc, content, Norm(nfkc, oldText), r, p, lo, hi)
  }

  lemma SpansLength(nfkc: Nfkc, s: string)
    ensures |Spans(nfkc, s)| == |Norm(nfkc, s)|
  {
  }

  lemma NormEndsInText(nfkc: Nfkc, s: string)
    requires Norm(nfkc, s) != []
    ensures Norm(nfkc, s)[|Norm(nfkc, s)| - 1] != ' '
  {
    hide MapChar, Groups;
    var gs := Groups(nfkc, s);
    GroupsCover(nfkc, s);
    var g := gs[|gs| - 1];
    assert gs == gs[..|gs| - 1] + [g];
    Snoc(gs[..|gs| - 1], g);
  }

  /** Soundness of a unique fallback match. */
  lemma FallbackSound(nfkc: Nfkc, content: string, oldText: string)
    requires oldText != [] && NonOverlapping(content, oldText, 0) == []
    requires FindUnique(nfkc, content, oldText).Found?
    ensures IsFallbackMatch(nfkc, content, oldText, FindUnique(nfkc, content, oldText).range)
  {
    hide Norm, NonOverlapping, Positions, Spans;
    NonOverlappingFirst(content, oldText, 0);
    var needle, normal := Norm(nfkc, oldText), Norm(nfkc, content);
    PositionsAreAll(normal, needle, 0);
    var ps := Positions(normal, needle, 0);
    var p := ps[0];
    assert p in ps;
    NormEndsInText(nfkc, oldText);
    assert normal[p + |needle| - 1] == normal[p..p + |needle|][|needle| - 1];
    var lo, hi := MappedCut(nfkc, content, p, p + |needle|);
    MappedRangeKeepsCrLf(nfkc, content, p, p + |needle|);
    SpansLength(nfkc, content);
    forall q: nat | OccursAt(normal, needle, q)
      ensures q == p
    {
      assert q in ps;
    }
    assert CutAround(nfkc, content, needle, FindUnique(nfkc, content, oldText).range, p, lo, hi);
  }

  /** The cut around a fallback match contains the needle, and is the needle exactly
      when the match starts and ends at the edge of a character's expansion. */
  lemma FallbackCut(nfkc: Nfkc, content: string, oldText: string, r: Range)
    requires IsFallbackMatch(nfkc, content, oldText, r)
    ensures exists p: nat, d: nat ::
              var needle, cut := Norm(nfkc, oldText), Norm(nfkc, content[r.start..r.end]);
              && OccursAt(Norm(nfkc, content), needle, p)
              && OccursAt(cut, needle, d)
              && (cut == needle <==>
                   Edge(Spans(nfkc, content), p) && Edge(Spans(nfkc, content), p + |needle|))
  {
    hide Norm, Spans, Edge;
    var needle, normal := Norm(nfkc, oldText), Norm(nfkc, content);
    var cut := Norm(nfkc, content[r.start..r.end]);
    var p: nat, lo: nat, hi: nat :| CutAround(nfkc, content, needle, r, p, lo, hi);
    BlockInCut(normal, needle, p, lo, hi);
  }

  /** There is no second place: whatever stretch of the file normalises to what
      `oldText` does overlaps the range the fallback returned. */
  lemma FallbackUniqueInFile(nfkc: Nfkc, content: string, oldText: string, i: nat, j: nat)
    requires oldText != [] && NonOverlapping(content, oldText, 0) == []
    requires FindUnique(nfkc, content, oldText).Found?
    requires i <= j <= |content| && Norm(nfkc, content[i..j]) == Norm(nfkc, oldText)
    ensures var r := FindUnique(nfkc, content, oldText).range;
            i < r.end && r.start < j
  {
    hide Norm, NonOverlapping, Positions, Spans;
    var needle, normal := Norm(nfkc, oldText), Norm(nfkc, content);
    var ps := Positions(normal, needle, 0);
    PositionsAreAll(normal, needle, 0);
    var p, q := ps[0], ps[0] + |needle|;
    assert p in ps;
    SpansLength(nfkc, content);
    var r := FindUnique(nfkc, content, oldText).range;
    StretchAt(nfkc, content, i, j);
    var k := |Norm(nfkc, content[..j])| - |needle|;
    assert k in ps;
    assert |Norm(nfkc, content[..j])| == q;
    NormEndsInText(nfkc, oldText);
    assert normal[q - 1] == normal[p..q][|needle| - 1];
    RangeWithin(nfkc, content, p, q);
    if j <= r.start {
      BeforeRange(nfkc, content, p, j);
    }
    if r.end <= i {
      BehindRange(nfkc, content, q, j);
      assert content[r.end..j] == content[r.end..i] + content[i..j];
      NormSuffix(nfkc, content[r.end..i], content[i..j]);
    }
  }

  lemma RangeWithin(nfkc: Nfkc, s: string, p: nat, q: nat)
    requires p < q <= |Norm(nfkc, s)| && Norm(nfkc, s)[q - 1] != ' ' && |Spans(nfkc, s)| == |Norm(nfkc, s)|
    ensures CharStart(Spans(nfkc, s), p) < CharEnd(Spans(nfkc, s), q) <= |s|
  {
    hide Norm, Spans;
    var lo, hi := MappedCut(nfkc, s, p, q);
  }

  /** A stretch of the file shows in the normal form, where the text up to its end does. */
  lemma StretchAt(nfkc: Nfkc, content: string, i: nat, j: nat)
    requires i <= j <= |content|
    ensures var n, m := |Norm(nfkc, content[i..j])|, |Norm(nfkc, content[..j])|;
            n <= m && OccursAt(Norm(nfkc, content), Norm(nfkc, content[i..j]), m - n)
  {
    hide Norm;
    assert content[..j] == content[..i] + content[i..j];
    NormSuffix(nfkc, content[..i], content[i..j]);
    assert content == content[..j] + content[j..];
    NormPrefix(nfkc, content[..j], content[j..]);
  }

  lemma BlockInCut(normal: string, needle: string, p: nat, lo: nat, hi: nat)
    requires OccursAt(normal, needle, p) && lo <= p && p + |needle| <= hi <= |normal|
    ensures OccursAt(normal[lo..hi], needle, p - lo)
    ensures normal[lo..hi] == needle <==> lo == p && hi == p + |needle|
  {
    var cut := normal[lo..hi];
    OccursPointwise(normal, needle, p);
    assert forall k :: 0 <= k < |needle| ==> cut[p - lo + k] == needle[k];
    OccursPointwise(cut, needle, p - lo);
    if lo == p && hi == p + |needle| {
      assert cut == normal[p..p + |needle|];
    } else {
      assert |cut| != |needle|;
    }
  }

  /** Every range returned is one of the two, non-empty and inside the content. */
  lemma FoundMeaning(nfkc: Nfkc, content: string, oldText: string)
    requires oldText != [] && FindUnique(nfkc, content, oldText).Found?
    ensures var r := FindUnique(nfkc, content, oldText).range;
            && r.start < r.end <= |content|
            && (IsExactMatch(content, oldText, r) || IsFallbackMatch(nfkc, content, oldText, r))
  {
    hide IsFallbackMatch, Norm, NonOverlapping, Positions, Spans;
    if |NonOverlapping(content, oldText, 0)| == 1 {
      SingleMatch(content, oldText);
    } else {
      FallbackSound(nfkc, content, oldText);
      FallbackRange(nfkc, content, oldText, FindUnique(nfkc, content, oldText).range);
    }
  }

  lemma FallbackRange(nfkc: Nfkc, content: string, oldText: string, r: Range)
    requires IsFallbackMatch(nfkc, content, oldText, r)
    ensures r.start < r.end <= |content|
  {
  }

  /** An ambiguous `oldText`: the number reported is the largest number of disjoint
      literal occurrences or, without any, the number of normalised ones. */
  lemma MultipleMeaning(nfkc: Nfkc, content: string, oldText: string)
    requires oldText != [] && FindUnique(nfkc, content, oldText).Multiple?
    ensures var n := FindUnique(nfkc, content, oldText).count;
            n >= 2 &&
            if exists p: nat :: OccursAt(content, oldText, p)
            then && (exists ps :: Disjoint(content, oldText, 0, ps) && |ps| == n)
                 && (forall ps :: Disjoint(content, oldText, 0, ps) ==> |ps| <= n)
            else exists ps: seq<nat> ::
                   && |ps| == n
                   && (forall i, j :: 0 <= i < j < |ps| ==> ps[i] < ps[j])
                   && forall p: nat :: p in ps <==> OccursAt(Norm(nfkc, content), Norm(nfkc, oldText), p)
  {
    hide Norm, NonOverlapping, Positions;
    var ms := NonOverlapping(content, oldText, 0);
    NonOverlappingFirst(content, oldText, 0);
    NonOverlappingDisjoint(content, oldText, 0);
    if ms != [] {
      assert OccursAt(content, oldText, ms[0]);
      forall ps | Disjoint(content, oldText, 0, ps)
        ensures |ps| <= |ms|
      {
        NonOverlappingMaximal(content, oldText, 0, ps);
      }
    } else {
      PositionsAreAll(Norm(nfkc, content), Norm(nfkc, oldText), 0);
    }
  }
}
