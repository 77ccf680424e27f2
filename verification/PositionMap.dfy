/**
 What the normaliser's map back to the original promises (tools/edit.rs): the
 spans tile the text, a range mapped back is a cut of whole characters that
 normalises to the match again, and literal occurrences survive.
 */
module PositionMap {
  import opened Seqs
  import opened Utf8
  import opened Normalizer

  // ----- the spans tile the text -----

  predicate EndsInSpace(g: Group)
    requires g.out != []
  {
    g.out[|g.out| - 1] == ' '
  }

  /** The groups cover everything but the whitespace at the end of the text. */
  lemma {:induction false} GroupsCover(nfkc: Nfkc, s: string)
    ensures Width(Groups(nfkc, s)) <= |s|
    ensures forall i :: Width(Groups(nfkc, s)) <= i < |s| ==> IsWs(s[i])
    ensures Width(Groups(nfkc, s)) > 0 ==> !IsWs(s[Width(Groups(nfkc, s)) - 1])
    ensures Groups(nfkc, s) != [] ==> !EndsInSpace(Groups(nfkc, s)[|Groups(nfkc, s)| - 1])
    decreases |s|
  {
    hide MapChar, LeadingWs, IsWs, FirstGroup, Expand, Groups;
    GroupsCase(nfkc, s);
    if FirstGroup(nfkc, s).Some? {
      var g := FirstGroup(nfkc, s).value;
      var rest := s[g.consumed..];
      var tail := Groups(nfkc, rest);
      GroupsCover(nfkc, rest);
      FirstGroupLast(nfkc, s);
      WidthIsPositive(tail);
      assert ([g] + tail)[1..] == tail;
      hide Width;
      var v := Width(tail);
      assert forall i :: g.consumed + v <= i < |s| ==> s[i] == rest[i - g.consumed];
      assert v > 0 ==> rest[v - 1] == s[g.consumed + v - 1];
    }
  }

  lemma GroupsCase(nfkc: Nfkc, s: string)
    ensures var g := FirstGroup(nfkc, s);
            if g.None? then Groups(nfkc, s) == [] && forall i :: 0 <= i < |s| ==> IsWs(s[i])
            else Groups(nfkc, s) == [g.value] + Groups(nfkc, s[g.value.consumed..])
  {
    hide MapChar, IsWs, Expand;
  }

  lemma WidthIsPositive(gs: seq<Group>)
    requires forall k :: 0 <= k < |gs| ==> 1 <= gs[k].consumed
    ensures Width(gs) == 0 <==> gs == []
  {
  }

  /** A group is whitespace, and followed by another group, or ends in neither. */
  lemma FirstGroupLast(nfkc: Nfkc, s: string)
    requires FirstGroup(nfkc, s).Some?
    ensures var g := FirstGroup(nfkc, s).value;
            if 0 < LeadingWs(s) && !IsNewline(s[LeadingWs(s)])
            then g == Group(1, " ") && Groups(nfkc, s[1..]) != []
            else !EndsInSpace(g) && !IsWs(s[g.consumed - 1])
  {
    var w := LeadingWs(s);
    if IsNewline(s[w]) {
      NewlineIsNotWs(s[w]);
      NewlineIsNotWs('\n');
    } else if w > 0 {
      hide MapChar, IsWs;
      LeadingWsIs(s[1..], w - 1);
    }
  }

  ghost predicate Tiles(spans: seq<Span>, base: nat, end: nat) {
    && (forall p :: 0 <= p < |spans| ==> 1 <= spans[p].consumed)
    && (if spans == [] then base == end
        else spans[0].start == base && spans[|spans| - 1].start + spans[|spans| - 1].consumed == end)
    && forall p :: 0 < p < |spans| ==>
         spans[p] == spans[p - 1] || spans[p].start == spans[p - 1].start + spans[p - 1].consumed
  }

  lemma {:induction false} GroupsTile(gs: seq<Group>, base: nat)
    requires forall k :: 0 <= k < |gs| ==> 1 <= gs[k].consumed && gs[k].out != []
    ensures Tiles(SpansFrom(gs, base), base, base + Width(gs))
  {
    if gs != [] {
      var first := Copies(|gs[0].out|, Span(base, gs[0].consumed));
      var rest := SpansFrom(gs[1..], base + gs[0].consumed);
      GroupsTile(gs[1..], base + gs[0].consumed);
      assert rest == [] ==> Outs(gs[1..]) == [] && gs[1..] == [];
      assert SpansFrom(gs, base) == first + rest;
    }
  }

  /** In a tiling, starts and ends never move backwards. */
  lemma {:induction false} TilesMonotone(spans: seq<Span>, base: nat, end: nat, p: nat, q: nat)
    requires Tiles(spans, base, end) && p <= q < |spans|
    ensures spans[p].start <= spans[q].start
    ensures spans[p].start + spans[p].consumed <= spans[q].start + spans[q].consumed
    decreases q - p
  {
    if p < q {
      TilesMonotone(spans, base, end, p, q - 1);
    }
  }

  /** The map of a text: in order, gap-free, up to its trailing whitespace. */
  lemma SpansTile(nfkc: Nfkc, s: string) returns (end: nat)
    ensures Tiles(Spans(nfkc, s), 0, end) && end <= |s|
    ensures forall i :: end <= i < |s| ==> IsWs(s[i])
    ensures end > 0 ==> !IsWs(s[end - 1])
    ensures |Spans(nfkc, s)| == |Norm(nfkc, s)|
  {
    hide MapChar;
    end := Width(Groups(nfkc, s));
    GroupsCover(nfkc, s);
    GroupsTile(Groups(nfkc, s), 0);
  }

  // ----- cutting at group boundaries -----

  lemma {:induction false} SuffixCut(nfkc: Nfkc, s: string, a: nat)
    requires a <= |Groups(nfkc, s)|
    ensures var o := Width(Groups(nfkc, s)[..a]);
            o <= |s| && Groups(nfkc, s[o..]) == Groups(nfkc, s)[a..]
    decreases a
  {
    hide FirstGroup, Groups;
    var gs := Groups(nfkc, s);
    if a == 0 {
      assert s[0..] == s;
    } else {
      GroupsHead(nfkc, s);
      var g, rest := gs[0], s[gs[0].consumed..];
      SuffixCut(nfkc, rest, a - 1);
      assert gs == [g] + Groups(nfkc, rest);
      assert gs[..a][1..] == Groups(nfkc, rest)[..a - 1];
      var o := Width(Groups(nfkc, rest)[..a - 1]);
      assert rest[o..] == s[g.consumed + o..];
    }
  }

  /** A prefix that holds a character other than whitespace starts with the same run. */
  lemma LeadingWsCut(s: string, o: nat)
    requires o <= |s|
    ensures LeadingWs(s) < o || LeadingWs(s[..o]) < o ==> LeadingWs(s[..o]) == LeadingWs(s)
  {
    hide IsWs;
    var v, w := LeadingWs(s[..o]), LeadingWs(s);
    assert forall i :: 0 <= i < o ==> s[..o][i] == s[i];
    if w < o {
      LeadingWsIs(s[..o], w);
    }
  }

  /** The first group of a text is the first group of a prefix that holds it, if
      inner whitespace stays inner. */
  lemma FirstGroupCut(nfkc: Nfkc, s: string, o: nat)
    requires FirstGroup(nfkc, s).Some? && FirstGroup(nfkc, s).value.consumed <= o <= |s|
    requires EndsInSpace(FirstGroup(nfkc, s).value) ==> Groups(nfkc, s[..o][1..]) != []
    ensures FirstGroup(nfkc, s[..o]) == FirstGroup(nfkc, s)
  {
    hide MapChar, Expand, IsWs, Groups, LeadingWs;
    FirstGroupLast(nfkc, s);
    LeadingWsCut(s, o);
    var w := LeadingWs(s);
    if 0 < w && !IsNewline(s[w]) {
      GroupsCase(nfkc, s[..o][1..]);
      LeadingWsTail(s[..o]);
    }
  }

  lemma LeadingWsTail(s: string)
    requires s != [] && LeadingWs(s[1..]) < |s| - 1
    ensures LeadingWs(s) < |s|
  {
  }

  lemma {:induction false} PrefixCut(nfkc: Nfkc, s: string, b: nat)
    requires 1 <= b <= |Groups(nfkc, s)| && !EndsInSpace(Groups(nfkc, s)[b - 1])
    ensures var o := Width(Groups(nfkc, s)[..b]);
            o <= |s| && Groups(nfkc, s[..o]) == Groups(nfkc, s)[..b]
    decreases b
  {
    hide FirstGroup, MapChar;
    var gs := Groups(nfkc, s);
    GroupsHead(nfkc, s);
    var g, rest := gs[0], s[gs[0].consumed..];
    assert FirstGroup(nfkc, s) == Some(g);
    SuffixCut(nfkc, s, b);
    var o := Width(gs[..b]);
    var cut := s[..o];
    var tail := Groups(nfkc, rest);
    assert gs == [g] + tail;
    assert gs[..b][1..] == tail[..b - 1];
    var o' := Width(tail[..b - 1]);
    assert o == g.consumed + o';
    assert cut[g.consumed..] == rest[..o'];
    if b > 1 {
      PrefixCut(nfkc, rest, b - 1);
    } else {
      assert rest[..o'] == [];
      assert Groups(nfkc, rest[..o']) == [] by { OnlyWs(nfkc, []); }
    }
    assert Groups(nfkc, rest[..o']) == tail[..b - 1];
    if EndsInSpace(g) {
      FirstGroupLast(nfkc, s);
      assert g.consumed == 1 && b > 1;
    }
    FirstGroupCut(nfkc, s, o);
    assert Groups(nfkc, cut) == [g] + tail[..b - 1];
    assert gs[..b] == [g] + tail[..b - 1];
  }

  // ----- from an output index to its group -----

  function GroupIndex(gs: seq<Group>, p: nat): (k: nat)
    requires p < |Outs(gs)|
    ensures k < |gs|
  {
    if p < |gs[0].out| then 0 else 1 + GroupIndex(gs[1..], p - |gs[0].out|)
  }

  lemma {:induction false} GroupIndexSpan(gs: seq<Group>, base: nat, p: nat)
    requires p < |Outs(gs)|
    ensures var k := GroupIndex(gs, p);
            && SpansFrom(gs, base)[p] == Span(base + Width(gs[..k]), gs[k].consumed)
            && |Outs(gs[..k])| <= p < |Outs(gs[..k])| + |gs[k].out|
  {
    if p >= |gs[0].out| {
      GroupIndexSpan(gs[1..], base + gs[0].consumed, p - |gs[0].out|);
      var k := GroupIndex(gs[1..], p - |gs[0].out|);
      assert gs[..k + 1][1..] == gs[1..][..k];
    }
  }

  lemma PrefixSums(gs: seq<Group>, a: nat, b: nat)
    requires a <= b <= |gs|
    requires forall k :: 0 <= k < |gs| ==> 1 <= gs[k].consumed && gs[k].out != []
    ensures Width(gs[..b]) == Width(gs[..a]) + Width(gs[a..b])
    ensures |Outs(gs[..b])| == |Outs(gs[..a])| + |Outs(gs[a..b])|
    ensures a < b ==> Width(gs[..a]) < Width(gs[..b]) && |Outs(gs[..a])| < |Outs(gs[..b])|
  {
    assert gs[..b] == gs[..a] + gs[a..b];
    WidthAppend(gs[..a], gs[a..b]);
    OutsAppend(gs[..a], gs[a..b]);
  }

  lemma OutsSlice(gs: seq<Group>, a: nat, b: nat)
    requires a <= b <= |gs|
    ensures |Outs(gs[..a])| <= |Outs(gs[..b])| <= |Outs(gs)|
    ensures Outs(gs[a..b]) == Outs(gs)[|Outs(gs[..a])|..|Outs(gs[..b])|]
  {
    hide Outs;
    assert gs[..b] == gs[..a] + gs[a..b];
    OutsAppend(gs[..a], gs[a..b]);
    assert gs == gs[..b] + gs[b..];
    OutsAppend(gs[..b], gs[b..]);
    assert Outs(gs) == (Outs(gs[..a]) + Outs(gs[a..b])) + Outs(gs[b..]);
  }

  /** Neighbouring output characters share a span exactly inside one group. */
  lemma SpanShared(gs: seq<Group>, p: nat)
    requires p + 1 < |Outs(gs)|
    requires forall k :: 0 <= k < |gs| ==> 1 <= gs[k].consumed && gs[k].out != []
    ensures SpansFrom(gs, 0)[p] == SpansFrom(gs, 0)[p + 1] <==>
            p + 1 < |Outs(gs[..GroupIndex(gs, p)])| + |gs[GroupIndex(gs, p)].out|
  {
    var i, j := GroupIndex(gs, p), GroupIndex(gs, p + 1);
    GroupIndexSpan(gs, 0, p);
    GroupIndexSpan(gs, 0, p + 1);
    hide Outs, Width, SpansFrom, GroupIndex;
    OutsStep(gs, i);
    OutsStep(gs, j);
    if i < j {
      PrefixSums(gs, i + 1, j);
      PrefixSums(gs, i, j);
    } else if j < i {
      PrefixSums(gs, j + 1, i);
      assert false;
    }
  }

  lemma OutsStep(gs: seq<Group>, k: nat)
    requires k < |gs|
    ensures |Outs(gs[..k + 1])| == |Outs(gs[..k])| + |gs[k].out|
    ensures Width(gs[..k + 1]) == Width(gs[..k]) + gs[k].consumed
  {
    assert gs[..k + 1] == gs[..k] + [gs[k]];
    Snoc(gs[..k], gs[k]);
  }

  // ----- mapping a match back -----

  /** Original character range behind the output range `[p, q)`. */
  function CharStart(spans: seq<Span>, p: nat): nat
    requires p < |spans|
  {
    spans[p].start
  }

  function CharEnd(spans: seq<Span>, q: nat): nat
    requires 0 < q <= |spans|
  {
    spans[q - 1].start + spans[q - 1].consumed
  }

  /** Output index `p` lies between two groups, not inside one. */
  predicate Edge(spans: seq<Span>, p: nat) {
    p == 0 || p >= |spans| || spans[p - 1] != spans[p]
  }

  /** The cut behind an output range that does not end in a space normalises to
      that range, widened to whole expansions. */
  lemma MappedCut(nfkc: Nfkc, s: string, p: nat, q: nat) returns (lo: nat, hi: nat)
    requires p < q <= |Norm(nfkc, s)| && Norm(nfkc, s)[q - 1] != ' '
    ensures CharStart(Spans(nfkc, s), p) < CharEnd(Spans(nfkc, s), q) <= |s|
    ensures lo <= p && q <= hi <= |Norm(nfkc, s)|
    ensures Norm(nfkc, s[CharStart(Spans(nfkc, s), p)..CharEnd(Spans(nfkc, s), q)]) == Norm(nfkc, s)[lo..hi]
    ensures lo == p <==> Edge(Spans(nfkc, s), p)
    ensures hi == q <==> Edge(Spans(nfkc, s), q)
  {
    hide Groups, Width, Outs, SpansFrom, GroupIndex;
    var gs := Groups(nfkc, s);
    var a, c := GroupIndex(gs, p), GroupIndex(gs, q - 1);
    GroupIndexSpan(gs, 0, p);
    GroupIndexSpan(gs, 0, q - 1);
    OutsStep(gs, a);
    OutsStep(gs, c);
    if c < a {
      PrefixSums(gs, c + 1, a);
      assert false;
    }
    var b := c + 1;
    lo, hi := |Outs(gs[..a])|, |Outs(gs[..b])|;
    CutGroups(nfkc, s, a, b, q);
    OutsSlice(gs, a, b);
    PrefixSums(gs, a, b);
    if p > 0 {
      SpanShared(gs, p - 1);
      LowEdge(gs, p);
    }
    if q < |Norm(nfkc, s)| {
      SpanShared(gs, q - 1);
    }
  }

  lemma LowEdge(gs: seq<Group>, p: nat)
    requires 0 < p < |Outs(gs)|
    requires forall k :: 0 <= k < |gs| ==> 1 <= gs[k].consumed && gs[k].out != []
    ensures var i := GroupIndex(gs, p - 1);
            p < |Outs(gs[..i])| + |gs[i].out| <==> |Outs(gs[..GroupIndex(gs, p)])| < p
  {
    GroupIndexSpan(gs, 0, p - 1);
    GroupIndexSpan(gs, 0, p);
    hide Outs, Width, SpansFrom, GroupIndex;
    var i, j := GroupIndex(gs, p - 1), GroupIndex(gs, p);
    OutsStep(gs, i);
    OutsStep(gs, j);
    if i < j {
      PrefixSums(gs, i + 1, j);
    } else if j < i {
      PrefixSums(gs, j + 1, i);
      assert false;
    }
  }

  /** The text under groups `a` to `b` has exactly those groups. */
  lemma CutGroups(nfkc: Nfkc, s: string, a: nat, b: nat, q: nat)
    requires a < b <= |Groups(nfkc, s)| && 0 < q <= |Norm(nfkc, s)| && Norm(nfkc, s)[q - 1] != ' '
    requires GroupIndex(Groups(nfkc, s), q - 1) == b - 1
    ensures var f, l := Width(Groups(nfkc, s)[..a]), Width(Groups(nfkc, s)[..b]);
            f <= l <= |s| && Groups(nfkc, s[f..l]) == Groups(nfkc, s)[a..b]
  {
    hide Groups, GroupIndex, SpansFrom, Norm, Width, Outs;
    var gs := Groups(nfkc, s);
    LastNotSpace(nfkc, s, q);
    SuffixCut(nfkc, s, a);
    PrefixSums(gs, a, b);
    var f, l := Width(gs[..a]), Width(gs[..b]);
    var t := s[f..];
    assert Groups(nfkc, t) == gs[a..];
    assert gs[a..][..b - a] == gs[a..b];
    assert Groups(nfkc, t)[b - a - 1] == gs[b - 1];
    PrefixCut(nfkc, t, b - a);
    assert t[..l - f] == s[f..l];
  }

  /** A group that ends in a space is a whitespace group or not the last character. */
  lemma LastNotSpace(nfkc: Nfkc, s: string, q: nat)
    requires 0 < q <= |Norm(nfkc, s)| && Norm(nfkc, s)[q - 1] != ' '
    ensures var gs := Groups(nfkc, s);
            !EndsInSpace(gs[GroupIndex(gs, q - 1)])
  {
    hide GroupIndex, SpansFrom, Groups, Width;
    var gs := Groups(nfkc, s);
    var c := GroupIndex(gs, q - 1);
    GroupIndexSpan(gs, 0, q - 1);
    SpaceGroups(nfkc, s, c);
    OutsSlice(gs, c, c + 1);
    OutsStep(gs, c);
    assert gs[c..c + 1] == [gs[c]];
    assert Outs([gs[c]]) == gs[c].out + Outs([]);
    assert Norm(nfkc, s)[q - 1] == gs[c].out[q - 1 - |Outs(gs[..c])|];
  }

  lemma {:induction false} SpaceGroups(nfkc: Nfkc, s: string, c: nat)
    requires c < |Groups(nfkc, s)|
    ensures EndsInSpace(Groups(nfkc, s)[c]) ==> Groups(nfkc, s)[c].out == " "
    decreases c
  {
    hide LeadingWs, FirstGroup, Groups, MapChar;
    GroupsCase(nfkc, s);
    if c == 0 {
      FirstGroupLast(nfkc, s);
    } else {
      SpaceGroups(nfkc, s[Groups(nfkc, s)[0].consumed..], c - 1);
    }
  }

  // ----- line terminators stay whole -----

  predicate InsideCrLf(s: string, o: nat) {
    0 < o < |s| && s[o - 1] == '\r' && s[o] == '\n'
  }

  lemma {:induction false} GroupEdge(nfkc: Nfkc, s: string, a: nat)
    requires a <= |Groups(nfkc, s)|
    ensures !InsideCrLf(s, Width(Groups(nfkc, s)[..a]))
    decreases a
  {
    hide FirstGroup, Groups, MapChar;
    if a > 0 {
      GroupsHead(nfkc, s);
      GroupsCase(nfkc, s);
      FirstGroupEdge(nfkc, s);
      var gs := Groups(nfkc, s);
      var g, rest := gs[0], s[gs[0].consumed..];
      assert gs[..a][1..] == Groups(nfkc, rest)[..a - 1];
      SuffixCut(nfkc, rest, a - 1);
      var o := Width(Groups(nfkc, rest)[..a - 1]);
      GroupEdge(nfkc, rest, a - 1);
      hide Width;
      assert g.consumed + o < |s| ==> s[g.consumed + o] == rest[o];
      assert 0 < o ==> s[g.consumed + o - 1] == rest[o - 1];
    }
  }

  lemma FirstGroupEdge(nfkc: Nfkc, s: string)
    requires FirstGroup(nfkc, s).Some?
    ensures !InsideCrLf(s, FirstGroup(nfkc, s).value.consumed)
  {
    NewlineIsNotWs('\r');
    hide MapChar, Expand;
  }

  /** A mapped range never starts or ends between the two halves of a CRLF. */
  lemma MappedRangeKeepsCrLf(nfkc: Nfkc, s: string, p: nat, q: nat)
    requires p < q <= |Spans(nfkc, s)|
    ensures !InsideCrLf(s, CharStart(Spans(nfkc, s), p))
    ensures !InsideCrLf(s, CharEnd(Spans(nfkc, s), q))
  {
    hide Groups, Width, Outs, SpansFrom, GroupIndex;
    var gs := Groups(nfkc, s);
    GroupIndexSpan(gs, 0, p);
    GroupIndexSpan(gs, 0, q - 1);
    OutsStep(gs, GroupIndex(gs, q - 1));
    GroupEdge(nfkc, s, GroupIndex(gs, p));
    GroupEdge(nfkc, s, GroupIndex(gs, q - 1) + 1);
  }

  // ----- literal occurrences survive normalisation -----

  lemma NormCase(nfkc: Nfkc, s: string)
    ensures var g := FirstGroup(nfkc, s);
            if g.None? then Norm(nfkc, s) == [] && forall i :: 0 <= i < |s| ==> IsWs(s[i])
            else Norm(nfkc, s) == g.value.out + Norm(nfkc, s[g.value.consumed..])
  {
    hide FirstGroup, IsWs;
    GroupsCase(nfkc, s);
    if FirstGroup(nfkc, s).Some? {
      NormStep(nfkc, s);
    }
  }

  /** The normal form of a text ends with the normal form of each of its suffixes,
      even of one that starts between CR and LF or inside a whitespace run. */
  lemma {:induction false} NormSuffix(nfkc: Nfkc, a: string, t: string)
    ensures |Norm(nfkc, t)| <= |Norm(nfkc, a + t)|
    ensures Norm(nfkc, a + t)[|Norm(nfkc, a + t)| - |Norm(nfkc, t)|..] == Norm(nfkc, t)
    decreases |a|
  {
    hide Norm, FirstGroup, IsWs, MapChar;
    var s := a + t;
    if a == [] {
      assert s == t;
    } else {
      NormCase(nfkc, s);
      NormCase(nfkc, t);
      if FirstGroup(nfkc, s).Some? {
        var g := FirstGroup(nfkc, s).value;
        if g.consumed <= |a| {
          assert s[g.consumed..] == a[g.consumed..] + t;
          NormSuffix(nfkc, a[g.consumed..], t);
        } else {
          StraddlingNewline(nfkc, a, t);
        }
      } else {
        assert forall i :: 0 <= i < |t| ==> t[i] == s[|a| + i];
        OnlyWs(nfkc, t);
        NormOnlyWs(nfkc, t);
      }
    }
  }

  lemma NormOnlyWs(nfkc: Nfkc, t: string)
    requires forall i :: 0 <= i < |t| ==> IsWs(t[i])
    ensures Norm(nfkc, t) == []
  {
    OnlyWs(nfkc, t);
  }

  /** A newline that starts in `a` and ends in `t` reads the same from `t` alone. */
  lemma StraddlingNewline(nfkc: Nfkc, a: string, t: string)
    requires a != [] && FirstGroup(nfkc, a + t).Some?
    requires |a| < FirstGroup(nfkc, a + t).value.consumed
    ensures Norm(nfkc, a + t) == Norm(nfkc, t)
  {
    var s := a + t;
    NormCase(nfkc, s);
    NormCase(nfkc, t);
    hide Norm, MapChar, Expand, IsWs;
    var w := LeadingWs(s);
    var n := NewlineLen(s, w);
    assert FirstGroup(nfkc, s) == Some(Group(w + n, "\n"));
    assert forall i :: 0 <= i < |t| ==> t[i] == s[|a| + i];
    if |a| <= w {
      LeadingWsIs(t, w - |a|);
      assert NewlineLen(t, w - |a|) == n;
      assert FirstGroup(nfkc, t) == Some(Group(w - |a| + n, "\n"));
      assert s[w + n..] == t[w - |a| + n..];
    } else {
      assert |a| == w + 1 && n == 2 && t[0] == '\n';
      NewlineIsNotWs('\n');
      LeadingWsIs(t, 0);
      assert FirstGroup(nfkc, t) == Some(Group(1, "\n"));
      assert s[w + n..] == t[1..];
    }
  }

  /** The normal form of a text starts with the normal form of each of its prefixes. */
  lemma {:induction false} NormPrefix(nfkc: Nfkc, t: string, b: string)
    ensures Norm(nfkc, t) <= Norm(nfkc, t + b)
    decreases |t|
  {
    hide Norm, FirstGroup, IsWs, MapChar;
    NormCase(nfkc, t);
    NormCase(nfkc, t + b);
    if FirstGroup(nfkc, t).Some? {
      PrefixFirstGroup(nfkc, t, b);
      var g := FirstGroup(nfkc, t).value;
      var rest := t[g.consumed..];
      if FirstGroup(nfkc, t + b).value == g {
        assert (t + b)[g.consumed..] == rest + b;
        NormPrefix(nfkc, rest, b);
        PrefixUnderHead(g.out, Norm(nfkc, rest), Norm(nfkc, rest + b));
      } else {
        NormOnlyWs(nfkc, rest);
        PrefixUnderHead(g.out, [], Norm(nfkc, (t + b)[g.consumed + 1..]));
      }
    }
  }

  lemma PrefixUnderHead(h: string, a: string, b: string)
    requires a <= b
    ensures h + a <= h + b
  {
  }

  /** More text behind leaves the first group alone, but for an LF joining a final CR. */
  lemma PrefixFirstGroup(nfkc: Nfkc, t: string, b: string)
    requires FirstGroup(nfkc, t).Some?
    ensures var g := FirstGroup(nfkc, t).value;
            || FirstGroup(nfkc, t + b) == Some(g)
            || (FirstGroup(nfkc, t + b) == Some(Group(g.consumed + 1, g.out)) && g.consumed == |t|)
  {
    hide MapChar, Expand, IsWs;
    var w := LeadingWs(t);
    assert forall i :: 0 <= i < |t| ==> t[i] == (t + b)[i];
    LeadingWsIs(t + b, w);
  }

  /** Where a text is cut behind a character that is no whitespace, and not inside a
      CRLF, its normal form is that of the two parts. */
  lemma {:induction false} NormAppend(nfkc: Nfkc, x: string, y: string)
    requires x != [] ==> !IsWs(x[|x| - 1]) && !InsideCrLf(x + y, |x|)
    ensures Norm(nfkc, x + y) == Norm(nfkc, x) + Norm(nfkc, y)
    decreases |x|
  {
    hide Norm, FirstGroup, IsWs, MapChar;
    if x == [] {
      assert x + y == y;
      NormOnlyWs(nfkc, x);
    } else {
      NormCase(nfkc, x);
      NormCase(nfkc, x + y);
      assert IsWs(x[|x| - 1]) || FirstGroup(nfkc, x).Some?;
      PrefixFirstGroup(nfkc, x, y);
      NothingJoined(nfkc, x, y);
      var g := FirstGroup(nfkc, x).value;
      var rest := x[g.consumed..];
      assert (x + y)[g.consumed..] == rest + y;
      NormAppend(nfkc, rest, y);
      Assoc(g.out, Norm(nfkc, rest), Norm(nfkc, y));
    }
  }

  lemma NothingJoined(nfkc: Nfkc, x: string, y: string)
    requires x != [] && FirstGroup(nfkc, x).Some? && !InsideCrLf(x + y, |x|)
    ensures FirstGroup(nfkc, x + y) == FirstGroup(nfkc, x)
  {
    hide MapChar, Expand, IsWs;
    var w := LeadingWs(x);
    assert forall i :: 0 <= i < |x| ==> x[i] == (x + y)[i];
    LeadingWsIs(x + y, w);
  }

  /** Whitespace at the end of a text can be left out. */
  lemma NormTrim(nfkc: Nfkc, s: string) returns (v: nat)
    ensures v <= |s| && Norm(nfkc, s[..v]) == Norm(nfkc, s)
    ensures v > 0 ==> !IsWs(s[v - 1])
  {
    hide Groups, Width, Outs, IsWs, MapChar;
    var gs := Groups(nfkc, s);
    GroupsCover(nfkc, s);
    if gs == [] {
      v := 0;
      NormOnlyWs(nfkc, []);
      assert s[..0] == [];
      assert Norm(nfkc, s) == Outs([]);
      assert Norm(nfkc, []) == Outs([]) by { OnlyWs(nfkc, []); }
    } else {
      v := Width(gs);
      assert gs[..|gs|] == gs;
      PrefixCut(nfkc, s, |gs|);
    }
  }

  /** What stands in front of a mapped range normalises to no more than what the match
      has in front of it. */
  lemma BeforeRange(nfkc: Nfkc, s: string, p: nat, j: nat)
    requires p < |Norm(nfkc, s)| && p < |Spans(nfkc, s)| && j <= CharStart(Spans(nfkc, s), p) <= |s|
    ensures |Norm(nfkc, s[..j])| <= p
  {
    hide Groups, Width, Outs, SpansFrom, GroupIndex, IsWs, MapChar;
    var gs := Groups(nfkc, s);
    GroupIndexSpan(gs, 0, p);
    var a := GroupIndex(gs, p);
    var f := CharStart(Spans(nfkc, s), p);
    SuffixCut(nfkc, s, a);
    assert gs == gs[..a] + gs[a..];
    OutsAppend(gs[..a], gs[a..]);
    assert |Norm(nfkc, s)| <= p + |Norm(nfkc, s[f..])|;
    MappedRangeKeepsCrLf(nfkc, s, p, p + 1);
    hide Norm, Spans;
    var t := s[..j];
    var v := NormTrim(nfkc, t);
    assert t[..v] == s[..v] && (v > 0 ==> t[v - 1] == s[v - 1]);
    ShortOf(nfkc, s, f, v);
  }

  /** A prefix that ends in no whitespace, in front of a place not inside a CRLF, and
      what stands behind that place. */
  lemma ShortOf(nfkc: Nfkc, s: string, f: nat, v: nat)
    requires v <= f <= |s| && !InsideCrLf(s, f) && (v > 0 ==> !IsWs(s[v - 1]))
    ensures |Norm(nfkc, s[..v])| + |Norm(nfkc, s[f..])| <= |Norm(nfkc, s)|
  {
    hide Norm, IsWs;
    var u := if InsideCrLf(s, v) then v + 1 else v;
    NewlineIsNotWs('\n');
    assert s == s[..u] + s[u..];
    NormAppend(nfkc, s[..u], s[u..]);
    assert s[u..] == s[u..f] + s[f..];
    NormSuffix(nfkc, s[u..f], s[f..]);
    assert s[..u] == s[..v] + s[v..u];
    NormPrefix(nfkc, s[..v], s[v..u]);
  }

  /** What ends behind a mapped range holds the match and what comes after it. */
  lemma BehindRange(nfkc: Nfkc, s: string, q: nat, j: nat)
    requires 0 < q <= |Norm(nfkc, s)| && q <= |Spans(nfkc, s)| && Norm(nfkc, s)[q - 1] != ' '
    requires CharEnd(Spans(nfkc, s), q) <= j <= |s|
    ensures q + |Norm(nfkc, s[CharEnd(Spans(nfkc, s), q)..j])| <= |Norm(nfkc, s[..j])|
  {
    hide Groups, Width, Outs, SpansFrom, GroupIndex, IsWs, MapChar, EndsInSpace;
    var gs := Groups(nfkc, s);
    GroupIndexSpan(gs, 0, q - 1);
    var b := GroupIndex(gs, q - 1) + 1;
    OutsStep(gs, b - 1);
    LastNotSpace(nfkc, s, q);
    PrefixCut(nfkc, s, b);
    var e := CharEnd(Spans(nfkc, s), q);
    assert e == Width(gs[..b]);
    GroupsCover(nfkc, s[..e]);
    assert e > 0 ==> s[..e][e - 1] == s[e - 1];
    MappedRangeKeepsCrLf(nfkc, s, q - 1, q);
    var x, y := s[..e], s[e..j];
    assert Norm(nfkc, x) == Outs(gs[..b]);
    hide Norm, Spans;
    assert s[..j] == x + y;
    assert !InsideCrLf(x + y, |x|);
    NormAppend(nfkc, x, y);
  }

  /** The fallback extends literal search: where `oldText` occurs in `content`, its
      normal form occurs in the normal form. */
  lemma LiteralOccurrenceSurvives(nfkc: Nfkc, content: string, oldText: string, i: nat) returns (p: nat)
    requires OccursAt(content, oldText, i)
    ensures OccursAt(Norm(nfkc, content), Norm(nfkc, oldText), p)
  {
    hide Norm;
    var t := content[i..];
    assert content == content[..i] + t;
    assert t == oldText + t[|oldText|..];
    NormSuffix(nfkc, content[..i], t);
    NormPrefix(nfkc, oldText, t[|oldText|..]);
    p := |Norm(nfkc, content)| - |Norm(nfkc, t)|;
    assert Norm(nfkc, content)[p..][..|Norm(nfkc, oldText)|] == Norm(nfkc, oldText);
  }

  // ----- byte offsets -----

  datatype Range = Range(start: nat, end: nat)

  /** `NormalizedText::original_range` */
  function OriginalRange(t: NormalizedText, start: nat, end: nat): Range
    requires start < end <= |t.spans| && |t.origByteStart| == |t.origChars|
    requires t.spans[start].start < |t.origChars|
    requires 1 <= t.spans[end - 1].consumed
    requires t.spans[end - 1].start + t.spans[end - 1].consumed <= |t.origChars|
  {
    var first := t.spans[start].start;
    var last := t.spans[end - 1].start + t.spans[end - 1].consumed - 1;
    Range(t.origByteStart[first], t.origByteStart[last] + CharLen(t.origChars[last]))
  }

  /** Output indices of a non-empty range can be mapped back. */
  lemma RangeInBounds(nfkc: Nfkc, t: NormalizedText, start: nat, end: nat)
    requires t.Valid(nfkc) && start < end <= |t.chars|
    ensures |t.spans| == |t.chars|
    ensures CharStart(t.spans, start) < CharEnd(t.spans, end) <= |t.origChars|
    ensures 1 <= t.spans[end - 1].consumed
  {
    hide Norm, Spans, Groups;
    var tail := SpansTile(nfkc, t.origChars);
    TilesMonotone(t.spans, 0, tail, start, end - 1);
    TilesMonotone(t.spans, 0, tail, end - 1, |t.spans| - 1);
  }

  /** The byte range is exactly the encoding of whole original characters. */
  lemma OriginalRangeIsCut(nfkc: Nfkc, t: NormalizedText, start: nat, end: nat)
    requires t.Valid(nfkc) && start < end <= |t.chars|
    ensures |t.spans| == |t.chars|
    ensures CharStart(t.spans, start) < CharEnd(t.spans, end) <= |t.origChars|
    ensures 1 <= t.spans[end - 1].consumed
    ensures var f, l := CharStart(t.spans, start), CharEnd(t.spans, end);
            var r := OriginalRange(t, start, end);
            && r == Range(Offset(t.origChars, f), Offset(t.origChars, l))
            && r.start < r.end <= |Encode(t.origChars)|
            && Encode(t.origChars)[r.start..r.end] == Encode(t.origChars[f..l])
  {
    hide Norm, Spans, Groups, Encode;
    RangeInBounds(nfkc, t, start, end);
    var f, l := CharStart(t.spans, start), CharEnd(t.spans, end);
    OffsetStep(t.origChars, l - 1);
    OffsetMonotone(t.origChars, f, l);
    SliceEncode(t.origChars, f, l);
  }
}
