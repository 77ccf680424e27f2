/**
 The normalised fallback's two normalisers and their map back to the original
 text (tools/edit.rs).

 The reference definition reads the text as a sequence of groups: a newline
 together with the whitespace in front of it, one inner whitespace character,
 or one other character with its expansion. Both loops of the program are
 proved to compute it, one with an index list and lookahead, the other with a
 counter and a flag.
 */
module Normalizer {
  import opened Seqs
  import opened Utf8

  predicate IsAscii(c: char) {
    c as int < 128
  }

  /** Smart quotes, dashes and exotic spaces to ASCII. */
  function MapChar(ch: char): char {
    if '\U{2018}' <= ch <= '\U{201B}' then '\''
    else if '\U{201C}' <= ch <= '\U{201F}' then '"'
    else if '\U{2010}' <= ch <= '\U{2015}' || ch == '\U{2212}' || ch == '\U{FE58}' || ch == '\U{FE63}' || ch == '\U{FF0D}' then '-'
    else if ch == '\U{00A0}' || '\U{2000}' <= ch <= '\U{200A}' || ch == '\U{202F}' || ch == '\U{205F}' || ch == '\U{3000}' then ' '
    else ch
  }

  predicate IsWs(c: char) {
    MapChar(c) == ' ' || MapChar(c) == '\t'
  }

  predicate IsNewline(c: char) {
    c == '\r' || c == '\n'
  }

  /** What is asked of the per-character NFKC expansion (section 1.2 of UAX #15):
      on the non-ASCII characters that `MapChar` keeps, it is non-empty and does
      not end in a space. */
  ghost predicate IsNfkc(f: char -> string) {
    forall c: char :: !IsAscii(c) && MapChar(c) == c ==> f(c) != [] && f(c)[|f(c)| - 1] != ' '
  }

  type Nfkc = f: char -> string | IsNfkc(f) witness (c => [c])

  function Expand(nfkc: Nfkc, c: char): (out: string)
    ensures out != []
    ensures !IsWs(c) ==> out[|out| - 1] != ' '
  {
    var m := MapChar(c);
    if IsAscii(m) then [m] else nfkc(m)
  }

  // ----- the reference definition -----

  datatype Group = Group(consumed: nat, out: string)

  function LeadingWs(s: string): (w: nat)
    ensures w <= |s|
    ensures forall i :: 0 <= i < w ==> IsWs(s[i])
    ensures w < |s| ==> !IsWs(s[w])
  {
    if s == [] || !IsWs(s[0]) then 0 else 1 + LeadingWs(s[1..])
  }

  /** Length of the line terminator at index `i`: CR LF counts as one. */
  function NewlineLen(s: string, i: nat): (n: nat)
    requires i < |s|
    ensures 1 <= n <= 2 && i + n <= |s|
  {
    if s[i] == '\r' && i + 1 < |s| && s[i + 1] == '\n' then 2 else 1
  }

  function FirstGroup(nfkc: Nfkc, s: string): (g: Option<Group>)
    ensures g.Some? ==> 1 <= g.value.consumed <= |s| && g.value.out != []
  {
    var w := LeadingWs(s);
    if w == |s| then None
    else if IsNewline(s[w]) then Some(Group(w + NewlineLen(s, w), "\n"))
    else if w > 0 then Some(Group(1, " "))
    else Some(Group(1, Expand(nfkc, s[0])))
  }

  function Groups(nfkc: Nfkc, s: string): (gs: seq<Group>)
    ensures forall k :: 0 <= k < |gs| ==> 1 <= gs[k].consumed && gs[k].out != []
    decreases |s|
  {
    var g := FirstGroup(nfkc, s);
    if g.None? then [] else [g.value] + Groups(nfkc, s[g.value.consumed..])
  }

  /** Original characters covered by the groups. */
  function Width(gs: seq<Group>): nat {
    if gs == [] then 0 else gs[0].consumed + Width(gs[1..])
  }

  function Outs(gs: seq<Group>): string {
    if gs == [] then [] else gs[0].out + Outs(gs[1..])
  }

  /** The normal form of a text. */
  function Norm(nfkc: Nfkc, s: string): string {
    Outs(Groups(nfkc, s))
  }

  /** Original index and number of original characters behind one output character. */
  datatype Span = Span(start: nat, consumed: nat)

  function Copies(n: nat, span: Span): (r: seq<Span>)
    ensures |r| == n
  {
    seq(n, _ => span)
  }

  function SpansFrom(gs: seq<Group>, base: nat): (r: seq<Span>)
    ensures |r| == |Outs(gs)|
  {
    if gs == [] then []
    else Copies(|gs[0].out|, Span(base, gs[0].consumed)) + SpansFrom(gs[1..], base + gs[0].consumed)
  }

  function Spans(nfkc: Nfkc, s: string): seq<Span> {
    SpansFrom(Groups(nfkc, s), 0)
  }

  // ----- appending groups -----

  lemma {:induction false} WidthAppend(a: seq<Group>, b: seq<Group>)
    ensures Width(a + b) == Width(a) + Width(b)
  {
    if a == [] {
      assert a + b == b;
    } else {
      AppendTail(a, b);
      WidthAppend(a[1..], b);
    }
  }

  lemma {:induction false} OutsAppend(a: seq<Group>, b: seq<Group>)
    ensures Outs(a + b) == Outs(a) + Outs(b)
  {
    if a == [] {
      assert a + b == b;
    } else {
      AppendTail(a, b);
      OutsAppend(a[1..], b);
      Assoc(a[0].out, Outs(a[1..]), Outs(b));
    }
  }

  lemma {:induction false} SpansAppend(a: seq<Group>, b: seq<Group>, base: nat)
    ensures SpansFrom(a + b, base) == SpansFrom(a, base) + SpansFrom(b, base + Width(a))
  {
    if a == [] {
      assert a + b == b;
    } else {
      AppendTail(a, b);
      SpansAppend(a[1..], b, base + a[0].consumed);
      Assoc(Copies(|a[0].out|, Span(base, a[0].consumed)),
            SpansFrom(a[1..], base + a[0].consumed),
            SpansFrom(b, base + Width(a)));
    }
  }

  lemma Snoc(a: seq<Group>, g: Group)
    ensures Width(a + [g]) == Width(a) + g.consumed
    ensures Outs(a + [g]) == Outs(a) + g.out
    ensures SpansFrom(a + [g], 0) == SpansFrom(a, 0) + Copies(|g.out|, Span(Width(a), g.consumed))
  {
    WidthAppend(a, [g]);
    OutsAppend(a, [g]);
    SpansAppend(a, [g], 0);
    assert Outs([g]) == g.out + Outs([]);
    assert SpansFrom([g], Width(a)) == Copies(|g.out|, Span(Width(a), g.consumed)) + SpansFrom([], Width(a) + g.consumed);
  }

  // ----- how a whitespace run continues -----

  lemma NewlineIsNotWs(c: char)
    requires IsNewline(c)
    ensures !IsWs(c)
  {
  }

  /** The `k` characters in front of index `i` are whitespace. */
  ghost predicate WsRun(s: string, i: nat, k: nat) {
    k <= i <= |s| && forall j :: i - k <= j < i ==> IsWs(s[j])
  }

  lemma RunPrefix(s: string, i: nat, k: nat)
    requires WsRun(s, i, k)
    ensures var t := s[i - k..];
            |t| == |s| - i + k && (forall j :: 0 <= j < k ==> IsWs(t[j])) && t[k..] == s[i..]
  {
    hide MapChar;
  }

  lemma {:induction false} LeadingWsIs(s: string, k: nat)
    requires k <= |s|
    requires forall i :: 0 <= i < k ==> IsWs(s[i])
    requires k < |s| ==> !IsWs(s[k])
    ensures LeadingWs(s) == k
  {
    if k > 0 {
      LeadingWsIs(s[1..], k - 1);
    }
  }

  lemma NewlineAfterRun(nfkc: Nfkc, s: string, k: nat)
    requires k < |s| && IsNewline(s[k])
    requires forall i :: 0 <= i < k ==> IsWs(s[i])
    ensures Groups(nfkc, s) == [Group(k + NewlineLen(s, k), "\n")] + Groups(nfkc, s[k + NewlineLen(s, k)..])
  {
    NewlineIsNotWs(s[k]);
    LeadingWsIs(s, k);
    hide MapChar, LeadingWs, IsWs;
    assert FirstGroup(nfkc, s) == Some(Group(k + NewlineLen(s, k), "\n"));
  }

  lemma CharAfterRun(nfkc: Nfkc, s: string, k: nat)
    requires k < |s| && !IsNewline(s[k]) && !IsWs(s[k])
    requires forall i :: 0 <= i < k ==> IsWs(s[i])
    ensures k == 0 ==> Groups(nfkc, s) == [Group(1, Expand(nfkc, s[0]))] + Groups(nfkc, s[1..])
    ensures k > 0 ==> Groups(nfkc, s) == [Group(1, " ")] + Groups(nfkc, s[1..])
  {
    LeadingWsIs(s, k);
    hide MapChar, LeadingWs, IsWs, Expand;
  }

  lemma OnlyWs(nfkc: Nfkc, s: string)
    requires forall i :: 0 <= i < |s| ==> IsWs(s[i])
    ensures Groups(nfkc, s) == []
  {
    LeadingWsIs(s, |s|);
  }

  // ----- the loops -----

  datatype NormalizedText = NormalizedText(
    chars: string, spans: seq<Span>, origChars: string, origByteStart: seq<nat>)
  {
    ghost predicate Valid(nfkc: Nfkc) {
      && chars == Norm(nfkc, origChars)
      && spans == Spans(nfkc, origChars)
      && |origByteStart| == |origChars|
      && forall i :: 0 <= i < |origChars| ==> origByteStart[i] == Offset(origChars, i)
    }
  }

  /** One LF for the newline; its span reaches back over the pending whitespace. */
  method PushNewline(chars: string, spans: seq<Span>, pendingWs: seq<nat>, newlineIndex: nat, take: nat)
    returns (chars': string, spans': seq<Span>)
    requires pendingWs != [] ==> pendingWs[0] <= newlineIndex
    ensures chars' == chars + "\n"
    ensures spans' == spans + [if pendingWs == [] then Span(newlineIndex, take)
                               else Span(pendingWs[0], newlineIndex - pendingWs[0] + take)]
  {
    var start := if pendingWs == [] then newlineIndex else pendingWs[0];
    var consumed := newlineIndex - start + take;
    chars' := chars + ['\n'];
    spans' := spans + [Span(start, consumed)];
  }

  method PushNfkc(nfkc: Nfkc, chars: string, spans: seq<Span>, ch: char, origIndex: nat)
    returns (chars': string, spans': seq<Span>)
    ensures var out := if IsAscii(ch) then [ch] else nfkc(ch);
            chars' == chars + out && spans' == spans + Copies(|out|, Span(origIndex, 1))
  {
    if IsAscii(ch) {
      chars' := chars + [ch];
      spans' := spans + [Span(origIndex, 1)];
      return;
    }
    var expanded := nfkc(ch);
    chars', spans' := chars, spans;
    for k := 0 to |expanded|
      invariant chars' == chars + expanded[..k]
      invariant spans' == spans + Copies(k, Span(origIndex, 1))
    {
      chars' := chars' + [expanded[k]];
      spans' := spans' + [Span(origIndex, 1)];
      assert expanded[..k + 1] == expanded[..k] + [expanded[k]];
    }
    assert expanded[..|expanded|] == expanded;
  }

  method ByteStarts(origChars: string) returns (starts: seq<nat>)
    ensures |starts| == |origChars|
    ensures forall i :: 0 <= i < |origChars| ==> starts[i] == Offset(origChars, i)
  {
    starts := [];
    var offset: nat := 0;
    for k := 0 to |origChars|
      invariant |starts| == k
      invariant offset == Offset(origChars, k)
      invariant forall i :: 0 <= i < k ==> starts[i] == Offset(origChars, i)
    {
      starts := starts + [offset];
      OffsetStep(origChars, k);
      offset := offset + CharLen(origChars[k]);
    }
  }

  /** `NormalizedText::new`. */
  method Normalize(nfkc: Nfkc, original: string) returns (r: NormalizedText)
    ensures r.Valid(nfkc) && r.origChars == original
  {
    hide MapChar, Built, Groups;
    var origByteStart := ByteStarts(original);
    var chars: string, spans: seq<Span> := [], [];
    var pendingWs: seq<nat> := [];
    ghost var groups: seq<Group> := [];
    var i := 0;
    BuiltNone(nfkc, original);
    while i < |original|
      invariant Pending(original, i, pendingWs)
      invariant Built(nfkc, original, groups, i - |pendingWs|, chars, spans)
    {
      var ch := original[i];
      if IsNewline(ch) {
        var take := if ch == '\r' && i + 1 < |original| && original[i + 1] == '\n' then 2 else 1;
        groups := BuiltNewline(nfkc, original, groups, i, |pendingWs|, chars, spans);
        chars, spans := PushNewline(chars, spans, pendingWs, i, take);
        pendingWs := [];
        i := i + take;
        continue;
      }
      var mapped := MapChar(ch);
      if mapped == ' ' || mapped == '\t' {
        pendingWs := pendingWs + [i];
        i := i + 1;
        continue;
      }
      for k := 0 to |pendingWs|
        invariant Built(nfkc, original, groups, i - |pendingWs| + k, chars, spans)
      {
        groups := BuiltInner(nfkc, original, groups, i, |pendingWs| - k, chars, spans);
        chars := chars + [' '];
        spans := spans + [Span(pendingWs[k], 1)];
      }
      groups := BuiltInner(nfkc, original, groups, i, 0, chars, spans);
      chars, spans := PushNfkc(nfkc, chars, spans, mapped, i);
      pendingWs := [];
      i := i + 1;
    }
    BuiltAll(nfkc, original, groups, |pendingWs|, chars, spans);
    r := NormalizedText(chars, spans, original, origByteStart);
  }

  lemma BuiltNone(nfkc: Nfkc, s: string)
    ensures Built(nfkc, s, [], 0, [], [])
  {
    hide MapChar;
    assert s[0..] == s;
  }

  /** Whitespace pending at the end of the text is dropped. */
  lemma BuiltAll(nfkc: Nfkc, s: string, done: seq<Group>, k: nat, chars: string, spans: seq<Span>)
    requires WsRun(s, |s|, k) && Built(nfkc, s, done, |s| - k, chars, spans)
    ensures chars == Norm(nfkc, s) && spans == Spans(nfkc, s)
  {
    hide MapChar;
    RunPrefix(s, |s|, k);
    OnlyWs(nfkc, s[|s| - k..]);
    assert done + [] == done;
  }

  /** A newline at `i` after `k` whitespace characters. */
  lemma BuiltNewline(nfkc: Nfkc, s: string, done: seq<Group>, i: nat, k: nat, chars: string, spans: seq<Span>)
    returns (done': seq<Group>)
    requires i < |s| && IsNewline(s[i]) && WsRun(s, i, k)
    requires Built(nfkc, s, done, i - k, chars, spans)
    ensures Built(nfkc, s, done', i + NewlineLen(s, i), chars + "\n", spans + [Span(i - k, k + NewlineLen(s, i))])
  {
    hide MapChar, Built, Groups;
    var rest := s[i - k..];
    RunPrefix(s, i, k);
    NewlineAfterRun(nfkc, rest, k);
    var n := k + NewlineLen(s, i);
    assert NewlineLen(rest, k) == NewlineLen(s, i);
    done' := ExtendBuilt(nfkc, s, done, i - k, chars, spans);
    assert Copies(1, Span(i - k, n)) == [Span(i - k, n)];
  }

  /** One inner whitespace character, or the character after the run. */
  lemma BuiltInner(nfkc: Nfkc, s: string, done: seq<Group>, i: nat, k: nat, chars: string, spans: seq<Span>)
    returns (done': seq<Group>)
    requires i < |s| && !IsNewline(s[i]) && !IsWs(s[i]) && WsRun(s, i, k)
    requires Built(nfkc, s, done, i - k, chars, spans)
    ensures k > 0 ==> Built(nfkc, s, done', i - k + 1, chars + " ", spans + [Span(i - k, 1)])
    ensures k == 0 ==> var out := Expand(nfkc, s[i]);
                       Built(nfkc, s, done', i + 1, chars + out, spans + Copies(|out|, Span(i, 1)))
  {
    hide MapChar, Expand, Built, Groups;
    var rest := s[i - k..];
    RunPrefix(s, i, k);
    CharAfterRun(nfkc, rest, k);
    done' := ExtendBuilt(nfkc, s, done, i - k, chars, spans);
    assert Copies(1, Span(i - k, 1)) == [Span(i - k, 1)];
  }

  /** `pending` lists the indices in front of `i`, all of them whitespace. */
  ghost predicate Pending(s: string, i: nat, pending: seq<nat>) {
    WsRun(s, i, |pending|) && forall k :: 0 <= k < |pending| ==> pending[k] == i - |pending| + k
  }

  /** The groups in front of index `g0` are finished and their output is in place. */
  ghost predicate Built(nfkc: Nfkc, s: string, done: seq<Group>, g0: nat, chars: string, spans: seq<Span>) {
    && g0 <= |s|
    && Groups(nfkc, s) == done + Groups(nfkc, s[g0..])
    && Width(done) == g0
    && chars == Outs(done)
    && spans == SpansFrom(done, 0)
  }

  lemma ExtendBuilt(nfkc: Nfkc, s: string, done: seq<Group>, g0: nat, chars: string, spans: seq<Span>)
    returns (done': seq<Group>)
    requires Built(nfkc, s, done, g0, chars, spans)
    requires Groups(nfkc, s[g0..]) != []
    ensures var g := Groups(nfkc, s[g0..])[0];
            Built(nfkc, s, done', g0 + g.consumed, chars + g.out,
                  spans + Copies(|g.out|, Span(g0, g.consumed)))
  {
    hide Groups, Width, Outs, SpansFrom, Copies;
    var gs := Groups(nfkc, s[g0..]);
    var g := gs[0];
    done' := done + [g];
    GroupsHead(nfkc, s[g0..]);
    Snoc(done, g);
    assert s[g0..][g.consumed..] == s[g0 + g.consumed..];
    MoveHead(Groups(nfkc, s), done, gs, [g], Groups(nfkc, s[g0 + g.consumed..]));
  }

  lemma GroupsHead(nfkc: Nfkc, s: string)
    requires Groups(nfkc, s) != []
    ensures var g := Groups(nfkc, s)[0];
            1 <= g.consumed <= |s| && Groups(nfkc, s) == [g] + Groups(nfkc, s[g.consumed..])
  {
    hide LeadingWs, MapChar;
  }

  /** What is left to read: after a CR, an LF belongs to the newline already emitted. */
  function AfterCr(prevCr: bool, s: string): string {
    if prevCr && s != [] && s[0] == '\n' then s[1..] else s
  }

  /** `chars` is the normal form of what was read, up to index `j`. */
  ghost predicate Read(nfkc: Nfkc, s: string, j: nat, prevCr: bool, chars: string) {
    j <= |s| && Norm(nfkc, s) == chars + Norm(nfkc, AfterCr(prevCr, s[j..]))
  }

  lemma ReadNone(nfkc: Nfkc, s: string)
    ensures Read(nfkc, s, 0, false, [])
  {
    hide Norm;
    assert s[0..] == s;
  }

  lemma ReadNewline(nfkc: Nfkc, s: string, i: nat, k: nat, prevCr: bool, chars: string)
    requires i < |s| && IsNewline(s[i]) && WsRun(s, i, k) && (prevCr ==> k == 0 && s[i] != '\n')
    requires Read(nfkc, s, i - k, prevCr, chars)
    ensures Read(nfkc, s, i + 1, s[i] == '\r', chars + "\n")
  {
    var rest := s[i - k..];
    RunPrefix(s, i, k);
    NormNewline(nfkc, rest, k);
    hide Norm, MapChar;
    assert AfterCr(prevCr, rest) == rest;
    assert rest[k + 1..] == s[i + 1..];
    MoveHead(Norm(nfkc, s), chars, Norm(nfkc, rest), "\n", Norm(nfkc, AfterCr(s[i] == '\r', s[i + 1..])));
  }

  lemma ReadLfOfCrLf(nfkc: Nfkc, s: string, i: nat, chars: string)
    requires i < |s| && s[i] == '\n' && Read(nfkc, s, i, true, chars)
    ensures Read(nfkc, s, i + 1, false, chars)
  {
    hide Norm;
    assert s[i..][1..] == s[i + 1..];
  }

  lemma ReadChar(nfkc: Nfkc, s: string, i: nat, k: nat, prevCr: bool, chars: string)
    requires i < |s| && !IsNewline(s[i]) && !IsWs(s[i]) && WsRun(s, i, k) && (prevCr ==> k == 0)
    requires Read(nfkc, s, i - k, prevCr, chars)
    ensures Read(nfkc, s, i + 1, false, chars + Spaces(k) + Expand(nfkc, s[i]))
  {
    var rest := s[i - k..];
    RunPrefix(s, i, k);
    NormRun(nfkc, rest, k);
    NormChar(nfkc, s[i..]);
    hide Norm, MapChar, Spaces, Expand;
    assert AfterCr(prevCr, rest) == rest;
    assert s[i..][1..] == s[i + 1..];
    MoveHead(Norm(nfkc, s), chars, Norm(nfkc, rest), Spaces(k), Norm(nfkc, s[i..]));
    MoveHead(Norm(nfkc, s), chars + Spaces(k), Norm(nfkc, s[i..]), Expand(nfkc, s[i]), Norm(nfkc, s[i + 1..]));
  }

  lemma ReadAll(nfkc: Nfkc, s: string, k: nat, prevCr: bool, chars: string)
    requires WsRun(s, |s|, k) && (prevCr ==> k == 0) && Read(nfkc, s, |s| - k, prevCr, chars)
    ensures chars == Norm(nfkc, s)
  {
    RunPrefix(s, |s|, k);
    hide MapChar;
    assert AfterCr(prevCr, s[|s| - k..]) == s[|s| - k..];
    OnlyWs(nfkc, s[|s| - k..]);
  }

  /** `normalize_chars`, the needle's normaliser. */
  method NormalizeChars(nfkc: Nfkc, input: string) returns (chars: string)
    ensures chars == Norm(nfkc, input)
  {
    hide MapChar, Read, Norm;
    chars := [];
    var pendingWs := 0;
    var prevCr := false;
    ReadNone(nfkc, input);
    for i := 0 to |input|
      invariant prevCr ==> pendingWs == 0
      invariant WsRun(input, i, pendingWs)
      invariant Read(nfkc, input, i - pendingWs, prevCr, chars)
    {
      var ch := input[i];
      if ch == '\r' {
        ReadNewline(nfkc, input, i, pendingWs, prevCr, chars);
        chars := chars + ['\n'];
        pendingWs := 0;
        prevCr := true;
        continue;
      }
      if ch == '\n' {
        if prevCr {
          ReadLfOfCrLf(nfkc, input, i, chars);
          prevCr := false;
          continue;
        }
        ReadNewline(nfkc, input, i, pendingWs, prevCr, chars);
        chars := chars + ['\n'];
        pendingWs := 0;
        continue;
      }
      ghost var wasCr := prevCr;
      prevCr := false;
      var mapped := MapChar(ch);
      if mapped == ' ' || mapped == '\t' {
        ReadWs(nfkc, input, i, pendingWs, wasCr, chars);
        pendingWs := pendingWs + 1;
        continue;
      }
      ReadChar(nfkc, input, i, pendingWs, wasCr, chars);
      chars := chars + Spaces(pendingWs);
      pendingWs := 0;
      if IsAscii(mapped) {
        chars := chars + [mapped];
      } else {
        chars := chars + nfkc(mapped);
      }
    }
    ReadAll(nfkc, input, pendingWs, prevCr, chars);
  }

  lemma ReadWs(nfkc: Nfkc, s: string, i: nat, k: nat, prevCr: bool, chars: string)
    requires i < |s| && s[i] != '\n' && k <= i && (prevCr ==> k == 0)
    requires Read(nfkc, s, i - k, prevCr, chars)
    ensures Read(nfkc, s, i - k, false, chars)
  {
    hide Norm;
    assert AfterCr(prevCr, s[i - k..]) == s[i - k..];
  }

  /** `repeat_n(' ', n)` */
  function Spaces(n: nat): string {
    if n == 0 then "" else " " + Spaces(n - 1)
  }

  /** The normal form, one group at a time. */
  lemma NormStep(nfkc: Nfkc, s: string)
    requires Groups(nfkc, s) != []
    ensures var g := Groups(nfkc, s)[0];
            g.consumed <= |s| && Norm(nfkc, s) == g.out + Norm(nfkc, s[g.consumed..])
  {
    hide MapChar;
    var g := Groups(nfkc, s)[0];
    assert Groups(nfkc, s)[1..] == Groups(nfkc, s[g.consumed..]);
  }

  lemma NormNewline(nfkc: Nfkc, s: string, k: nat)
    requires k < |s| && IsNewline(s[k])
    requires forall i :: 0 <= i < k ==> IsWs(s[i])
    ensures Norm(nfkc, s) == "\n" + Norm(nfkc, AfterCr(s[k] == '\r', s[k + 1..]))
  {
    hide MapChar;
    NewlineAfterRun(nfkc, s, k);
    NormStep(nfkc, s);
    assert AfterCr(s[k] == '\r', s[k + 1..]) == s[k + NewlineLen(s, k)..];
  }

  lemma NormChar(nfkc: Nfkc, s: string)
    requires s != [] && !IsNewline(s[0]) && !IsWs(s[0])
    ensures Norm(nfkc, s) == Expand(nfkc, s[0]) + Norm(nfkc, s[1..])
  {
    hide MapChar;
    CharAfterRun(nfkc, s, 0);
    NormStep(nfkc, s);
  }

  /** Inner whitespace becomes one space a character. */
  lemma {:induction false} NormRun(nfkc: Nfkc, s: string, k: nat)
    requires k < |s| && !IsNewline(s[k]) && !IsWs(s[k])
    requires forall i :: 0 <= i < k ==> IsWs(s[i])
    ensures Norm(nfkc, s) == Spaces(k) + Norm(nfkc, s[k..])
  {
    hide MapChar;
    hide Norm;
    if k == 0 {
      assert s[0..] == s;
    } else {
      CharAfterRun(nfkc, s, k);
      NormStep(nfkc, s);
      NormRun(nfkc, s[1..], k - 1);
      assert s[1..][k - 1..] == s[k..];
      Assoc(" ", Spaces(k - 1), Norm(nfkc, s[k..]));
    }
  }
}
