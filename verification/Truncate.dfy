/**
 Output truncation (output/truncate.rs): the head of a text for `read`, the tail
 for `bash`, each within a line budget and a byte budget.
 */
module Truncate {
  import opened Seqs
  import opened Utf8

  const MAX_LINES: nat := 2000
  const MAX_BYTES: nat := 50 * 1024

  // ----- lines -----

  /** `str::split_inclusive('\n')` */
  function Lines(t: string): seq<string> {
    if t == [] then []
    else
      var rest := Lines(t[1..]);
      if t[0] == '\n' || rest == [] then [[t[0]]] + rest
      else [[t[0]] + rest[0]] + rest[1..]
  }

  predicate IsTerminated(l: string) {
    l != [] && l[|l| - 1] == '\n' && '\n' !in l[..|l| - 1]
  }

  predicate IsUnterminated(l: string) {
    l != [] && '\n' !in l
  }

  /** Every line ends in the only newline it holds; the last may have none. */
  predicate AreLines(ls: seq<string>) {
    if ls == [] then true
    else if |ls| == 1 then IsTerminated(ls[0]) || IsUnterminated(ls[0])
    else IsTerminated(ls[0]) && AreLines(ls[1..])
  }

  lemma TerminatedLonger(c: char, l: string)
    requires c != '\n'
    ensures IsTerminated(l) ==> IsTerminated([c] + l)
    ensures IsUnterminated(l) ==> IsUnterminated([c] + l)
  {
    if IsTerminated(l) {
      assert ([c] + l)[..|l|] == [c] + l[..|l| - 1];
    }
  }

  /** Splitting loses nothing, and cuts behind every newline and nowhere else. */
  lemma {:induction false} LinesWhole(t: string)
    ensures Concat(Lines(t)) == t
    ensures AreLines(Lines(t))
  {
    if t != [] {
      LinesWhole(t[1..]);
      var rest := Lines(t[1..]);
      assert t == [t[0]] + t[1..];
      if t[0] == '\n' || rest == [] {
        assert Lines(t)[1..] == rest;
        assert t[0] == '\n' ==> [t[0]][..0] == [];
      } else {
        TerminatedLonger(t[0], rest[0]);
        assert Lines(t)[1..] == rest[1..];
        Assoc([t[0]], rest[0], Concat(rest[1..]));
      }
    }
  }

  lemma LinesOfLine(c: char, t: string)
    ensures var rest := Lines(t);
            Lines([c] + t) == if c == '\n' || rest == [] then [[c]] + rest else [[c] + rest[0]] + rest[1..]
  {
    assert ([c] + t)[1..] == t;
  }

  /** A first line in front of other lines is split off again. */
  lemma {:induction false} LinesCons(l: string, t: string)
    requires IsTerminated(l) || (IsUnterminated(l) && t == [])
    ensures Lines(l + t) == [l] + Lines(t)
  {
    if |l| == 1 {
      assert l == [l[0]];
      LinesOfLine(l[0], t);
    } else {
      var tail := l[1..];
      assert l == [l[0]] + tail;
      Assoc([l[0]], tail, t);
      assert IsTerminated(l) ==> tail[..|tail| - 1] == l[1..|l| - 1];
      LinesCons(tail, t);
      LinesOfLine(l[0], tail + t);
      assert l[0] != '\n' by {
        if IsTerminated(l) {
          assert l[0] == l[..|l| - 1][0];
        }
      }
      assert ([tail] + Lines(t))[1..] == Lines(t);
    }
  }

  /** The lines of a text are the only way to cut it into lines. */
  lemma {:induction false} LinesUnique(ls: seq<string>)
    requires AreLines(ls)
    ensures Lines(Concat(ls)) == ls
  {
    if ls != [] {
      LinesUnique(ls[1..]);
      assert |ls| == 1 ==> ls[1..] == [];
      LinesCons(ls[0], Concat(ls[1..]));
      assert ls == [ls[0]] + ls[1..];
    }
  }

  lemma {:induction false} LinesFrom(ls: seq<string>, k: nat)
    requires AreLines(ls) && k <= |ls|
    ensures AreLines(ls[k..])
  {
    if k > 0 {
      LinesFrom(ls[1..], k - 1);
      assert ls[1..][k - 1..] == ls[k..];
    } else {
      assert ls[0..] == ls;
    }
  }

  lemma {:induction false} LinesTo(ls: seq<string>, k: nat)
    requires AreLines(ls) && k <= |ls|
    ensures AreLines(ls[..k])
  {
    if k > 0 {
      LinesTo(ls[1..], k - 1);
      assert ls[..k][1..] == ls[1..][..k - 1];
    }
  }

  lemma {:induction false} LineNotEmpty(ls: seq<string>, k: nat)
    requires AreLines(ls) && k < |ls|
    ensures ls[k] != []
  {
    if k > 0 {
      LineNotEmpty(ls[1..], k - 1);
    }
  }

  function CountLines(t: string): nat {
    |Lines(t)|
  }

  function Newlines(t: string): nat {
    if t == [] then 0 else (if t[0] == '\n' then 1 else 0) + Newlines(t[1..])
  }

  /** As many lines as newlines, and one more for an unterminated end. */
  lemma {:induction false} CountLinesMeaning(t: string)
    ensures CountLines(t) == Newlines(t) + (if t != [] && t[|t| - 1] != '\n' then 1 else 0)
    ensures CountLines(t) <= |t|
  {
    if t != [] {
      CountLinesMeaning(t[1..]);
      if |t| == 1 {
        assert t[1..] == [];
      }
    }
  }

  // ----- the head -----

  /** Bytes of the first `k` lines. */
  function HeadBytes(parts: seq<string>, k: nat): nat
    requires k <= |parts|
  {
    Len(Concat(parts[..k]))
  }

  predicate HeadFits(parts: seq<string>, maxLines: nat, maxBytes: nat, k: nat) {
    k <= |parts| && k <= maxLines && HeadBytes(parts, k) <= maxBytes
  }

  ghost predicate IsLongestHead(parts: seq<string>, maxLines: nat, maxBytes: nat, k: nat) {
    HeadFits(parts, maxLines, maxBytes, k) &&
    forall j: nat :: HeadFits(parts, maxLines, maxBytes, j) ==> j <= k
  }

  lemma HeadBytesStep(parts: seq<string>, k: nat)
    requires k < |parts|
    ensures HeadBytes(parts, k + 1) == HeadBytes(parts, k) + Len(parts[k])
  {
    assert parts[..k + 1] == parts[..k] + [parts[k]];
    ConcatSnoc(parts[..k], parts[k]);
    LenAppend(Concat(parts[..k]), parts[k]);
  }

  lemma {:induction false} HeadBytesMonotone(parts: seq<string>, j: nat, k: nat)
    requires j <= k <= |parts|
    ensures HeadBytes(parts, j) <= HeadBytes(parts, k)
    decreases k
  {
    if j < k {
      HeadBytesStep(parts, k - 1);
      HeadBytesMonotone(parts, j, k - 1);
    }
  }

  /** A head that fits and cannot take the next line is the longest. */
  lemma LongestHead(parts: seq<string>, maxLines: nat, maxBytes: nat, k: nat)
    requires HeadFits(parts, maxLines, maxBytes, k)
    requires k == |parts| || k == maxLines || HeadBytes(parts, k + 1) > maxBytes
    ensures IsLongestHead(parts, maxLines, maxBytes, k)
  {
    hide HeadBytes;
    forall j: nat | HeadFits(parts, maxLines, maxBytes, j)
      ensures j <= k
    {
      if k < j {
        HeadBytesMonotone(parts, k + 1, j);
      }
    }
  }

  datatype Head = Head(text: string, keptLines: nat, byteLimited: bool, firstLineTooBig: bool)

  /** The longest run of whole leading lines within both budgets. `byteLimited`
      says that the next line was within the line budget but not the byte budget. */
  ghost predicate IsHead(text: string, maxLines: nat, maxBytes: nat, h: Head) {
    var parts, k := Lines(text), h.keptLines;
    && IsLongestHead(parts, maxLines, maxBytes, k)
    && h.text == Concat(parts[..k])
    && (h.byteLimited <==> k < |parts| && k < maxLines && HeadBytes(parts, k + 1) > maxBytes)
    && (h.firstLineTooBig <==> parts != [] && (maxLines == 0 || Len(parts[0]) > maxBytes))
  }

  /** `take_head` */
  method TakeHead(text: string, maxLines: nat, maxBytes: nat) returns (h: Head)
    ensures IsHead(text, maxLines, maxBytes, h)
  {
    hide HeadBytes;
    var parts := Lines(text);
    var total := |parts|;
    WholeHead(text);
    FirstHead(parts);
    if Len(text) <= maxBytes && total <= maxLines {
      LongestHead(parts, maxLines, maxBytes, total);
      if total > 0 {
        HeadBytesMonotone(parts, 1, total);
      }
      return Head(text, total, false, false);
    }
    var kept, bytes, byteLimited := 0, 0, false;
    while kept < maxLines && kept < total
      invariant HeadFits(parts, maxLines, maxBytes, kept)
      invariant bytes == HeadBytes(parts, kept)
      invariant !byteLimited
    {
      HeadBytesStep(parts, kept);
      var part := parts[kept];
      if bytes + Len(part) > maxBytes {
        byteLimited := true;
        break;
      }
      bytes := bytes + Len(part);
      kept := kept + 1;
    }
    LongestHead(parts, maxLines, maxBytes, kept);
    if kept > 0 {
      HeadBytesMonotone(parts, 1, kept);
    }
    h := Head(Concat(parts[..kept]), kept, byteLimited && kept < total, kept == 0 && parts != []);
  }

  lemma WholeHead(text: string)
    ensures var parts := Lines(text);
            Concat(parts[..|parts|]) == text && HeadBytes(parts, |parts|) == Len(text)
  {
    var parts := Lines(text);
    LinesWhole(text);
    assert parts[..|parts|] == parts;
  }

  lemma FirstHead(parts: seq<string>)
    ensures HeadBytes(parts, 0) == 0
    ensures parts != [] ==> HeadBytes(parts, 1) == Len(parts[0])
  {
    if parts != [] {
      HeadBytesStep(parts, 0);
    }
  }

  lemma HeadSplit(text: string, k: nat)
    requires k <= CountLines(text)
    ensures var head := Concat(Lines(text)[..k]);
            head <= text && CountLines(head) == k && Len(head) == HeadBytes(Lines(text), k)
  {
    hide Lines, Concat, Len;
    var parts := Lines(text);
    LinesWhole(text);
    assert parts == parts[..k] + parts[k..];
    ConcatAppend(parts[..k], parts[k..]);
    LinesTo(parts, k);
    LinesUnique(parts[..k]);
  }

  /** The head is unique, is a prefix of the text and keeps both budgets. */
  lemma HeadMeaning(text: string, maxLines: nat, maxBytes: nat, h: Head, g: Head)
    requires IsHead(text, maxLines, maxBytes, h) && IsHead(text, maxLines, maxBytes, g)
    ensures h == g
    ensures h.text <= text && Len(h.text) <= maxBytes && CountLines(h.text) == h.keptLines <= maxLines
    ensures h.text == text <==> Len(text) <= maxBytes && CountLines(text) <= maxLines
  {
    hide Lines, Concat, Len, HeadBytes;
    HeadSplit(text, h.keptLines);
    WholeHead(text);
    if Len(text) <= maxBytes && CountLines(text) <= maxLines {
      assert HeadFits(Lines(text), maxLines, maxBytes, CountLines(text));
    }
  }

  /** `first_line_too_big` is not what its comment says when no line may be kept:
      the one line here has one byte. */
  lemma ZeroLineBudget(h: Head)
    requires IsHead("a", 0, MAX_BYTES, h)
    ensures h.firstLineTooBig && Len(Lines("a")[0]) <= MAX_BYTES
  {
    assert Lines("") == [];
    assert "a"[1..] == "";
    assert Lines("a") == ["a"];
  }

  /** It means that the first line exceeds the byte budget, unless there are lines
      and the line budget is zero while the first line is small. */
  lemma FirstLineTooBigMeaning(text: string, maxLines: nat, maxBytes: nat, h: Head)
    requires IsHead(text, maxLines, maxBytes, h)
    ensures var parts := Lines(text);
            (h.firstLineTooBig <==> parts != [] && Len(parts[0]) > maxBytes) <==>
            !(maxLines == 0 && parts != [] && Len(parts[0]) <= maxBytes)
  {
  }

  // ----- the tail -----

  /** Bytes from line `k` on. */
  function TailBytes(parts: seq<string>, k: nat): nat
    requires k <= |parts|
  {
    Len(Concat(parts[k..]))
  }

  lemma TailBytesStep(parts: seq<string>, k: nat)
    requires k < |parts|
    ensures TailBytes(parts, k) == Len(parts[k]) + TailBytes(parts, k + 1)
  {
    assert parts[k..][1..] == parts[k + 1..];
    LenAppend(parts[k], Concat(parts[k + 1..]));
  }

  lemma {:induction false} TailBytesMonotone(parts: seq<string>, j: nat, k: nat)
    requires j <= k <= |parts|
    ensures TailBytes(parts, k) <= TailBytes(parts, j)
    decreases k - j
  {
    if j < k {
      TailBytesStep(parts, j);
      TailBytesMonotone(parts, j + 1, k);
    }
  }

  lemma TailBytesEnds(parts: seq<string>)
    ensures TailBytes(parts, |parts|) == 0
    ensures parts != [] ==> TailBytes(parts, |parts| - 1) == Len(parts[|parts| - 1])
    ensures TailBytes(parts, 0) == Len(Concat(parts))
  {
    assert parts[|parts|..] == [];
    assert parts[0..] == parts;
    if parts != [] {
      TailBytesStep(parts, |parts| - 1);
    }
  }

  /** `parts[start..].iter().map(|p| p.len()).sum()` */
  method SumBytes(parts: seq<string>, start: nat) returns (n: nat)
    requires start <= |parts|
    ensures n == TailBytes(parts, start)
  {
    hide TailBytes;
    n := 0;
    var k := |parts|;
    TailBytesEnds(parts);
    while k > start
      invariant start <= k <= |parts|
      invariant n == TailBytes(parts, k)
    {
      TailBytesStep(parts, k - 1);
      k := k - 1;
      n := n + Len(parts[k]);
    }
  }

  /** Within any four positions there is a character boundary. */
  lemma {:induction false} BoundaryNear(s: string, k: nat) returns (b: nat)
    requires k <= Len(s)
    ensures k <= b < k + 4 && b <= Len(s) && IsBoundary(s, b)
  {
    if k == 0 {
      b := 0;
    } else {
      var n := CharLen(s[0]);
      if k <= n {
        b := n;
      } else {
        b := BoundaryNear(s[1..], k - n);
        b := b + n;
      }
    }
  }

  /** `&s[k..]` for a boundary `k`. */
  function FromByte(s: string, k: nat): string
    requires IsBoundary(s, k)
  {
    if k == 0 then s else FromByte(s[1..], k - CharLen(s[0]))
  }

  lemma {:induction false} FromByteIsSuffix(s: string, k: nat) returns (i: nat)
    requires IsBoundary(s, k)
    ensures i <= |s| && FromByte(s, k) == s[i..] && Offset(s, i) == k
  {
    if k == 0 {
      i := 0;
    } else {
      var j := FromByteIsSuffix(s[1..], k - CharLen(s[0]));
      i := j + 1;
      assert s[..i][1..] == s[1..][..j];
      assert s[1..][j..] == s[i..];
    }
  }

  lemma SuffixBytes(s: string, i: nat)
    requires i <= |s|
    ensures Offset(s, i) + Len(s[i..]) == Len(s)
  {
    assert s == s[..i] + s[i..];
    LenAppend(s[..i], s[i..]);
  }

  ghost predicate SuffixFits(s: string, maxBytes: nat, i: nat) {
    i <= |s| && Len(s[i..]) <= maxBytes
  }

  /** The longest suffix of `s`, by whole characters, of at most `maxBytes` bytes. */
  ghost predicate IsLongestSuffix(s: string, maxBytes: nat, i: nat) {
    SuffixFits(s, maxBytes, i) &&
    forall j: nat :: SuffixFits(s, maxBytes, j) ==> i <= j
  }

  /** `t` is that suffix; of a line that is too long, it wastes at most three bytes. */
  ghost predicate IsCutOf(s: string, maxBytes: nat, t: string) {
    (exists i: nat :: IsLongestSuffix(s, maxBytes, i) && t == s[i..]) &&
    (Len(s) > maxBytes ==> maxBytes < Len(t) + 4)
  }

  /** The final bytes of a line too long, from the next character boundary on. */
  method CutFront(s: string, maxBytes: nat) returns (t: string)
    ensures IsCutOf(s, maxBytes, t)
  {
    hide IsBoundary, FromByte, Len, Offset;
    var over := if Len(s) <= maxBytes then 0 else Len(s) - maxBytes;
    var cut := over;
    ghost var near := BoundaryNear(s, over);
    BoundaryByte(s, Len(s));
    while cut < Len(s) && !IsBoundary(s, cut)
      invariant over <= cut <= near
      invariant forall b :: over <= b < cut ==> !IsBoundary(s, b)
      decreases Len(s) - cut
    {
      cut := cut + 1;
    }
    t := FromByte(s, cut);
    ghost var i := FromByteIsSuffix(s, cut);
    SuffixBytes(s, i);
    forall j: nat | SuffixFits(s, maxBytes, j)
      ensures i <= j
    {
      SuffixBytes(s, j);
      IndexBoundary(s, j);
      if j < i {
        OffsetMonotone(s, j, i);
      }
    }
  }

  datatype Tail = Tail(text: string, firstLine: nat, keptLines: nat, byteLimited: bool, cutMidLine: bool, truncated: bool)

  /** The first line the line budget allows. */
  function Earliest(parts: seq<string>, maxLines: nat): nat {
    var budget := if maxLines == 0 then 1 else maxLines;
    if |parts| <= budget then 0 else |parts| - budget
  }

  predicate TailFits(parts: seq<string>, maxLines: nat, maxBytes: nat, k: nat) {
    Earliest(parts, maxLines) <= k <= |parts| && TailBytes(parts, k) <= maxBytes
  }

  ghost predicate IsLongestTail(parts: seq<string>, maxLines: nat, maxBytes: nat, k: nat) {
    TailFits(parts, maxLines, maxBytes, k) &&
    forall j: nat :: TailFits(parts, maxLines, maxBytes, j) ==> k <= j
  }

  /** The longest run of whole last lines within both budgets, at least one line
      whatever the line budget; a suffix of the last line when even that one is
      too big. */
  ghost predicate IsTail(text: string, maxLines: nat, maxBytes: nat, t: Tail) {
    var parts := Lines(text);
    var total := |parts|;
    && 0 < t.firstLine && t.firstLine + t.keptLines - 1 == total
    && (t.truncated <==> t.text != text)
    && (t.cutMidLine <==> total > 0 && Len(parts[total - 1]) > maxBytes)
    && (t.byteLimited <==> TailBytes(parts, Earliest(parts, maxLines)) > maxBytes)
    && (if t.cutMidLine then
          t.keptLines == 1 && IsCutOf(parts[total - 1], maxBytes, t.text)
        else
          IsLongestTail(parts, maxLines, maxBytes, t.firstLine - 1) && t.text == Concat(parts[t.firstLine - 1..]))
  }

  /** A tail that fits and cannot take the line in front of it is the longest. */
  lemma LongestTail(parts: seq<string>, maxLines: nat, maxBytes: nat, k: nat)
    requires TailFits(parts, maxLines, maxBytes, k)
    requires k == Earliest(parts, maxLines) || (0 < k && TailBytes(parts, k - 1) > maxBytes)
    ensures IsLongestTail(parts, maxLines, maxBytes, k)
  {
    hide TailBytes, Earliest;
    forall j: nat | TailFits(parts, maxLines, maxBytes, j)
      ensures k <= j
    {
      if j < k {
        TailBytesMonotone(parts, j, k - 1);
      }
    }
  }

  lemma WholeTail(text: string)
    ensures var parts := Lines(text);
            Concat(parts[0..]) == text && TailBytes(parts, 0) == Len(text)
  {
    LinesWhole(text);
    assert Lines(text)[0..] == Lines(text);
  }

  /** Dropping leading lines changes the text. */
  lemma DroppedLines(text: string, k: nat)
    requires 0 < k <= CountLines(text)
    ensures Concat(Lines(text)[k..]) != text
  {
    var parts := Lines(text);
    LinesWhole(text);
    LinesFrom(parts, k);
    LinesUnique(parts[k..]);
    assert |parts[k..]| < |parts|;
  }

  lemma KeptIsTail(text: string, maxLines: nat, maxBytes: nat, start: nat)
    requires start < CountLines(text)
    requires IsLongestTail(Lines(text), maxLines, maxBytes, start)
    requires Earliest(Lines(text), maxLines) > 0 || Len(text) > maxBytes
    ensures var parts := Lines(text);
            IsTail(text, maxLines, maxBytes,
              Tail(Concat(parts[start..]), start + 1, |parts| - start,
                TailBytes(parts, Earliest(parts, maxLines)) > maxBytes, false, true))
  {
    hide TailBytes, Lines, Concat, Len, Earliest;
    var parts := Lines(text);
    WholeTail(text);
    if start > 0 {
      DroppedLines(text, start);
    }
    TailBytesEnds(parts);
    TailBytesMonotone(parts, start, |parts| - 1);
  }

  lemma CutIsTail(text: string, maxLines: nat, maxBytes: nat, kept: string)
    requires text != [] && Lines(text) != []
    requires var parts := Lines(text);
             Len(parts[|parts| - 1]) > maxBytes && IsCutOf(parts[|parts| - 1], maxBytes, kept)
    ensures IsTail(text, maxLines, maxBytes, Tail(kept, CountLines(text), 1, true, true, true))
  {
    hide TailBytes, Lines, Concat, Len;
    var parts := Lines(text);
    WholeTail(text);
    TailBytesEnds(parts);
    TailBytesMonotone(parts, 0, |parts| - 1);
    TailBytesMonotone(parts, Earliest(parts, maxLines), |parts| - 1);
  }

  /** `take_tail` */
  method TakeTail(text: string, maxLines: nat, maxBytes: nat) returns (t: Tail)
    ensures IsTail(text, maxLines, maxBytes, t)
  {
    hide TailBytes, Lines, Concat, Len, IsCutOf, IsTail;
    var lineBudget := if maxLines == 0 then 1 else maxLines;
    var parts := Lines(text);
    var total := |parts|;
    WholeTail(text);
    if Len(text) <= maxBytes && total <= lineBudget {
      WholeIsTail(text, maxLines, maxBytes);
      return Tail(text, 1, total, false, false, false);
    }
    SomeLines(text, maxLines, maxBytes);
    TailBytesEnds(parts);
    var start := if total <= lineBudget then 0 else total - lineBudget;
    ghost var earliest := start;
    var bytes := SumBytes(parts, start);
    var byteLimited, cutMidLine := false, false;
    while bytes > maxBytes
      invariant earliest <= start < total
      invariant bytes == TailBytes(parts, start)
      invariant start == earliest || TailBytes(parts, start - 1) > maxBytes
      invariant byteLimited <==> start > earliest
      invariant start > earliest ==> TailBytes(parts, earliest) > maxBytes
      decreases total - start
    {
      if start == total - 1 {
        byteLimited, cutMidLine := true, true;
        break;
      }
      TailBytesStep(parts, start);
      bytes := bytes - Len(parts[start]);
      start := start + 1;
      byteLimited := true;
    }
    var kept := Concat(parts[start..]);
    if cutMidLine {
      LastOnly(parts);
      kept := CutFront(kept, maxBytes);
      CutIsTail(text, maxLines, maxBytes, kept);
    } else {
      LongestTail(parts, maxLines, maxBytes, start);
      KeptIsTail(text, maxLines, maxBytes, start);
    }
    t := Tail(kept, start + 1, total - start, byteLimited, cutMidLine, true);
  }

  lemma WholeIsTail(text: string, maxLines: nat, maxBytes: nat)
    requires Len(text) <= maxBytes && Earliest(Lines(text), maxLines) == 0
    ensures IsTail(text, maxLines, maxBytes, Tail(text, 1, CountLines(text), false, false, false))
  {
    hide TailBytes, Lines, Concat, Len, Earliest;
    var parts := Lines(text);
    WholeTail(text);
    LongestTail(parts, maxLines, maxBytes, 0);
    TailBytesEnds(parts);
    if parts != [] {
      TailBytesMonotone(parts, 0, |parts| - 1);
    }
  }

  /** A text over a budget has lines, and the line budget keeps one of them. */
  lemma SomeLines(text: string, maxLines: nat, maxBytes: nat)
    requires Len(text) > maxBytes || CountLines(text) > (if maxLines == 0 then 1 else maxLines)
    ensures text != [] && Lines(text) != [] && Earliest(Lines(text), maxLines) < CountLines(text)
    ensures Earliest(Lines(text), maxLines) > 0 || Len(text) > maxBytes
  {
  }

  lemma LastOnly(parts: seq<string>)
    requires parts != []
    ensures Concat(parts[|parts| - 1..]) == parts[|parts| - 1]
  {
    var last := parts[|parts| - 1];
    assert parts[|parts| - 1..] == [last];
    assert Concat([last]) == last + Concat([]) == last;
  }

  ghost predicate IsSuffix(t: string, text: string) {
    |t| <= |text| && text[|text| - |t|..] == t
  }

  lemma SuffixOfSum(a: string, b: string, i: nat)
    requires i <= |b|
    ensures IsSuffix(b[i..], a + b)
  {
  }

  lemma TailIsSuffix(text: string, maxLines: nat, maxBytes: nat, t: Tail)
    requires IsTail(text, maxLines, maxBytes, t)
    ensures IsSuffix(t.text, text) && Len(t.text) <= maxBytes
  {
    hide TailBytes, Lines, Concat, Len, Earliest;
    var parts := Lines(text);
    var k := t.firstLine - 1;
    LinesWhole(text);
    assert parts == parts[..k] + parts[k..];
    ConcatAppend(parts[..k], parts[k..]);
    if t.cutMidLine {
      LastOnly(parts);
      var last := parts[|parts| - 1];
      var i: nat :| IsLongestSuffix(last, maxBytes, i) && t.text == last[i..];
      SuffixOfSum(Concat(parts[..k]), last, i);
    } else {
      TailBytesIs(parts, k);
      SuffixOfSum(Concat(parts[..k]), t.text, 0);
      assert t.text[0..] == t.text;
    }
  }

  lemma TailBytesIs(parts: seq<string>, k: nat)
    requires k <= |parts|
    ensures TailBytes(parts, k) == Len(Concat(parts[k..]))
  {
  }

  lemma TailUnique(text: string, maxLines: nat, maxBytes: nat, t: Tail, u: Tail)
    requires IsTail(text, maxLines, maxBytes, t) && IsTail(text, maxLines, maxBytes, u)
    ensures t == u
  {
    hide TailBytes, Lines, Concat, Len, Earliest;
    var parts := Lines(text);
    if t.cutMidLine {
      var last := parts[|parts| - 1];
      var i: nat :| IsLongestSuffix(last, maxBytes, i) && t.text == last[i..];
      var j: nat :| IsLongestSuffix(last, maxBytes, j) && u.text == last[j..];
      assert i == j;
    } else {
      assert t.firstLine == u.firstLine;
    }
  }

  lemma TailCases(text: string, maxLines: nat, maxBytes: nat, t: Tail)
    requires IsTail(text, maxLines, maxBytes, t)
    ensures var parts := Lines(text);
            if t.cutMidLine then parts != [] && Len(parts[|parts| - 1]) > maxBytes
            else 0 < t.firstLine <= |parts| + 1 && t.text == Concat(parts[t.firstLine - 1..]) &&
                 Earliest(parts, maxLines) < t.firstLine
  {
    hide TailBytes, Lines, Concat, Len, Earliest, IsCutOf;
  }

  lemma LastLineBytes(text: string)
    requires Lines(text) != []
    ensures Len(Lines(text)[CountLines(text) - 1]) <= Len(text)
  {
    hide TailBytes, Lines, Concat, Len;
    WholeTail(text);
    TailBytesEnds(Lines(text));
    TailBytesMonotone(Lines(text), 0, CountLines(text) - 1);
  }

  lemma NothingDropped(text: string, maxLines: nat, maxBytes: nat, t: Tail)
    requires IsTail(text, maxLines, maxBytes, t) && t.text == text
    ensures Len(text) <= maxBytes && Earliest(Lines(text), maxLines) == 0
  {
    hide IsTail, IsSuffix, Lines, Concat, Len, Earliest;
    TailIsSuffix(text, maxLines, maxBytes, t);
    TailCases(text, maxLines, maxBytes, t);
    if t.cutMidLine {
      LastLineBytes(text);
    } else if t.firstLine > 1 {
      DroppedLines(text, t.firstLine - 1);
    }
  }

  lemma TailWhole(text: string, maxLines: nat, maxBytes: nat, t: Tail)
    requires IsTail(text, maxLines, maxBytes, t)
    ensures t.truncated <==> !(Len(text) <= maxBytes && Earliest(Lines(text), maxLines) == 0)
  {
    var fits := Len(text) <= maxBytes && Earliest(Lines(text), maxLines) == 0;
    assert t.truncated <==> t.text != text;
    hide *;
    if t.text == text {
      NothingDropped(text, maxLines, maxBytes, t);
    }
    if fits {
      WholeIsTail(text, maxLines, maxBytes);
      TailUnique(text, maxLines, maxBytes, t, Tail(text, 1, CountLines(text), false, false, false));
    }
  }

  /** The tail is unique, is a suffix of the text within both budgets, and is
      reported as truncated exactly when the text does not fit. */
  lemma TailMeaning(text: string, maxLines: nat, maxBytes: nat, t: Tail, u: Tail)
    requires IsTail(text, maxLines, maxBytes, t) && IsTail(text, maxLines, maxBytes, u)
    ensures t == u
    ensures IsSuffix(t.text, text) && Len(t.text) <= maxBytes
    ensures var budget := if maxLines == 0 then 1 else maxLines;
            && t.keptLines <= budget
            && (!t.truncated <==> Len(text) <= maxBytes && CountLines(text) <= budget)
  {
    hide TailBytes, Lines, Concat, Len, TailFits;
    TailIsSuffix(text, maxLines, maxBytes, t);
    TailUnique(text, maxLines, maxBytes, t, u);
    TailWhole(text, maxLines, maxBytes, t);
    KeptWithinBudget(text, maxLines, maxBytes, t);
  }

  lemma KeptWithinBudget(text: string, maxLines: nat, maxBytes: nat, t: Tail)
    requires IsTail(text, maxLines, maxBytes, t)
    ensures t.keptLines <= if maxLines == 0 then 1 else maxLines
  {
  }

  // ----- the budgets, in so many words -----

  /** No longer run of whole first lines keeps both budgets, and the flag says that the
      bytes, not the lines, ran out. */
  lemma HeadBudgets(text: string, maxLines: nat, maxBytes: nat, h: Head)
    requires IsHead(text, maxLines, maxBytes, h)
    ensures var parts := Lines(text);
            && h.keptLines <= |parts| && h.text == Concat(parts[..h.keptLines])
            && h.keptLines <= maxLines && Len(h.text) <= maxBytes
            && (forall k: nat :: k <= |parts| && k <= maxLines && Len(Concat(parts[..k])) <= maxBytes ==> k <= h.keptLines)
            && (h.byteLimited <==> h.keptLines < |parts| && h.keptLines < maxLines)
  {
    hide Lines, Concat, Len;
    var parts := Lines(text);
    forall k: nat | k <= |parts| && k <= maxLines && Len(Concat(parts[..k])) <= maxBytes
      ensures k <= h.keptLines
    {
      assert HeadFits(parts, maxLines, maxBytes, k);
    }
    if h.keptLines < |parts| && h.keptLines < maxLines {
      assert !HeadFits(parts, maxLines, maxBytes, h.keptLines + 1);
    }
  }

  /** No longer run of whole last lines keeps both budgets, and the flag says that the
      lines within the line budget were too many bytes. A line budget of zero counts
      as one. */
  lemma TailBudgets(text: string, maxLines: nat, maxBytes: nat, t: Tail)
    requires IsTail(text, maxLines, maxBytes, t)
    ensures var parts := Lines(text);
            var budget := if maxLines == 0 then 1 else maxLines;
            var start := if |parts| <= budget then 0 else |parts| - budget;
            && 1 <= t.firstLine <= |parts| + 1
            && (t.byteLimited <==> Len(Concat(parts[start..])) > maxBytes)
            && (!t.cutMidLine ==>
                  && t.text == Concat(parts[t.firstLine - 1..])
                  && |parts| - (t.firstLine - 1) <= budget && Len(t.text) <= maxBytes
                  && forall j: nat :: j <= |parts| && |parts| - j <= budget && Len(Concat(parts[j..])) <= maxBytes ==> t.firstLine - 1 <= j)
  {
    hide Lines, Concat, Len, IsCutOf, IsLongestTail;
    var parts := Lines(text);
    if !t.cutMidLine {
      KeptTail(parts, maxLines, maxBytes, t.firstLine - 1);
      forall j: nat | j <= |parts| && |parts| - j <= (if maxLines == 0 then 1 else maxLines) && Len(Concat(parts[j..])) <= maxBytes
        ensures t.firstLine - 1 <= j
      {
        NoLongerTail(parts, maxLines, maxBytes, t.firstLine - 1, j);
      }
    }
  }

  lemma KeptTail(parts: seq<string>, maxLines: nat, maxBytes: nat, k: nat)
    requires IsLongestTail(parts, maxLines, maxBytes, k)
    ensures k <= |parts| && |parts| - k <= (if maxLines == 0 then 1 else maxLines) && Len(Concat(parts[k..])) <= maxBytes
  {
    hide Concat, Len;
  }

  lemma NoLongerTail(parts: seq<string>, maxLines: nat, maxBytes: nat, k: nat, j: nat)
    requires IsLongestTail(parts, maxLines, maxBytes, k)
    requires j <= |parts| && |parts| - j <= (if maxLines == 0 then 1 else maxLines) && Len(Concat(parts[j..])) <= maxBytes
    ensures k <= j
  {
    hide Concat, Len;
    assert TailFits(parts, maxLines, maxBytes, j);
  }

  /** Of a last line over the byte budget, no longer suffix by whole characters fits. */
  lemma CutBudget(text: string, maxLines: nat, maxBytes: nat, t: Tail)
    requires IsTail(text, maxLines, maxBytes, t)
    ensures var parts := Lines(text);
            && (t.cutMidLine <==> parts != [] && Len(parts[|parts| - 1]) > maxBytes)
            && (t.cutMidLine ==>
                  var last := parts[|parts| - 1];
                  && t.firstLine == |parts| && t.keptLines == 1
                  && IsSuffix(t.text, last) && Len(t.text) <= maxBytes
                  && forall i: nat :: i <= |last| && Len(last[i..]) <= maxBytes ==> |last| - i <= |t.text|)
  {
    hide Lines, Concat, Len;
    var parts := Lines(text);
    if t.cutMidLine {
      var last := parts[|parts| - 1];
      var i: nat :| IsLongestSuffix(last, maxBytes, i) && t.text == last[i..];
      forall j: nat | j <= |last| && Len(last[j..]) <= maxBytes
        ensures |last| - j <= |t.text|
      {
        assert SuffixFits(last, maxBytes, j);
      }
    }
  }
}
