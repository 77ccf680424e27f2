/** BOM and line-ending preservation (fs/text.rs). */
module LineEndings {
  import opened Seqs
  import opened Utf8

  const BOM: char := '\U{FEFF}'

  /** `strip_bom`: whether the text started with U+FEFF, and the rest. */
  function StripBom(text: string): (bool, string) {
    if text != [] && text[0] == BOM then (true, text[1..]) else (false, text)
  }

  /** `restore_bom` fills one byte buffer: the BOM if there was one, then the content. */
  method RestoreBom(hadBom: bool, content: seq<Byte>) returns (bytes: seq<Byte>)
    ensures bytes == WithBom(hadBom, content)
  {
    bytes := [];
    if hadBom {
      bytes := bytes + Encode([BOM]);
    }
    bytes := bytes + content;
  }

  function WithBom(hadBom: bool, content: seq<Byte>): seq<Byte> {
    (if hadBom then Encode([BOM]) else []) + content
  }

  lemma BomRoundTrip(text: string)
    ensures WithBom(StripBom(text).0, Encode(StripBom(text).1)) == Encode(text)
  {
    var (had, rest) := StripBom(text);
    if had {
      assert text == [BOM] + rest;
      EncodeAppend([BOM], rest);
    }
  }

  predicate StartsCrLf(s: string) {
    2 <= |s| && s[0] == '\r' && s[1] == '\n'
  }

  /** `text.matches("\r\n").count()` */
  function CountCrLf(s: string): nat {
    if s == [] then 0
    else if StartsCrLf(s) then 1 + CountCrLf(s[2..])
    else CountCrLf(s[1..])
  }

  function CountLf(s: string): nat {
    if s == [] then 0 else (if s[0] == '\n' then 1 else 0) + CountLf(s[1..])
  }

  /** CRLF when CRLF endings dominate. */
  predicate IsCrLf(content: string) {
    var crlf := CountCrLf(content);
    var lf := CountLf(content);
    var loneLf := if lf < crlf then 0 else lf - crlf;
    crlf > 0 && crlf > loneLf
  }

  /** `text.replace("\r\n", "\n")` */
  function StripCr(s: string): string {
    if s == [] then []
    else if StartsCrLf(s) then "\n" + StripCr(s[2..])
    else [s[0]] + StripCr(s[1..])
  }

  /** `text.replace('\n', "\r\n")` */
  function ExpandLf(s: string): string {
    if s == [] then []
    else if s[0] == '\n' then "\r\n" + ExpandLf(s[1..])
    else [s[0]] + ExpandLf(s[1..])
  }

  function Adopt(text: string, crlf: bool): string {
    if crlf then ExpandLf(StripCr(text)) else StripCr(text)
  }

  /** Every LF is preceded by a CR; `before` is the character ahead of the text. */
  predicate NoBareLfAfter(before: char, s: string)
    decreases |s|
  {
    s == [] || ((s[0] == '\n' ==> before == '\r') && NoBareLfAfter(s[0], s[1..]))
  }

  predicate NoBareLf(s: string) {
    NoBareLfAfter('\0', s)
  }

  function CharBefore(before: char, s: string, i: nat): char
    requires i < |s|
  {
    if i == 0 then before else s[i - 1]
  }

  lemma {:induction false} NoBareLfPointwise(before: char, s: string)
    ensures NoBareLfAfter(before, s) <==>
            forall i :: 0 <= i < |s| && s[i] == '\n' ==> CharBefore(before, s, i) == '\r'
    decreases |s|
  {
    if s != [] {
      NoBareLfPointwise(s[0], s[1..]);
      if NoBareLfAfter(before, s) {
        forall i | 0 <= i < |s| && s[i] == '\n'
          ensures CharBefore(before, s, i) == '\r'
        {
          assert i > 0 ==> s[1..][i - 1] == '\n' && CharBefore(s[0], s[1..], i - 1) == '\r';
        }
      } else if s[0] == '\n' && before != '\r' {
        assert CharBefore(before, s, 0) != '\r';
      } else {
        var i :| 0 <= i < |s| - 1 && s[1..][i] == '\n' && CharBefore(s[0], s[1..], i) != '\r';
        assert s[i + 1] == '\n' && CharBefore(before, s, i + 1) != '\r';
      }
    }
  }

  /** Stripping CRLF after expanding LF is the identity. */
  lemma {:induction false} StripAfterExpand(s: string)
    ensures StripCr(ExpandLf(s)) == s
  {
    if s != [] {
      StripAfterExpand(s[1..]);
      assert s == [s[0]] + s[1..];
      var e := ExpandLf(s[1..]);
      if s[0] == '\n' {
        assert ("\r\n" + e)[2..] == e;
      } else {
        assert ([s[0]] + e)[1..] == e;
        assert e != [] ==> e[0] != '\n';
      }
    }
  }

  lemma {:induction false} ExpandNoBareLf(before: char, s: string)
    ensures NoBareLfAfter(before, ExpandLf(s))
    decreases |s|
  {
    if s != [] {
      var e := ExpandLf(s[1..]);
      if s[0] == '\n' {
        ExpandNoBareLf('\n', s[1..]);
        assert ("\r\n" + e)[1..] == "\n" + e;
        assert ("\n" + e)[1..] == e;
      } else {
        ExpandNoBareLf(s[0], s[1..]);
        assert ([s[0]] + e)[1..] == e;
      }
    }
  }

  /** Adopting CRLF endings leaves no bare LF and is idempotent. */
  lemma AdoptCrLf(text: string)
    ensures NoBareLf(Adopt(text, true))
    ensures Adopt(Adopt(text, true), true) == Adopt(text, true)
  {
    ExpandNoBareLf('\0', StripCr(text));
    StripAfterExpand(StripCr(text));
  }

  lemma {:induction false} StripFixed(s: string)
    ensures StripCr(s) == s <==> forall i :: 0 <= i < |s| - 1 ==> !StartsCrLf(s[i..])
  {
    StripShorter(s);
    if s != [] {
      StripFixed(s[1..]);
      assert forall i :: 0 <= i < |s| - 1 ==> s[1..][i..] == s[i + 1..];
      if StartsCrLf(s) {
        StripShorter(s[2..]);
        assert StartsCrLf(s[0..]);
      } else {
        assert StripCr(s)[1..] == StripCr(s[1..]);
        assert s[0..] == s;
        forall i | 0 <= i < |s| - 1 && StripCr(s) == s
          ensures !StartsCrLf(s[i..])
        {
          if i > 0 {
            assert s[1..][i - 1..] == s[i..];
          }
        }
        if StripCr(s[1..]) != s[1..] {
          var i :| 0 <= i < |s[1..]| - 1 && StartsCrLf(s[1..][i..]);
          assert s[1..][i..] == s[i + 1..];
        }
      }
    }
  }

  lemma {:induction false} StripShorter(s: string)
    ensures |StripCr(s)| <= |s|
  {
    if s != [] {
      StripShorter(s[1..]);
      if StartsCrLf(s) {
        StripShorter(s[2..]);
      }
    }
  }

  predicate StartsCrCrLf(s: string) {
    3 <= |s| && s[0] == '\r' && s[1] == '\r' && s[2] == '\n'
  }

  /** Where CRLF shows up once CRLF has been stripped: exactly at CR CR LF. */
  lemma {:induction false} StripLeavesCrLf(s: string)
    ensures (exists i :: 0 <= i < |StripCr(s)| && StartsCrLf(StripCr(s)[i..])) <==>
            (exists i :: 0 <= i < |s| && StartsCrCrLf(s[i..]))
  {
    if s != [] {
      var n := if StartsCrLf(s) then 2 else 1;
      var t := StripCr(s[n..]);
      StripLeavesCrLf(s[n..]);
      assert StripCr(s)[1..] == t;
      assert forall i :: 0 <= i < |t| ==> StripCr(s)[i + 1..] == t[i..];
      assert forall i :: 0 <= i < |s| - n ==> s[i + n..] == s[n..][i..];
      assert StripCr(s)[0..] == StripCr(s) && s[0..] == s;
      assert n == 2 ==> !StartsCrCrLf(s[0..]) && !StartsCrCrLf(s[1..]);
      assert StartsCrLf(StripCr(s)) <==> StartsCrCrLf(s) by {
        if n == 1 && s[0] == '\r' && 2 <= |s| {
          assert t[0] == if StartsCrLf(s[1..]) then '\n' else s[1];
          assert StartsCrLf(s[1..]) <==> StartsCrCrLf(s);
        }
      }
      if i :| 0 <= i < |StripCr(s)| && StartsCrLf(StripCr(s)[i..]) {
        if i > 0 {
          assert StartsCrLf(t[i - 1..]);
          var k :| 0 <= k < |s[n..]| && StartsCrCrLf(s[n..][k..]);
          assert StartsCrCrLf(s[k + n..]);
        }
      }
      if i :| 0 <= i < |s| && StartsCrCrLf(s[i..]) {
        if i >= n {
          assert StartsCrCrLf(s[n..][i - n..]);
          var k :| 0 <= k < |t| && StartsCrLf(t[k..]);
          assert StartsCrLf(StripCr(s)[k + 1..]);
        }
      }
    }
  }

  /** Adopting LF endings is idempotent on exactly the texts without CR CR LF. */
  lemma AdoptLfIdempotent(text: string)
    ensures Adopt(Adopt(text, false), false) == Adopt(text, false) <==>
            forall i :: 0 <= i < |text| ==> !StartsCrCrLf(text[i..])
  {
    StripFixed(StripCr(text));
    StripLeavesCrLf(text);
    var t := StripCr(text);
    if i :| 0 <= i < |t| && StartsCrLf(t[i..]) {
      assert 0 <= i < |t| - 1;
    }
  }

  lemma AdoptLfNotIdempotent()
    ensures Adopt("\r\r\n", false) == "\r\n"
    ensures Adopt(Adopt("\r\r\n", false), false) == "\n"
  {
    assert "\r\r\n"[1..] == "\r\n";
    assert "\r\n"[2..] == "";
  }

  /** The last character of a text, or `before` when it is empty. */
  function LastOr(before: char, s: string): char {
    if s == [] then before else s[|s| - 1]
  }

  lemma {:induction false} NoBareLfAppend(before: char, a: string, b: string)
    ensures NoBareLfAfter(before, a + b) <==>
            NoBareLfAfter(before, a) && NoBareLfAfter(LastOr(before, a), b)
    decreases |a|
  {
    if a == [] {
      assert a + b == b;
    } else {
      NoBareLfAppend(a[0], a[1..], b);
      assert (a + b)[1..] == a[1..] + b;
    }
  }

  /** Only the first character of a text depends on what precedes it. */
  lemma NoBareLfFirst(before: char, s: string)
    ensures NoBareLfAfter(before, s) <==>
            (s != [] && s[0] == '\n' ==> before == '\r') && NoBareLfAfter('\r', s)
  {
  }

  /** Without a bare LF every LF is counted as part of a CRLF. */
  lemma {:induction false} AllCrLfCounts(before: char, s: string)
    requires NoBareLfAfter(before, s)
    ensures CountLf(s) == CountCrLf(s) + if before == '\r' && s != [] && s[0] == '\n' then 1 else 0
    decreases |s|
  {
    if s != [] {
      AllCrLfCounts(s[0], s[1..]);
      if StartsCrLf(s) {
        AllCrLfCounts('\n', s[2..]);
        assert s[1..][1..] == s[2..];
      }
    }
  }

  /** A file whose only endings are CRLF, and that has one, is a CRLF file. */
  lemma OnlyCrLfIsCrLf(content: string)
    requires NoBareLf(content) && CountLf(content) > 0
    ensures IsCrLf(content)
  {
    AllCrLfCounts('\0', content);
  }

  // ----- texts without CRLF -----

  /** No LF is preceded by a CR; `before` is the character ahead of the text. */
  predicate NoCrLfAfter(before: char, s: string)
    decreases |s|
  {
    s == [] || (!(before == '\r' && s[0] == '\n') && NoCrLfAfter(s[0], s[1..]))
  }

  predicate NoCrLf(s: string) {
    NoCrLfAfter('\0', s)
  }

  lemma {:induction false} NoCrLfAppend(before: char, a: string, b: string)
    ensures NoCrLfAfter(before, a + b) <==> NoCrLfAfter(before, a) && NoCrLfAfter(LastOr(before, a), b)
    decreases |a|
  {
    if a == [] {
      assert a + b == b;
    } else {
      NoCrLfAppend(a[0], a[1..], b);
      assert (a + b)[1..] == a[1..] + b;
    }
  }

  lemma NoCrLfFirst(before: char, s: string)
    ensures NoCrLfAfter(before, s) <==> !(s != [] && s[0] == '\n' && before == '\r') && NoCrLf(s)
  {
  }

  lemma {:induction false} NoCrLfPointwise(s: string)
    ensures NoCrLf(s) <==> forall i :: 0 <= i < |s| ==> !StartsCrLf(s[i..])
  {
    if s != [] {
      var t := s[1..];
      NoCrLfPointwise(t);
      NoCrLfFirst(s[0], t);
      assert forall i :: 0 <= i < |t| ==> t[i..] == s[i + 1..];
      assert s[0..] == s;
      if NoCrLf(s) {
        forall i | 0 <= i < |s|
          ensures !StartsCrLf(s[i..])
        {
          assert i > 0 ==> s[i..] == t[i - 1..];
        }
      }
      if forall i :: 0 <= i < |s| ==> !StartsCrLf(s[i..]) {
        forall i | 0 <= i < |t|
          ensures !StartsCrLf(t[i..])
        {
          assert !StartsCrLf(s[i + 1..]);
        }
        assert !StartsCrLf(s[0..]);
      }
    }
  }

  ghost predicate HasCrCrLf(s: string) {
    exists i :: 0 <= i < |s| && StartsCrCrLf(s[i..])
  }

  /** Adopting LF endings leaves a CRLF exactly where there was CR CR LF. */
  lemma AdoptLfCrLf(text: string)
    ensures NoCrLf(Adopt(text, false)) <==> !HasCrCrLf(text)
  {
    NoCrLfPointwise(StripCr(text));
    StripLeavesCrLf(text);
  }

  /** A text without CRLF does not count as a CRLF file. */
  lemma NoCrLfCounts(s: string)
    requires NoCrLf(s)
    ensures CountCrLf(s) == 0 && !IsCrLf(s)
  {
    NoCrLfPointwise(s);
    NoneCounted(s);
  }

  lemma {:induction false} NoneCounted(s: string)
    requires forall i :: 0 <= i < |s| ==> !StartsCrLf(s[i..])
    ensures CountCrLf(s) == 0
  {
    if s != [] {
      assert !StartsCrLf(s[0..]) && s[0..] == s;
      forall i | 0 <= i < |s| - 1
        ensures !StartsCrLf(s[1..][i..])
      {
        assert s[1..][i..] == s[i + 1..];
      }
      NoneCounted(s[1..]);
    }
  }

  // ----- what the functions on line endings are -----

  /** An LF with a CR in front. */
  predicate IsJoined(s: string, i: nat)
    requires i < |s|
  {
    s[i] == '\n' && CharBefore('\0', s, i) == '\r'
  }

  /** Any other LF. */
  predicate IsAlone(s: string, i: nat)
    requires i < |s|
  {
    s[i] == '\n' && CharBefore('\0', s, i) != '\r'
  }

  ghost function LfBehindCr(s: string): set<nat> {
    set i: nat | i < |s| && IsJoined(s, i)
  }

  ghost function LfAlone(s: string): set<nat> {
    set i: nat | i < |s| && IsAlone(s, i)
  }

  lemma {:induction false} CountCrLfSnoc(s: string, c: char)
    ensures CountCrLf(s + [c]) == CountCrLf(s) + if c == '\n' && s != [] && s[|s| - 1] == '\r' then 1 else 0
    decreases |s|
  {
    var t := s + [c];
    if s == [] {
      assert t[1..] == [];
    } else if StartsCrLf(s) {
      CountCrLfSnoc(s[2..], c);
      assert t[2..] == s[2..] + [c];
    } else if |s| == 1 {
      assert s[1..] == [];
      assert t[1..] == [c] && t[2..] == [] && [c][1..] == [];
    } else {
      CountCrLfSnoc(s[1..], c);
      assert t[1..] == s[1..] + [c];
    }
  }

  lemma {:induction false} CountLfSnoc(s: string, c: char)
    ensures CountLf(s + [c]) == CountLf(s) + if c == '\n' then 1 else 0
  {
    var t := s + [c];
    if s == [] {
      assert t[1..] == [];
    } else {
      CountLfSnoc(s[1..], c);
      assert t[1..] == s[1..] + [c];
    }
  }

  lemma SameInside(t: string, c: char, i: nat)
    requires i < |t|
    ensures IsJoined(t + [c], i) == IsJoined(t, i) && IsAlone(t + [c], i) == IsAlone(t, i)
  {
  }

  lemma OneMore(a: set<nat>, b: set<nat>, n: nat, more: bool)
    requires n !in a && forall i :: i in b <==> i in a || (more && i == n)
    ensures |b| == |a| + if more then 1 else 0
  {
    assert b == a + if more then {n} else {};
  }

  lemma SetsSnoc(t: string, c: char)
    ensures var s, n := t + [c], |t|;
            && |LfBehindCr(s)| == |LfBehindCr(t)| + (if IsJoined(s, n) then 1 else 0)
            && |LfAlone(s)| == |LfAlone(t)| + (if IsAlone(s, n) then 1 else 0)
  {
    hide IsJoined, IsAlone;
    var s, n := t + [c], |t|;
    forall i: nat
      ensures i in LfBehindCr(s) <==> i in LfBehindCr(t) || (IsJoined(s, n) && i == n)
      ensures i in LfAlone(s) <==> i in LfAlone(t) || (IsAlone(s, n) && i == n)
    {
      if i < n {
        SameInside(t, c, i);
      }
    }
    OneMore(LfBehindCr(t), LfBehindCr(s), n, IsJoined(s, n));
    OneMore(LfAlone(t), LfAlone(s), n, IsAlone(s, n));
  }

  lemma {:induction false} Counted(s: string)
    ensures CountCrLf(s) == |LfBehindCr(s)| && CountLf(s) == |LfBehindCr(s)| + |LfAlone(s)|
    decreases |s|
  {
    if s == [] {
      assert LfBehindCr(s) == {} && LfAlone(s) == {};
    } else {
      hide CountCrLf, CountLf, LfBehindCr, LfAlone;
      var n := |s| - 1;
      Counted(s[..n]);
      assert s == s[..n] + [s[n]];
      CountCrLfSnoc(s[..n], s[n]);
      CountLfSnoc(s[..n], s[n]);
      SetsSnoc(s[..n], s[n]);
    }
  }

  /** A file counts as CRLF exactly when more of its LFs have a CR in front than not. */
  lemma CrLfDominates(content: string)
    ensures IsCrLf(content) <==> |LfBehindCr(content)| > |LfAlone(content)|
  {
    Counted(content);
    hide LfBehindCr, LfAlone, CountCrLf, CountLf;
  }

  lemma StripTwo(rest: string)
    ensures StripCr("\r\n" + rest) == "\n" + StripCr(rest)
  {
    assert ("\r\n" + rest)[2..] == rest;
  }

  lemma StripOne(c: char, rest: string)
    requires !(c == '\r' && rest != [] && rest[0] == '\n')
    ensures StripCr([c] + rest) == [c] + StripCr(rest)
  {
    assert ([c] + rest)[1..] == rest;
  }

  /** A CR LF becomes an LF, wherever it stands. */
  lemma {:induction false} StripAt(a: string, b: string)
    ensures StripCr(a + ("\r\n" + b)) == StripCr(a) + ("\n" + StripCr(b))
    decreases |a|
  {
    var t, u := "\r\n" + b, "\n" + StripCr(b);
    if a == [] {
      assert a + t == t;
      StripTwo(b);
      assert [] + u == u;
    } else {
      hide StripCr;
      if StartsCrLf(a) {
        var rest := a[2..];
        assert a == "\r\n" + rest;
        StripAt(rest, b);
        Assoc("\r\n", rest, t);
        StripTwo(rest + t);
        StripTwo(rest);
        Assoc("\n", StripCr(rest), u);
      } else {
        var c, rest := a[0], a[1..];
        assert a == [c] + rest;
        StripAt(rest, b);
        Assoc([c], rest, t);
        assert (rest + t)[0] == if rest == [] then '\r' else a[1];
        StripOne(c, rest + t);
        StripOne(c, rest);
        Assoc([c], StripCr(rest), u);
      }
    }
  }

  lemma {:induction false} ExpandParts(a: string, b: string)
    ensures ExpandLf(a + b) == ExpandLf(a) + ExpandLf(b)
  {
    if a == [] {
      assert a + b == b;
      assert [] + ExpandLf(b) == ExpandLf(b);
    } else {
      hide ExpandLf;
      var c, rest := a[0], a[1..];
      var head := if c == '\n' then "\r\n" else [c];
      ExpandParts(rest, b);
      assert a == [c] + rest;
      Assoc([c], rest, b);
      ExpandCons(c, rest);
      ExpandCons(c, rest + b);
      Assoc(head, ExpandLf(rest), ExpandLf(b));
    }
  }

  lemma ExpandCons(c: char, rest: string)
    ensures ExpandLf([c] + rest) == (if c == '\n' then "\r\n" else [c]) + ExpandLf(rest)
  {
    assert ([c] + rest)[1..] == rest;
  }

  lemma {:induction false} ExpandNone(s: string)
    requires '\n' !in s
    ensures ExpandLf(s) == s
  {
    if s != [] {
      ExpandNone(s[1..]);
      assert s == [s[0]] + s[1..];
    }
  }

  /** Adopting LF: a text without CRLF stays as it is, and each CRLF becomes an LF. */
  lemma AdoptLfMeaning(a: string, b: string)
    requires NoCrLf(a)
    ensures Adopt(a, false) == a
    ensures Adopt(a + ("\r\n" + b), false) == a + ("\n" + Adopt(b, false))
  {
    NoCrLfPointwise(a);
    StripFixed(a);
    StripAt(a, b);
  }

  /** Adopting CRLF: a text without LF stays as it is, and an LF, with a CR in front or
      not, becomes a CRLF. */
  lemma AdoptCrLfMeaning(a: string, b: string)
    requires '\n' !in a && (a != [] ==> a[|a| - 1] != '\r')
    ensures Adopt(a, true) == a
    ensures Adopt(a + ("\n" + b), true) == a + ("\r\n" + Adopt(b, true))
    ensures Adopt(a + ("\r\n" + b), true) == a + ("\r\n" + Adopt(b, true))
  {
    NoLfStripped(a);
    StripAt(a, b);
    StripLf(a, b);
    ExpandNone(a);
    var t := "\n" + StripCr(b);
    ExpandParts(a, t);
    assert t[1..] == StripCr(b);
    assert ExpandLf(t) == "\r\n" + ExpandLf(StripCr(b));
  }

  lemma {:induction false} NoLfStripped(a: string)
    requires '\n' !in a
    ensures StripCr(a) == a
  {
    if a != [] {
      NoLfStripped(a[1..]);
      assert a == [a[0]] + a[1..];
    }
  }

  lemma {:induction false} StripLf(a: string, b: string)
    requires '\n' !in a && (a != [] ==> a[|a| - 1] != '\r')
    ensures StripCr(a + ("\n" + b)) == a + ("\n" + StripCr(b))
  {
    hide StripCr;
    if a == [] {
      StripOne('\n', b);
      assert a + ("\n" + b) == "\n" + b;
      assert a + ("\n" + StripCr(b)) == "\n" + StripCr(b);
    } else {
      var c, rest := a[0], a[1..];
      assert a == [c] + rest;
      assert |a| > 1 ==> rest[0] == a[1] && rest[|rest| - 1] == a[|a| - 1];
      StripLf(rest, b);
      Assoc([c], rest, "\n" + b);
      assert (rest + ("\n" + b))[0] == if rest == [] then '\n' else rest[0];
      StripOne(c, rest + ("\n" + b));
      Assoc([c], rest, "\n" + StripCr(b));
    }
  }

  /** A text has a BOM exactly when its bytes begin with EF BB BF, and that is what is
      put in front again. */
  lemma BomMeaning(text: string, content: seq<Byte>)
    ensures StripBom(text).0 <==> [0xEF, 0xBB, 0xBF] <= Encode(text)
    ensures StripBom(text).0 ==> Encode(StripBom(text).1) == Encode(text)[3..]
    ensures !StripBom(text).0 ==> StripBom(text).1 == text
    ensures WithBom(true, content) == [0xEF, 0xBB, 0xBF] + content && WithBom(false, content) == content
  {
    BomBytes();
    hide EncodeChar, Encode;
    if StripBom(text).0 {
      assert text == [BOM] + text[1..];
      EncodeAppend([BOM], text[1..]);
    }
    if Encode([BOM]) <= Encode(text) {
      EncodePrefix([BOM], text);
    }
    assert [] + content == content;
  }

  lemma BomBytes()
    ensures Encode([BOM]) == [0xEF, 0xBB, 0xBF]
  {
    assert [BOM][1..] == [];
    assert EncodeChar(BOM) == [0xEF, 0xBB, 0xBF];
  }
}
