/**
 UTF-8 as section 3 of RFC 3629 defines it. Texts are sequences of scalar
 values; byte offsets, which is what the program computes with, are obtained
 from them through `Len` and `Encode`.
 */
module Utf8 {
  import opened Seqs

  type Byte = b: int | 0 <= b < 256

  function CharLen(c: char): (n: nat)
    ensures 1 <= n <= 4
  {
    var v := c as int;
    if v < 0x80 then 1 else if v < 0x800 then 2 else if v < 0x10000 then 3 else 4
  }

  predicate IsContinuation(b: Byte) {
    0x80 <= b < 0xC0
  }

  function EncodeChar(c: char): (b: seq<Byte>)
    ensures |b| == CharLen(c)
    ensures !IsContinuation(b[0])
    ensures forall k :: 1 <= k < |b| ==> IsContinuation(b[k])
  {
    var v := c as int;
    if v < 0x80 then [v]
    else if v < 0x800 then [0xC0 + v / 64, 0x80 + v % 64]
    else if v < 0x10000 then [0xE0 + v / 4096, 0x80 + v / 64 % 64, 0x80 + v % 64]
    else [0xF0 + v / 262144, 0x80 + v / 4096 % 64, 0x80 + v / 64 % 64, 0x80 + v % 64]
  }

  function Len(s: string): nat {
    if s == [] then 0 else CharLen(s[0]) + Len(s[1..])
  }

  function Encode(s: string): (b: seq<Byte>)
    ensures |b| == Len(s)
  {
    if s == [] then [] else EncodeChar(s[0]) + Encode(s[1..])
  }

  lemma {:induction false} LenAppend(a: string, b: string)
    ensures Len(a + b) == Len(a) + Len(b)
  {
    if a == [] {
      assert a + b == b;
    } else {
      LenAppend(a[1..], b);
      assert (a + b)[1..] == a[1..] + b;
    }
  }

  lemma {:induction false} EncodeAppend(a: string, b: string)
    ensures Encode(a + b) == Encode(a) + Encode(b)
  {
    if a == [] {
      assert a + b == b;
    } else {
      var e, t := EncodeChar(a[0]), Encode(a[1..]);
      AppendTail(a, b);
      EncodeAppend(a[1..], b);
      Assoc(e, t, Encode(b));
    }
  }

  lemma LenPositive(s: string)
    requires s != []
    ensures 0 < Len(s)
  {
  }

  /** Byte offset of a character index. */
  function Offset(s: string, i: nat): nat
    requires i <= |s|
  {
    Len(s[..i])
  }

  lemma OffsetStep(s: string, i: nat)
    requires i < |s|
    ensures Offset(s, i + 1) == Offset(s, i) + CharLen(s[i])
  {
    assert s[..i + 1] == s[..i] + [s[i]];
    LenAppend(s[..i], [s[i]]);
    assert Len([s[i]]) == CharLen(s[i]);
  }

  lemma OffsetMonotone(s: string, i: nat, j: nat)
    requires i <= j <= |s|
    ensures Offset(s, i) <= Offset(s, j) <= Len(s)
    ensures i < j ==> Offset(s, i) < Offset(s, j)
  {
    assert s[..j] == s[..i] + s[i..j];
    LenAppend(s[..i], s[i..j]);
    assert s == s[..j] + s[j..];
    LenAppend(s[..j], s[j..]);
    if i < j {
      LenPositive(s[i..j]);
    }
  }

  /** A byte range cut at character boundaries is the encoding of those characters. */
  lemma SliceEncode(s: string, i: nat, j: nat)
    requires i <= j <= |s|
    ensures Offset(s, i) <= Offset(s, j) <= |Encode(s)|
    ensures Encode(s)[Offset(s, i)..Offset(s, j)] == Encode(s[i..j])
  {
    hide Encode, EncodeChar, Len;
    OffsetMonotone(s, i, j);
    OffsetSlice(s, i, j);
    assert s == s[..i] + s[i..];
    assert s[i..] == s[i..j] + s[j..];
    EncodeAppend(s[..i], s[i..]);
    EncodeAppend(s[i..j], s[j..]);
    Middle(Encode(s[..i]), Encode(s[i..j]), Encode(s[j..]));
  }

  lemma OffsetSlice(s: string, i: nat, j: nat)
    requires i <= j <= |s|
    ensures Offset(s, j) == Offset(s, i) + Len(s[i..j])
  {
    assert s[..j] == s[..i] + s[i..j];
    LenAppend(s[..i], s[i..j]);
  }

  // ----- character boundaries -----

  /** `str::is_char_boundary`, stated on characters. */
  predicate IsBoundary(s: string, k: nat) {
    k == 0 || (s != [] && CharLen(s[0]) <= k && IsBoundary(s[1..], k - CharLen(s[0])))
  }

  /** A boundary is the end of the text or a byte that is no continuation byte. */
  lemma {:induction false} BoundaryByte(s: string, k: nat)
    requires k <= Len(s)
    ensures IsBoundary(s, k) <==> k == Len(s) || !IsContinuation(Encode(s)[k])
  {
    if s != [] && 0 < k {
      var n := CharLen(s[0]);
      assert Encode(s) == EncodeChar(s[0]) + Encode(s[1..]);
      if n <= k {
        BoundaryByte(s[1..], k - n);
      } else {
        assert Encode(s)[k] == EncodeChar(s[0])[k];
      }
    }
  }

  /** Boundaries are exactly the byte offsets of character indices. */
  lemma {:induction false} BoundaryIndex(s: string, k: nat) returns (i: nat)
    requires IsBoundary(s, k)
    ensures i <= |s| && Offset(s, i) == k
  {
    if k == 0 {
      i := 0;
    } else {
      var j := BoundaryIndex(s[1..], k - CharLen(s[0]));
      i := j + 1;
      assert s[..i][1..] == s[1..][..j];
    }
  }

  lemma {:induction false} IndexBoundary(s: string, i: nat)
    requires i <= |s|
    ensures IsBoundary(s, Offset(s, i))
  {
    if i > 0 {
      IndexBoundary(s[1..], i - 1);
      assert s[..i][1..] == s[1..][..i - 1];
    }
  }

  // ----- decoding -----

  /** The scalar value `v`, if there is one and `b` starts with its encoding. */
  function Checked(v: int, b: seq<Byte>): Option<char> {
    if (0 <= v < 0xD800 || 0xE000 <= v < 0x110000) && EncodeChar(v as char) <= b
    then Some(v as char) else None
  }

  function Payload(b: Byte): int {
    b as int - 0x80
  }

  /** The character `b` starts with; overlong forms and surrogates are rejected. */
  function DecodeChar(b: seq<Byte>): (r: Option<char>)
    requires b != []
    ensures r.Some? ==> EncodeChar(r.value) <= b
  {
    var lead: int := b[0];
    if lead < 0x80 then Checked(lead, b)
    else if lead < 0xE0 then
      if |b| < 2 then None else Checked((lead - 0xC0) * 64 + Payload(b[1]), b)
    else if lead < 0xF0 then
      if |b| < 3 then None
      else Checked((lead - 0xE0) * 4096 + Payload(b[1]) * 64 + Payload(b[2]), b)
    else if |b| < 4 then None
    else Checked((lead - 0xF0) * 262144 + Payload(b[1]) * 4096 + Payload(b[2]) * 64 + Payload(b[3]), b)
  }

  /** `String::from_utf8`. */
  function Decode(b: seq<Byte>): (r: Option<string>)
    ensures r.Some? ==> Encode(r.value) == b
  {
    if b == [] then Some([])
    else
      var c := DecodeChar(b);
      if c.None? then None
      else
        var rest := Decode(b[CharLen(c.value)..]);
        if rest.None? then None else Some([c.value] + rest.value)
  }

  /** Six-bit groups put back together give the scalar value. */
  lemma SixBitGroups(v: nat)
    ensures v / 64 * 64 + v % 64 == v
    ensures v / 4096 * 4096 + v / 64 % 64 * 64 + v % 64 == v
    ensures v / 262144 * 262144 + v / 4096 % 64 * 4096 + v / 64 % 64 * 64 + v % 64 == v
  {
    var q := v / 64;
    var r := q / 64;
    assert v / 4096 == r;
    assert v / 262144 == r / 64;
    assert q == r * 64 + q % 64;
    assert r == r / 64 * 64 + r % 64;
  }

  lemma DecodeCharEncoded(c: char, rest: seq<Byte>)
    ensures DecodeChar(EncodeChar(c) + rest) == Some(c)
  {
    var e := EncodeChar(c);
    var b := e + rest;
    var v := c as int;
    SixBitGroups(v);
    assert forall k :: 0 <= k < |e| ==> b[k] == e[k];
    assert Checked(v, b) == Some(c) by {
      assert v as char == c;
      assert b[..|e|] == e;
    }
  }

  lemma {:induction false} DecodeEncode(s: string)
    ensures Decode(Encode(s)) == Some(s)
  {
    if s != [] {
      DecodeCharEncoded(s[0], Encode(s[1..]));
      DecodeEncode(s[1..]);
      assert Encode(s)[CharLen(s[0])..] == Encode(s[1..]);
      assert s == [s[0]] + s[1..];
    }
  }

  lemma EncodeInjective(a: string, b: string)
    requires Encode(a) == Encode(b)
    ensures a == b
  {
    DecodeEncode(a);
    DecodeEncode(b);
  }

  lemma {:induction false} EncodePrefix(a: string, b: string)
    requires Encode(a) <= Encode(b)
    ensures a <= b
  {
    if a != [] {
      LenPositive(a);
      var x, y := Encode(a[1..]), Encode(b[1..]);
      assert b != [];
      DecodeCharEncoded(a[0], x);
      DecodeCharEncoded(b[0], y);
      assert Encode(a) == EncodeChar(a[0]) + x && Encode(b) == EncodeChar(b[0]) + y;
      hide EncodeChar, DecodeChar, Encode;
      SamePrefixChar(a[0], x, b[0], y);
      assert x <= y by {
        assert Encode(b)[CharLen(a[0])..] == y && Encode(a)[CharLen(a[0])..] == x;
      }
      EncodePrefix(a[1..], b[1..]);
    }
  }

  lemma SamePrefixChar(c: char, x: seq<Byte>, d: char, y: seq<Byte>)
    requires EncodeChar(c) + x <= EncodeChar(d) + y
    ensures c == d
  {
    var rest := (EncodeChar(d) + y)[CharLen(c)..];
    assert EncodeChar(c) + rest == EncodeChar(d) + y;
    DecodeCharEncoded(c, rest);
    DecodeCharEncoded(d, y);
  }

  /** A byte match starts at a character and is a character match. */
  lemma ByteMatchIsCharMatch(text: string, needle: string, k: nat) returns (i: nat)
    requires needle != [] && OccursAt(Encode(text), Encode(needle), k)
    ensures i <= |text| && Offset(text, i) == k && OccursAt(text, needle, i)
  {
    LenPositive(needle);
    FirstByte(needle);
    hide Encode, Len, EncodeChar, IsBoundary;
    assert Encode(text)[k] == Encode(text)[k..k + |Encode(needle)|][0];
    BoundaryByte(text, k);
    i := BoundaryIndex(text, k);
    SliceEncode(text, i, |text|);
    assert text[..|text|] == text;
    assert Encode(text[i..]) == Encode(text)[k..];
    hide OccursAt;
    assert Encode(needle) <= Encode(text[i..]);
    EncodePrefix(needle, text[i..]);
    PrefixOccurs(text, needle, i);
  }

  lemma PrefixOccurs<T>(text: seq<T>, needle: seq<T>, i: nat)
    requires i <= |text| && needle <= text[i..]
    ensures OccursAt(text, needle, i)
  {
  }

  lemma FirstByte(s: string)
    requires s != []
    ensures Encode(s) != [] && !IsContinuation(Encode(s)[0])
  {
    hide EncodeChar;
    assert Encode(s)[0] == EncodeChar(s[0])[0];
  }

  lemma CharMatchIsByteMatch(text: string, needle: string, i: nat)
    requires OccursAt(text, needle, i)
    ensures OccursAt(Encode(text), Encode(needle), Offset(text, i))
  {
    hide Encode, EncodeChar;
    SliceEncode(text, i, i + |needle|);
    OffsetSlice(text, i, i + |needle|);
  }

  /** UTF-8 is self-synchronising: a byte search finds exactly the character matches. */
  lemma ByteSearch(text: string, needle: string, k: nat)
    requires needle != []
    ensures OccursAt(Encode(text), Encode(needle), k) <==>
            exists i: nat :: i <= |text| && Offset(text, i) == k && OccursAt(text, needle, i)
  {
    hide Encode, Len, EncodeChar;
    if OccursAt(Encode(text), Encode(needle), k) {
      var i := ByteMatchIsCharMatch(text, needle, k);
    }
    if i: nat :| i <= |text| && Offset(text, i) == k && OccursAt(text, needle, i) {
      CharMatchIsByteMatch(text, needle, i);
    }
  }

  /** One character of each length. */
  lemma EncodedExamples()
    ensures EncodeChar('A') == [0x41]
    ensures EncodeChar('\U{00E9}') == [0xC3, 0xA9]
    ensures EncodeChar('\U{20AC}') == [0xE2, 0x82, 0xAC]
    ensures EncodeChar('\U{1F600}') == [0xF0, 0x9F, 0x98, 0x80]
  {
    SixBitGroups('\U{1F600}' as int);
  }
}
