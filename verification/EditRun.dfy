/** The `edit` tool's computation, from the bytes read to the bytes written (tools/edit.rs). */
module EditRun {
  import opened Seqs
  import opened Sorting
  import opened Utf8
  import opened Normalizer
  import opened PositionMap
  import opened Matching
  import opened Splice
  import opened LineEndings

  const BINARY_SNIFF_LEN: nat := 8192

  datatype EditEntry = EditEntry(oldText: string, newText: string)

  datatype EditError =
    | NoEdits
    | EmptyOldText
    | FileNotFound
    | Binary
    | NotUtf8
    | TextNotFound(index: nat)
    | Ambiguous(index: nat, count: nat)
    | Overlap(low: nat, high: nat)
    | NoChange

  datatype EditResult<T> = Ok(value: T) | Err(error: EditError)

  datatype Matched = Matched(ms: seq<Match<char>>) | Failed(error: EditError)

  ghost predicate NoneEmpty(edits: seq<EditEntry>) {
    forall i :: 0 <= i < |edits| ==> edits[i].oldText != []
  }

  // ----- the specification, on characters -----

  /** Every edit matched against the original content; the first failure wins. */
  function MatchFrom(nfkc: Nfkc, content: string, crlf: bool, edits: seq<EditEntry>, index: nat): Matched
    requires index <= |edits| && NoneEmpty(edits)
    decreases |edits| - index
  {
    if index == |edits| then Matched([])
    else
      match FindUnique(nfkc, content, edits[index].oldText)
      case NotFound => Failed(TextNotFound(index))
      case Multiple(n) => Failed(Ambiguous(index, n))
      case Found(r) =>
        var rest := MatchFrom(nfkc, content, crlf, edits, index + 1);
        if rest.Failed? then rest
        else Matched([Match(index, r.start, r.end, Adopt(edits[index].newText, crlf))] + rest.ms)
  }

  lemma {:induction false} MatchesInRange(nfkc: Nfkc, content: string, crlf: bool, edits: seq<EditEntry>, index: nat)
    requires index <= |edits| && NoneEmpty(edits)
    requires MatchFrom(nfkc, content, crlf, edits, index).Matched?
    ensures var ms := MatchFrom(nfkc, content, crlf, edits, index).ms;
            && |ms| == |edits| - index
            && InRange(ms, |content|)
            && forall k :: 0 <= k < |ms| ==> ms[k].index == index + k
    decreases |edits| - index
  {
    hide FindUnique, Adopt;
    if index < |edits| {
      FoundMeaning(nfkc, content, edits[index].oldText);
      MatchesInRange(nfkc, content, crlf, edits, index + 1);
    }
  }

  /** Matching, overlap check, replacement and the check for a change. */
  function EditText(nfkc: Nfkc, content: string, edits: seq<EditEntry>): EditResult<string>
    requires NoneEmpty(edits)
  {
    var m := MatchFrom(nfkc, content, IsCrLf(content), edits, 0);
    if m.Failed? then Err(m.error)
    else
      var sorted := SortBy(m.ms, Start);
      var overlap := FirstOverlap(sorted);
      if overlap.Some? then Err(Overlap(overlap.value.0, overlap.value.1))
      else
        MatchesInRange(nfkc, content, IsCrLf(content), edits, 0);
        AdjacentCheckExact(m.ms, |content|);
        var final := Substitute(content, sorted, 0);
        if final == content then Err(NoChange) else Ok(final)
  }

  function Sniff(bytes: seq<Byte>): seq<Byte> {
    if |bytes| < BINARY_SNIFF_LEN then bytes else bytes[..BINARY_SNIFF_LEN]
  }

  /** `run`, as a function of the file's bytes. */
  function Outcome(nfkc: Nfkc, file: Option<seq<Byte>>, edits: seq<EditEntry>): EditResult<seq<Byte>> {
    if edits == [] then Err(NoEdits)
    else if exists i :: 0 <= i < |edits| && edits[i].oldText == [] then Err(EmptyOldText)
    else if file.None? then Err(FileNotFound)
    else if 0 in Sniff(file.value) then Err(Binary)
    else
      var text := Decode(file.value);
      if text.None? then Err(NotUtf8)
      else
        var (hadBom, content) := StripBom(text.value);
        var r := EditText(nfkc, content, edits);
        if r.Err? then Err(r.error) else Ok(WithBom(hadBom, Encode(r.value)))
  }

  // ----- from character ranges to byte ranges -----

  function ToBytes(content: string, m: Match<char>): Match<Byte> {
    var r := ByteRange(content, Range(m.start, m.end));
    Match(m.index, r.start, r.end, Encode(m.text))
  }

  lemma ToBytesIs(content: string, m: Match<char>)
    requires m.start <= m.end <= |content|
    ensures ToBytes(content, m) == Match(m.index, Offset(content, m.start), Offset(content, m.end), Encode(m.text))
  {
  }

  lemma OffsetOrder(s: string, i: nat, j: nat)
    requires i <= |s| && j <= |s|
    ensures Offset(s, i) < Offset(s, j) <==> i < j
    ensures Offset(s, i) <= |Encode(s)|
  {
    hide Encode, Len, Offset;
    if i < j {
      OffsetMonotone(s, i, j);
    } else {
      OffsetMonotone(s, j, i);
    }
  }

  function ByteForm(content: string): Match<char> -> Match<Byte> {
    m => ToBytes(content, m)
  }

  function Elements<T>(xs: seq<T>): set<T> {
    set x | x in xs
  }

  lemma BytesKeepOrder(content: string, ms: seq<Match<char>>)
    requires InRange(ms, |content|)
    ensures KeepsOrder(Elements(ms), Start, ByteForm(content), Start)
  {
    hide Len, Encode;
    forall x, y | x in Elements(ms) && y in Elements(ms)
      ensures Start(x) < Start(y) <==> Start(ByteForm(content)(x)) < Start(ByteForm(content)(y))
    {
      ToBytesIs(content, x);
      ToBytesIs(content, y);
      OffsetOrder(content, x.start, y.start);
    }
  }

  function AllToBytes(content: string, ms: seq<Match<char>>): seq<Match<Byte>> {
    Sorting.Map(ByteForm(content), ms)
  }

  lemma AllToBytesSorted(content: string, ms: seq<Match<char>>)
    requires InRange(ms, |content|)
    ensures AllToBytes(content, SortBy(ms, Start)) == SortBy(AllToBytes(content, ms), Start)
  {
    hide ToBytes, SortBy, Map;
    BytesKeepOrder(content, ms);
    SortMapped(ms, Elements(ms), Start, ByteForm(content), Start);
  }

  /** The byte ranges overlap where the character ranges do. */
  lemma {:induction false} OverlapInBytes(content: string, es: seq<Match<char>>)
    requires InRange(es, |content|)
    ensures FirstOverlap(AllToBytes(content, es)) == FirstOverlap(es)
    decreases |es|
  {
    if |es| >= 2 {
      hide Offset;
      ToBytesIs(content, es[0]);
      ToBytesIs(content, es[1]);
      OffsetOrder(content, es[1].start, es[0].end);
      OverlapInBytes(content, es[1..]);
      hide ToBytes;
      assert AllToBytes(content, es)[1..] == AllToBytes(content, es[1..]);
    }
  }

  lemma OrderedInBytes(content: string, es: seq<Match<char>>, from: nat)
    requires Ordered(es, from, |content|) && from <= |content|
    ensures Ordered(AllToBytes(content, es), Offset(content, from), |Encode(content)|)
    decreases |es|
  {
    hide Encode, Len;
    if es != [] {
      ToBytesIs(content, es[0]);
      OffsetMonotone(content, from, es[0].start);
      OffsetMonotone(content, es[0].start, es[0].end);
      OrderedInBytes(content, es[1..], es[0].end);
      assert AllToBytes(content, es)[1..] == AllToBytes(content, es[1..]);
    }
  }

  /** Replacing in the bytes is encoding the text in which the characters were replaced. */
  lemma {:induction false} SubstituteInBytes(content: string, es: seq<Match<char>>, from: nat)
    requires from <= |content| && Ordered(es, from, |content|)
    ensures Offset(content, from) <= |Encode(content)|
    ensures Ordered(AllToBytes(content, es), Offset(content, from), |Encode(content)|)
    ensures Substitute(Encode(content), AllToBytes(content, es), Offset(content, from)) ==
            Encode(Substitute(content, es, from))
    decreases |es|
  {
    hide Encode, Len, Offset, Ordered, Substitute;
    OrderedInBytes(content, es, from);
    OffsetOrder(content, from, |content|);
    var bs := AllToBytes(content, es);
    if es == [] {
      NothingToReplace(content, from);
    } else {
      var e := es[0];
      SubstituteHead(content, es, from);
      SubstituteHead(Encode(content), bs, Offset(content, from));
      ToBytesIs(content, e);
      assert bs[1..] == AllToBytes(content, es[1..]);
      SubstituteInBytes(content, es[1..], e.end);
      SliceEncode(content, from, e.start);
      EncodeAppend(content[from..e.start], e.text);
      EncodeAppend(content[from..e.start] + e.text, Substitute(content, es[1..], e.end));
    }
  }

  lemma NothingToReplace(content: string, from: nat)
    requires from <= |content|
    ensures Offset(content, from) <= |Encode(content)|
    ensures Substitute<Byte>(Encode(content), [], Offset(content, from)) == Encode(Substitute<char>(content, [], from))
  {
    hide Encode, EncodeChar;
    SliceEncode(content, from, |content|);
    assert content[..|content|] == content;
    assert content[from..|content|] == content[from..];
  }

  // ----- the tool -----

  /** `run` from the file read up to the bytes handed to the atomic write. */
  method Run(nfkc: Nfkc, file: Option<seq<Byte>>, edits: seq<EditEntry>) returns (r: EditResult<seq<Byte>>)
    ensures r == Outcome(nfkc, file, edits)
  {
    hide Sniff, Decode, EditText;
    if edits == [] {
      return Err(NoEdits);
    }
    for k := 0 to |edits|
      invariant forall i :: 0 <= i < k ==> edits[i].oldText != []
    {
      if edits[k].oldText == [] {
        return Err(EmptyOldText);
      }
    }
    if file.None? {
      return Err(FileNotFound);
    }
    var originalBytes := file.value;
    if 0 in Sniff(originalBytes) {
      return Err(Binary);
    }
    var originalText := Decode(originalBytes);
    if originalText.None? {
      return Err(NotUtf8);
    }
    var (hadBom, content) := StripBom(originalText.value);
    var final := ReplaceAll(nfkc, content, edits);
    if final.Err? {
      return Err(final.error);
    }
    var bytes := RestoreBom(hadBom, final.value);
    r := Ok(bytes);
  }

  function InBytesResult(r: EditResult<string>): EditResult<seq<Byte>> {
    if r.Err? then Err(r.error) else Ok(Encode(r.value))
  }

  method ReplaceAll(nfkc: Nfkc, content: string, edits: seq<EditEntry>) returns (r: EditResult<seq<Byte>>)
    requires NoneEmpty(edits)
    ensures r == InBytesResult(EditText(nfkc, content, edits))
  {
    hide FindUnique, Substitute, SortBy, Encode, ByteRange, FirstOverlap, Ordered, IsCrLf, Map;
    var crlf := IsCrLf(content);
    var matches: seq<Match<Byte>>, error := MatchEdits(nfkc, content, crlf, edits);
    if error.Some? {
      return Err(error.value);
    }
    ghost var ms := MatchFrom(nfkc, content, crlf, edits, 0).ms;
    MatchesInRange(nfkc, content, crlf, edits, 0);
    AllToBytesSorted(content, ms);
    SortedInRange(ms, |content|);
    ghost var es := SortBy(ms, Start);
    OverlapInBytes(content, es);
    AdjacentCheckExact(ms, |content|);
    if |matches| > 1 {
      var sorted := SortBy(matches, Start);
      var overlap := FindOverlap(sorted);
      if overlap.Some? {
        return Err(Overlap(overlap.value.0, overlap.value.1));
      }
    } else {
      FewDoNotOverlap(es);
    }
    OffsetZero(content);
    SubstituteInBytes(content, es, 0);
    BytesInRange(content, ms);
    AdjacentCheckExact(matches, |Encode(content)|);
    TwoSorts(matches, |Encode(content)|);
    var original := Encode(content);
    var byStart := SortBy(matches, NegatedStart);
    var final := ReplaceFromTail(original, byStart);
    ghost var text := Substitute(content, es, 0);
    if final == original {
      EncodeInjective(text, content);
      return Err(NoChange);
    }
    r := Ok(final);
  }

  lemma FewDoNotOverlap<T>(es: seq<Match<T>>)
    requires |es| <= 1
    ensures FirstOverlap(es) == None
  {
  }

  lemma BytesInRange(content: string, ms: seq<Match<char>>)
    requires InRange(ms, |content|)
    ensures InRange(AllToBytes(content, ms), |Encode(content)|)
  {
    hide Encode, Len, Offset;
    var bs := AllToBytes(content, ms);
    forall i | 0 <= i < |bs|
      ensures bs[i].start < bs[i].end <= |Encode(content)|
    {
      ToBytesIs(content, ms[i]);
      OffsetOrder(content, ms[i].start, ms[i].end);
      OffsetOrder(content, ms[i].end, ms[i].end);
    }
  }

  /** The matching loop of `run`. */
  method MatchEdits(nfkc: Nfkc, content: string, crlf: bool, edits: seq<EditEntry>)
    returns (matches: seq<Match<Byte>>, error: Option<EditError>)
    requires NoneEmpty(edits)
    ensures var m := MatchFrom(nfkc, content, crlf, edits, 0);
            if error.Some? then m == Failed(error.value)
            else m.Matched? && matches == AllToBytes(content, m.ms)
  {
    hide FindUnique, Encode, ByteRange, Adopt, Map;
    matches := [];
    ghost var done: seq<Match<char>> := [];
    AllToBytesNone(content);
    for index := 0 to |edits|
      invariant MatchedUpTo(nfkc, content, crlf, edits, index, done)
      invariant matches == AllToBytes(content, done)
    {
      var found := FindUniqueRange(nfkc, content, edits[index].oldText);
      if found.NotFound? {
        return [], Some(TextNotFound(index));
      } else if found.Multiple? {
        return [], Some(Ambiguous(index, found.count));
      }
      ghost var r := FindUnique(nfkc, content, edits[index].oldText).range;
      ghost var m := Match(index, r.start, r.end, Adopt(edits[index].newText, crlf));
      MatchedStep(nfkc, content, crlf, edits, index, done, m);
      AllToBytesSnoc(content, done, m);
      matches := matches + [Match(index, found.range.start, found.range.end, Encode(Adopt(edits[index].newText, crlf)))];
      done := done + [m];
    }
    error := None;
  }

  /** What is still to be matched decides the result, with `done` in front. */
  ghost predicate MatchedUpTo(nfkc: Nfkc, content: string, crlf: bool, edits: seq<EditEntry>, index: nat, done: seq<Match<char>>)
    requires index <= |edits| && NoneEmpty(edits)
  {
    var all, rest := MatchFrom(nfkc, content, crlf, edits, 0), MatchFrom(nfkc, content, crlf, edits, index);
    if rest.Failed? then all == rest else all.Matched? && all.ms == done + rest.ms
  }

  lemma MatchedStep(nfkc: Nfkc, content: string, crlf: bool, edits: seq<EditEntry>, index: nat, done: seq<Match<char>>, m: Match<char>)
    requires index < |edits| && NoneEmpty(edits)
    requires MatchedUpTo(nfkc, content, crlf, edits, index, done)
    requires FindUnique(nfkc, content, edits[index].oldText) == Found(Range(m.start, m.end))
    requires m.index == index && m.text == Adopt(edits[index].newText, crlf)
    ensures MatchedUpTo(nfkc, content, crlf, edits, index + 1, done + [m])
  {
    hide FindUnique, Adopt;
    var all := MatchFrom(nfkc, content, crlf, edits, 0);
    var here, rest := MatchFrom(nfkc, content, crlf, edits, index), MatchFrom(nfkc, content, crlf, edits, index + 1);
    if rest.Matched? {
      assert here == Matched([m] + rest.ms);
      hide MatchFrom;
      MoveHead(all.ms, done, here.ms, [m], rest.ms);
    }
  }

  lemma AllToBytesNone(content: string)
    ensures AllToBytes(content, []) == []
  {
  }

  lemma AllToBytesSnoc(content: string, ms: seq<Match<char>>, m: Match<char>)
    ensures AllToBytes(content, ms + [m]) == AllToBytes(content, ms) + [ToBytes(content, m)]
  {
    hide ToBytes;
  }
}
