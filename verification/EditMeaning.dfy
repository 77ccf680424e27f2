/** Every answer of an edit in plain terms: each error, and what is written (tools/edit.rs). */
module EditMeaning {
  import opened Seqs
  import opened Sorting
  import opened Utf8
  import opened Normalizer
  import opened Matching
  import opened Splice
  import opened LineEndings
  import opened EditRun
  import opened EditTheory

  // ----- errors of the text -----

  lemma {:induction false} FirstFailure(nfkc: Nfkc, content: string, edits: seq<EditEntry>, index: nat, k: nat)
    requires NoneEmpty(edits) && index <= k < |edits|
    requires forall j :: index <= j < k ==> IsFound(nfkc, content, edits[j])
    ensures var m := FindUnique(nfkc, content, edits[k].oldText);
            !m.Found? ==>
              MatchFrom(nfkc, content, IsCrLf(content), edits, index) ==
              Failed(if m.NotFound? then TextNotFound(k) else Ambiguous(k, m.count))
    decreases k - index
  {
    hide FindUnique, Adopt, IsCrLf;
    if index < k {
      assert IsFound(nfkc, content, edits[index]);
      FirstFailure(nfkc, content, edits, index + 1, k);
    }
  }

  /** The first entry that is not found, or not once, is the one reported. */
  lemma FirstFailureReported(nfkc: Nfkc, content: string, edits: seq<EditEntry>, k: nat)
    requires NoneEmpty(edits) && k < |edits|
    requires forall j :: 0 <= j < k ==> IsFound(nfkc, content, edits[j])
    ensures match FindUnique(nfkc, content, edits[k].oldText)
            case NotFound => EditText(nfkc, content, edits) == Err(TextNotFound(k))
            case Multiple(n) => EditText(nfkc, content, edits) == Err(Ambiguous(k, n))
            case Found(_) => IsFound(nfkc, content, edits[k])
  {
    hide FindUnique, MatchFrom, IsCrLf;
    FirstFailure(nfkc, content, edits, 0, k);
  }

  /** If all are found and some ranges overlap, two entries that do are reported. */
  lemma OverlapReported(nfkc: Nfkc, content: string, edits: seq<EditEntry>)
    requires NoneEmpty(edits) && forall i :: 0 <= i < |edits| ==> IsFound(nfkc, content, edits[i])
    requires !Pairwise(Pieces(nfkc, content, edits), Apart)
    ensures exists low: nat, high: nat ::
              && low < high < |edits|
              && EditText(nfkc, content, edits) == Err(Overlap(low, high))
              && !Apart(Pieces(nfkc, content, edits)[low], Pieces(nfkc, content, edits)[high])
  {
    hide FindUnique, IsCrLf, MatchFrom, SortBy, FirstOverlap, Ordered, IsFound, Substitute, Pieces, Pairwise, Apart, Sorting.Map;
    MatchFromMeaning(nfkc, content, edits, 0);
    var ms := MatchFrom(nfkc, content, IsCrLf(content), edits, 0).ms;
    MatchesInRange(nfkc, content, IsCrLf(content), edits, 0);
    BareMatches(nfkc, content, edits);
    PairwiseBare(ms);
    AdjacentCheckExact(ms, |content|);
    ReportedOf(ms, |content|);
    var (low, high) := FirstOverlap(SortBy(ms, Start)).value;
    OverlapAnswer(nfkc, content, edits, ms);
    BareAt(ms, low);
    BareAt(ms, high);
    assert low < high < |edits|;
  }

  lemma BareAt<T>(ms: seq<Match<T>>, i: nat)
    requires i < |ms|
    ensures |Sorting.Map(Bare, ms)| == |ms| && Sorting.Map(Bare, ms)[i] == Bare(ms[i])
    ensures forall j :: 0 <= j < |ms| ==> (Apart(Bare(ms[i]), Bare(ms[j])) <==> Apart(ms[i], ms[j]))
  {
  }

  lemma OverlapAnswer(nfkc: Nfkc, content: string, edits: seq<EditEntry>, ms: seq<Match<char>>)
    requires NoneEmpty(edits) && MatchFrom(nfkc, content, IsCrLf(content), edits, 0) == Matched(ms)
    requires FirstOverlap(SortBy(ms, Start)).Some?
    ensures var (low, high) := FirstOverlap(SortBy(ms, Start)).value;
            EditText(nfkc, content, edits) == Err(Overlap(low, high))
  {
    hide IsCrLf, MatchFrom, SortBy, FirstOverlap, Substitute;
  }

  lemma ReportedOf<T(!new)>(ms: seq<Match<T>>, n: nat)
    requires InRange(ms, n) && forall k :: 0 <= k < |ms| ==> ms[k].index == k
    requires FirstOverlap(SortBy(ms, Start)).Some?
    ensures var (low, high) := FirstOverlap(SortBy(ms, Start)).value;
            low < high < |ms| && !Apart(ms[low], ms[high])
  {
    hide FirstOverlap, SortBy;
    var sorted := SortBy(ms, Start);
    SortBySorted(ms, Start);
    SortedInRange(ms, n);
    DistinctIndices(ms, sorted);
    assert forall i, j :: 0 <= i < j < |sorted| ==> Start(sorted[i]) <= Start(sorted[j]);
    ReportedPairOverlaps(sorted);
    var (low, high) := FirstOverlap(sorted).value;
    var i, j :| 0 <= i < |sorted| && 0 <= j < |sorted|
      && sorted[i].index == low && sorted[j].index == high && !Apart(sorted[i], sorted[j]);
    var k := SameMembers(ms, sorted, i);
    var l := SameMembers(ms, sorted, j);
  }

  lemma DistinctIndices<T(!new)>(ms: seq<Match<T>>, sorted: seq<Match<T>>)
    requires multiset(sorted) == multiset(ms) && forall k :: 0 <= k < |ms| ==> ms[k].index == k
    ensures forall i, j :: 0 <= i < j < |sorted| ==> sorted[i].index != sorted[j].index
  {
    var differ := (x: Match<T>, y: Match<T>) => x.index != y.index;
    assert Pairwise(ms, differ);
    PairwiseUnordered(ms, sorted, differ);
    forall i, j | 0 <= i < j < |sorted|
      ensures sorted[i].index != sorted[j].index
    {
      assert differ(sorted[i], sorted[j]);
    }
  }

  // ----- the whole answer -----

  ghost predicate LooksBinary(file: seq<Byte>) {
    exists i :: 0 <= i < |file| && i < 8192 && file[i] == 0
  }

  lemma SniffMeaning(file: seq<Byte>)
    ensures 0 in Sniff(file) <==> LooksBinary(file)
  {
    var head := Sniff(file);
    assert forall i :: 0 <= i < |head| ==> head[i] == file[i];
    if i :| 0 <= i < |file| && i < 8192 && file[i] == 0 {
      assert head[i] == 0;
    }
  }

  /** Which error comes before the text is looked at. */
  lemma EarlyErrors(nfkc: Nfkc, file: Option<seq<Byte>>, edits: seq<EditEntry>)
    ensures edits == [] ==> Outcome(nfkc, file, edits) == Err(NoEdits)
    ensures edits != [] && !NoneEmpty(edits) ==> Outcome(nfkc, file, edits) == Err(EmptyOldText)
    ensures edits != [] && NoneEmpty(edits) ==>
              && (file.None? ==> Outcome(nfkc, file, edits) == Err(FileNotFound))
              && (file.Some? && LooksBinary(file.value) ==> Outcome(nfkc, file, edits) == Err(Binary))
              && (file.Some? && !LooksBinary(file.value) && (forall text :: Encode(text) != file.value)
                  ==> Outcome(nfkc, file, edits) == Err(NotUtf8))
  {
    hide Sniff, Decode, Encode, LooksBinary, EditText;
    if file.Some? {
      SniffMeaning(file.value);
      if Decode(file.value).Some? {
        assert Encode(Decode(file.value).value) == file.value;
      }
    }
  }

  /** Otherwise it is that of the text behind the BOM. */
  lemma OutcomeOfText(nfkc: Nfkc, text: string, edits: seq<EditEntry>)
    requires edits != [] && NoneEmpty(edits) && !LooksBinary(Encode(text))
    ensures var (hadBom, content) := StripBom(text);
            var r := EditText(nfkc, content, edits);
            Outcome(nfkc, Some(Encode(text)), edits) ==
            if r.Err? then Err(r.error) else Ok(Encode((if hadBom then [BOM] else []) + r.value))
  {
    DecodeEncode(text);
    SniffMeaning(Encode(text));
    hide Decode, Encode, Sniff, EditText, LooksBinary;
    var (hadBom, content) := StripBom(text);
    var r := EditText(nfkc, content, edits);
    if r.Ok? {
      EncodeAppend([BOM], r.value);
      assert [] + r.value == r.value;
      assert [] + Encode(r.value) == Encode(r.value);
    }
  }

  /** `result` is `text` with every entry's new text in the place of its match, all at
      once: every entry is found in the text behind the BOM, no two matches overlap, and
      something changes. */
  ghost predicate EditsInto(nfkc: Nfkc, text: string, edits: seq<EditEntry>, result: string) {
    var (hadBom, content) := StripBom(text);
    var ps := Pieces(nfkc, content, edits);
    && edits != [] && NoneEmpty(edits)
    && (forall i :: 0 <= i < |edits| ==> IsFound(nfkc, content, edits[i]))
    && Pairwise(ps, Apart)
    && Ordered(SortBy(ps, Start), 0, |content|)
    && Substitute(content, SortBy(ps, Start), 0) != content
    && result == (if hadBom then [BOM] else []) + Substitute(content, SortBy(ps, Start), 0)
  }

  /** Exactly when an edit succeeds, and what it then writes. */
  lemma OutcomeMeaning(nfkc: Nfkc, text: string, edits: seq<EditEntry>, result: string)
    ensures Outcome(nfkc, Some(Encode(text)), edits) == Ok(Encode(result)) <==>
            !LooksBinary(Encode(text)) && EditsInto(nfkc, text, edits, result)
  {
    hide Outcome, Encode, LooksBinary, EditText, IsFound, Pieces, SortBy, Substitute, Ordered;
    EarlyErrors(nfkc, Some(Encode(text)), edits);
    var content := StripBom(text).1;
    if edits != [] && NoneEmpty(edits) && !LooksBinary(Encode(text)) {
      OutcomeOfText(nfkc, text, edits);
      EditTextMeaning(nfkc, content, edits);
      var r := EditText(nfkc, content, edits);
      if r.Ok? && Outcome(nfkc, Some(Encode(text)), edits) == Ok(Encode(result)) {
        EncodeInjective((if StripBom(text).0 then [BOM] else []) + r.value, result);
      }
    }
  }

  /** A file that an edit changes is a text, and so is the result. */
  lemma EditedIsText(nfkc: Nfkc, file: Option<seq<Byte>>, edits: seq<EditEntry>) returns (text: string, result: string)
    requires Outcome(nfkc, file, edits).Ok?
    ensures file == Some(Encode(text)) && Outcome(nfkc, file, edits) == Ok(Encode(result))
    ensures EditsInto(nfkc, text, edits, result)
  {
    hide Encode, LooksBinary, EditText, EditsInto, Sniff;
    text := Decode(file.value).value;
    EarlyErrors(nfkc, file, edits);
    OutcomeOfText(nfkc, text, edits);
    hide Outcome, Decode;
    var (hadBom, content) := StripBom(text);
    result := (if hadBom then [BOM] else []) + EditText(nfkc, content, edits).value;
    OutcomeMeaning(nfkc, text, edits, result);
  }
}
