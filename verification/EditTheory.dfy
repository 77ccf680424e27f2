/** What the `edit` tool promises about its result (tools/edit.rs). */
module EditTheory {
  import opened Seqs
  import opened Sorting
  import opened Utf8
  import opened Normalizer
  import opened PositionMap
  import opened Matching
  import opened Splice
  import opened LineEndings
  import opened EditRun

  // ----- when an edit succeeds, and with what -----

  /** The replacement one entry asks for, wherever it is listed. */
  function Piece(nfkc: Nfkc, content: string, e: EditEntry): Match<char> {
    if e.oldText == [] then Match(0, 0, 0, [])
    else
      var m := FindUnique(nfkc, content, e.oldText);
      if m.Found? then Match(0, m.range.start, m.range.end, Adopt(e.newText, IsCrLf(content)))
      else Match(0, 0, 0, [])
  }

  ghost predicate IsFound(nfkc: Nfkc, content: string, e: EditEntry) {
    e.oldText != [] && FindUnique(nfkc, content, e.oldText).Found?
  }

  lemma {:induction false} MatchFromMeaning(nfkc: Nfkc, content: string, edits: seq<EditEntry>, index: nat)
    requires index <= |edits| && NoneEmpty(edits)
    ensures var m := MatchFrom(nfkc, content, IsCrLf(content), edits, index);
            && (m.Matched? <==> forall k :: index <= k < |edits| ==> IsFound(nfkc, content, edits[k]))
            && (m.Matched? ==>
                  && |m.ms| == |edits| - index
                  && forall k :: 0 <= k < |m.ms| ==> m.ms[k] == Piece(nfkc, content, edits[index + k]).(index := index + k))
    decreases |edits| - index
  {
    hide FindUnique, Adopt, IsCrLf;
    if index < |edits| {
      MatchFromMeaning(nfkc, content, edits, index + 1);
    }
  }

  /** The matches of the whole request, in its order. */
  function Pieces(nfkc: Nfkc, content: string, edits: seq<EditEntry>): seq<Match<char>> {
    Sorting.Map(PieceIn(nfkc, content), edits)
  }

  function PieceIn(nfkc: Nfkc, content: string): EditEntry -> Match<char> {
    e => Piece(nfkc, content, e)
  }

  function Bare<T>(m: Match<T>): Match<T> {
    m.(index := 0)
  }

  lemma {:induction false} IndexIrrelevant<T>(content: seq<T>, es: seq<Match<T>>, from: nat)
    requires from <= |content| && Ordered(es, from, |content|)
    ensures Ordered(Sorting.Map(Bare, es), from, |content|)
    ensures Substitute(content, Sorting.Map(Bare, es), from) == Substitute(content, es, from)
    decreases |es|
  {
    if es != [] {
      assert Sorting.Map(Bare, es)[1..] == Sorting.Map(Bare, es[1..]);
      IndexIrrelevant(content, es[1..], es[0].end);
    }
  }

  lemma BareMatches(nfkc: Nfkc, content: string, edits: seq<EditEntry>)
    requires NoneEmpty(edits) && MatchFrom(nfkc, content, IsCrLf(content), edits, 0).Matched?
    ensures Sorting.Map(Bare, MatchFrom(nfkc, content, IsCrLf(content), edits, 0).ms) == Pieces(nfkc, content, edits)
  {
    hide FindUnique, Adopt, IsCrLf, MatchFrom;
    MatchFromMeaning(nfkc, content, edits, 0);
    var ms := MatchFrom(nfkc, content, IsCrLf(content), edits, 0).ms;
    forall k | 0 <= k < |ms|
      ensures Bare(ms[k]) == Pieces(nfkc, content, edits)[k]
    {
      assert ms[k] == Piece(nfkc, content, edits[0 + k]).(index := 0 + k);
    }
  }

  lemma BareSorted<T(!new)>(ms: seq<Match<T>>)
    ensures Sorting.Map(Bare, SortBy(ms, Start)) == SortBy(Sorting.Map(Bare, ms), Start)
  {
    SortMapped(ms, Elements(ms), Start, Bare, Start);
  }

  lemma PiecesInRange(nfkc: Nfkc, content: string, edits: seq<EditEntry>)
    requires forall i :: 0 <= i < |edits| ==> IsFound(nfkc, content, edits[i])
    ensures InRange(Pieces(nfkc, content, edits), |content|)
  {
    hide FindUnique, Adopt, IsCrLf;
    forall i | 0 <= i < |edits|
      ensures Pieces(nfkc, content, edits)[i].start < Pieces(nfkc, content, edits)[i].end <= |content|
    {
      FoundMeaning(nfkc, content, edits[i].oldText);
    }
  }

  lemma PairwiseBare<T(!new)>(ms: seq<Match<T>>)
    ensures Pairwise(ms, Apart) <==> Pairwise(Sorting.Map(Bare, ms), Apart)
  {
    var bs := Sorting.Map(Bare, ms);
    if Pairwise(bs, Apart) {
      forall i, j | 0 <= i < j < |ms|
        ensures Apart(ms[i], ms[j])
      {
        assert Apart(bs[i], bs[j]);
      }
    }
  }

  /** The edit succeeds if and only if every entry is found, the found ranges are
      pairwise disjoint and something changes; the result is then the simultaneous
      substitution of all of them in the original. */
  lemma EditTextMeaning(nfkc: Nfkc, content: string, edits: seq<EditEntry>)
    requires NoneEmpty(edits)
    ensures var ps := Pieces(nfkc, content, edits);
            var r := EditText(nfkc, content, edits);
            if (forall i :: 0 <= i < |edits| ==> IsFound(nfkc, content, edits[i])) && Pairwise(ps, Apart)
            then && Ordered(SortBy(ps, Start), 0, |content|)
                 && var final := Substitute(content, SortBy(ps, Start), 0);
                    r == if final == content then Err(NoChange) else Ok(final)
            else r.Err?
  {
    hide FindUnique, Adopt, IsCrLf, MatchFrom, Piece, SortBy, Sorting.Map, Substitute, Ordered, FirstOverlap;
    MatchFromMeaning(nfkc, content, edits, 0);
    var m := MatchFrom(nfkc, content, IsCrLf(content), edits, 0);
    var ps := Pieces(nfkc, content, edits);
    if m.Matched? {
      MatchesInRange(nfkc, content, IsCrLf(content), edits, 0);
      AdjacentCheckExact(m.ms, |content|);
      BareMatches(nfkc, content, edits);
      PairwiseBare(m.ms);
      BareSorted(m.ms);
      if Pairwise(ps, Apart) {
        IndexIrrelevant(content, SortBy(m.ms, Start), 0);
      }
    }
  }

  // ----- the order of the edits does not matter -----

  ghost predicate Clear(nfkc: Nfkc, content: string, a: EditEntry, b: EditEntry) {
    Apart(Piece(nfkc, content, a), Piece(nfkc, content, b))
  }

  function EntryStart(nfkc: Nfkc, content: string): EditEntry -> int {
    e => Start(Piece(nfkc, content, e))
  }

  lemma SortedPieces(nfkc: Nfkc, content: string, edits: seq<EditEntry>)
    ensures SortBy(Pieces(nfkc, content, edits), Start) ==
            Sorting.Map(PieceIn(nfkc, content), SortBy(edits, EntryStart(nfkc, content)))
  {
    hide Piece, SortBy, Sorting.Map;
    SortMapped(edits, Elements(edits), EntryStart(nfkc, content), PieceIn(nfkc, content), Start);
  }

  lemma SameMembers<T>(a: seq<T>, b: seq<T>, i: nat) returns (j: nat)
    requires multiset(a) == multiset(b) && i < |b|
    ensures j < |a| && a[j] == b[i]
  {
    assert b[i] in multiset(a);
    j :| 0 <= j < |a| && a[j] == b[i];
  }

  /** Pairs of entries and pairs of pieces agree. */
  lemma PairwiseEntries(nfkc: Nfkc, content: string, edits: seq<EditEntry>)
    ensures Pairwise(Pieces(nfkc, content, edits), Apart) <==>
            Pairwise(edits, (a, b) => Clear(nfkc, content, a, b))
  {
    hide Piece;
    var ps := Pieces(nfkc, content, edits);
    var clear := (a, b) => Clear(nfkc, content, a, b);
    if Pairwise(ps, Apart) {
      forall i, j | 0 <= i < j < |edits|
        ensures clear(edits[i], edits[j])
      {
        assert Apart(ps[i], ps[j]);
      }
    }
    if Pairwise(edits, clear) {
      forall i, j | 0 <= i < j < |ps|
        ensures Apart(ps[i], ps[j])
      {
        assert clear(edits[i], edits[j]);
      }
    }
  }

  /** Disjoint pieces stay disjoint, and sort the same, however the entries are listed. */
  lemma PiecesPermuted(nfkc: Nfkc, content: string, a: seq<EditEntry>, b: seq<EditEntry>)
    requires multiset(a) == multiset(b)
    requires Pairwise(Pieces(nfkc, content, a), Apart) && InRange(Pieces(nfkc, content, a), |content|)
    ensures Pairwise(Pieces(nfkc, content, b), Apart)
    ensures SortBy(Pieces(nfkc, content, a), Start) == SortBy(Pieces(nfkc, content, b), Start)
  {
    hide Piece, SortBy;
    var clear := (x, y) => Clear(nfkc, content, x, y);
    PairwiseEntries(nfkc, content, a);
    PairwiseEntries(nfkc, content, b);
    assert Pairwise(a, clear);
    PairwiseUnordered(a, b, clear);
    var key := EntryStart(nfkc, content);
    ApartStartsDiffer(Pieces(nfkc, content, a), |content|);
    var ps := Pieces(nfkc, content, a);
    forall i, j | 0 <= i < j < |a|
      ensures key(a[i]) != key(a[j])
    {
      assert ((x: Match<char>, y: Match<char>) => Start(x) != Start(y))(ps[i], ps[j]);
    }
    SortByUnique(a, key);
    PairwiseUnordered(a, b, (x, y) => key(x) != key(y));
    SortByUnique(b, key);
    SortedPieces(nfkc, content, a);
    SortedPieces(nfkc, content, b);
  }

  lemma EditTextPermuted(nfkc: Nfkc, content: string, a: seq<EditEntry>, b: seq<EditEntry>)
    requires multiset(a) == multiset(b) && NoneEmpty(a) && NoneEmpty(b)
    requires EditText(nfkc, content, a).Ok?
    ensures EditText(nfkc, content, b) == EditText(nfkc, content, a)
  {
    hide FindUnique, EditText, Piece, SortBy, Substitute, Ordered;
    EditTextMeaning(nfkc, content, a);
    EditTextMeaning(nfkc, content, b);
    PiecesInRange(nfkc, content, a);
    PiecesPermuted(nfkc, content, a, b);
    forall i | 0 <= i < |b|
      ensures IsFound(nfkc, content, b[i])
    {
      var j := SameMembers(a, b, i);
    }
  }

  /** Success and result are the same for every order of the edits list. */
  lemma OutcomePermuted(nfkc: Nfkc, file: Option<seq<Byte>>, a: seq<EditEntry>, b: seq<EditEntry>)
    requires multiset(a) == multiset(b)
    requires Outcome(nfkc, file, a).Ok?
    ensures Outcome(nfkc, file, b) == Outcome(nfkc, file, a)
  {
    hide EditText, Decode, Sniff, StripBom;
    SameSize(a, b);
    forall i | 0 <= i < |b|
      ensures b[i].oldText != []
    {
      var j := SameMembers(a, b, i);
    }
    var content := StripBom(Decode(file.value).value).1;
    EditTextPermuted(nfkc, content, a, b);
  }

  // ----- an edit with one literal match -----

  lemma SortSingle<T(!new)>(m: Match<T>)
    ensures SortBy([m], Start) == [m]
  {
    assert [m][..0] == [];
    assert Insert(m, [], Start) == [m];
  }

  lemma OneSubstituted(content: string, m: Match<char>)
    requires m.start < m.end <= |content|
    ensures Ordered([m], 0, |content|)
    ensures Substitute(content, [m], 0) == content[..m.start] + m.text + content[m.end..]
  {
    SubstituteHead(content, [m], 0);
    assert [m][1..] == [];
  }

  lemma OneEntry(nfkc: Nfkc, content: string, e: EditEntry)
    requires e.oldText != []
    ensures NoneEmpty([e])
    ensures IsFound(nfkc, content, e) ==> forall i :: 0 <= i < |[e]| ==> IsFound(nfkc, content, [e][i])
  {
    hide IsFound;
  }

  lemma InRoom(content: string, oldText: string, p: nat)
    requires oldText != [] && NonOverlapping(content, oldText, 0) == [p]
    ensures p + |oldText| <= |content|
  {
    hide NonOverlapping;
    SingleMatch(content, oldText);
  }

  lemma ExactlyFound(nfkc: Nfkc, content: string, oldText: string, p: nat)
    requires oldText != [] && NonOverlapping(content, oldText, 0) == [p]
    ensures FindUnique(nfkc, content, oldText) == Found(Range(p, p + |oldText|))
  {
    hide NonOverlapping, Fallback;
  }

  lemma OnePiece(nfkc: Nfkc, content: string, e: EditEntry, p: nat)
    requires e.oldText != [] && NonOverlapping(content, e.oldText, 0) == [p]
    ensures IsFound(nfkc, content, e)
    ensures Pieces(nfkc, content, [e]) == [Match(0, p, p + |e.oldText|, Adopt(e.newText, IsCrLf(content)))]
  {
    hide IsCrLf, Adopt, NonOverlapping, FindUnique;
    ExactlyFound(nfkc, content, e.oldText, p);
    assert [e][1..] == [];
  }

  /** `content` with `text` in the place of the `n` characters at `p`. */
  function Spliced(content: string, p: nat, n: nat, text: string): string
    requires p + n <= |content|
  {
    content[..p] + text + content[p + n..]
  }

  lemma OneMatchEdit(nfkc: Nfkc, content: string, edits: seq<EditEntry>, m: Match<char>)
    requires NoneEmpty(edits) && Pieces(nfkc, content, edits) == [m] && m.start < m.end <= |content|
    requires forall i :: 0 <= i < |edits| ==> IsFound(nfkc, content, edits[i])
    ensures var final := Spliced(content, m.start, m.end - m.start, m.text);
            EditText(nfkc, content, edits) == if final == content then Err(NoChange) else Ok(final)
  {
    hide Substitute, SortBy, EditText, IsFound, Pieces, Ordered;
    SortSingle(m);
    OneSubstituted(content, m);
    assert Pairwise([m], Apart);
    EditTextMeaning(nfkc, content, edits);
  }

  /** A single entry that occurs literally, and counts once, at `p`. */
  lemma OneExactEdit(nfkc: Nfkc, content: string, e: EditEntry, p: nat)
    requires e.oldText != [] && NonOverlapping(content, e.oldText, 0) == [p]
    ensures NoneEmpty([e]) && p + |e.oldText| <= |content|
    ensures var final := Spliced(content, p, |e.oldText|, Adopt(e.newText, IsCrLf(content)));
            EditText(nfkc, content, [e]) == if final == content then Err(NoChange) else Ok(final)
  {
    hide *;
    OneEntry(nfkc, content, e);
    InRoom(content, e.oldText, p);
    OnePiece(nfkc, content, e, p);
    OneMatchEdit(nfkc, content, [e], Match(0, p, p + |e.oldText|, Adopt(e.newText, IsCrLf(content))));
  }
}
