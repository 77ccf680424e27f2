/**
 What an edit does to the format of a file: its byte order mark and its line endings
 (fs/text.rs, tools/edit.rs).
 */
module EditFormat {
  import opened Seqs
  import opened Sorting
  import opened Utf8
  import opened Normalizer
  import opened PositionMap
  import opened Matching
  import opened Splice
  import opened LineEndings
  import opened EditRun
  import opened EditTheory

  // ----- the byte order mark -----

  /** The content behind the BOM is what is edited; the BOM comes back in front. */
  lemma OutcomeKeepsBom(nfkc: Nfkc, text: string, edits: seq<EditEntry>)
    requires Outcome(nfkc, Some(Encode(text)), edits).Ok?
    ensures NoneEmpty(edits)
    ensures var (hadBom, content) := StripBom(text);
            var r := EditText(nfkc, content, edits);
            && r.Ok? && r.value != content
            && Outcome(nfkc, Some(Encode(text)), edits).value ==
               Encode((if hadBom then [BOM] else []) + r.value)
  {
    DecodeEncode(text);
    hide Decode, Encode, FindUnique, MatchFrom, FirstOverlap, SortBy, Substitute, Sniff;
    var (hadBom, content) := StripBom(text);
    var r := EditText(nfkc, content, edits);
    EncodeAppend([BOM], r.value);
    assert [] + r.value == r.value;
    assert [] + Encode(r.value) == Encode(r.value);
  }

  /** The result begins with `ch`: it is an untouched character, or the head of a new
      text, with everything in front of it deleted. */
  ghost predicate Begins<T(!new)>(content: seq<T>, es: seq<Match<T>>, ch: T) {
    || (exists i: nat :: i < |content| && Untouched(es, i) && content[i] == ch && i + Shift(es, i) == 0)
    || (exists j :: 0 <= j < |es| && es[j].text != [] && es[j].text[0] == ch && es[j].start + Shift(es, es[j].start) == 0)
  }

  datatype Origin = Kept(i: nat) | Inserted(j: nat)

  /** Where the first character of a substitution comes from. */
  lemma {:induction false} FirstCharacter<T>(content: seq<T>, es: seq<Match<T>>, from: nat) returns (o: Origin)
    requires from <= |content| && Ordered(es, from, |content|) && Substitute(content, es, from) != []
    ensures match o
            case Kept(i) =>
              && from <= i < |content| && Untouched(es, i) && i - from + Shift(es, i) == 0
              && content[i] == Substitute(content, es, from)[0]
            case Inserted(j) =>
              && j < |es| && es[j].text != [] && from <= es[j].start && es[j].start - from + Shift(es, es[j].start) == 0
              && es[j].text[0] == Substitute(content, es, from)[0]
    decreases |es|
  {
    if es == [] {
      o := Kept(from);
    } else {
      var e := es[0];
      SubstituteHead(content, es, from);
      hide Substitute;
      if from < e.start {
        ShiftZero(es, from, |content|, from);
        NothingAt(es, from, |content|);
        o := Kept(from);
      } else if e.text != [] {
        ShiftZero(es, from, |content|, e.start);
        o := Inserted(0);
      } else {
        assert content[from..e.start] + e.text + Substitute(content, es[1..], e.end) == Substitute(content, es[1..], e.end);
        var rest := FirstCharacter(content, es[1..], e.end);
        match rest
        case Kept(i) =>
          ShiftPassed(es, i);
          o := Kept(i);
        case Inserted(j) =>
          ShiftPassed(es, es[j + 1].start);
          o := Inserted(j + 1);
      }
    }
  }

  lemma {:induction false} NothingAt<T>(es: seq<Match<T>>, from: nat, n: nat)
    requires Ordered(es, from, n) && (es != [] ==> from < es[0].start)
    ensures Untouched(es, from)
    decreases |es|
  {
    if es != [] {
      OrderedFrom(es[1..], es[0].end, from, n);
      NothingAt(es[1..], from, n);
    }
  }

  lemma KeptFirst<T(!new)>(content: seq<T>, es: seq<Match<T>>, r: seq<T>, i: nat)
    requires i < |content| && FoundAgain(content, es, r, i) && i + Shift(es, i) == 0
    ensures r != [] && r[0] == content[i]
  {
    hide Shift;
  }

  lemma InsertedFirst<T(!new)>(e: Match<T>, es: seq<Match<T>>, r: seq<T>)
    requires e.text != [] && Placed(e, es, r) && e.start + Shift(es, e.start) == 0
    ensures r != [] && r[0] == e.text[0]
  {
    hide Shift;
    assert r[0..|e.text|][0] == r[0];
  }

  lemma BeginsExactly<T(!new)>(content: seq<T>, es: seq<Match<T>>, ch: T)
    requires Ordered(es, 0, |content|)
    ensures var r := Substitute(content, es, 0);
            r != [] && r[0] == ch <==> Begins(content, es, ch)
  {
    hide Substitute, Ordered, Shift, Untouched, FoundAgain, Placed;
    var r := Substitute(content, es, 0);
    if r != [] && r[0] == ch {
      var o := FirstCharacter(content, es, 0);
    }
    SubstituteMeaning(content, es);
    if i: nat :| i < |content| && Untouched(es, i) && content[i] == ch && i + Shift(es, i) == 0 {
      KeptFirst(content, es, r, i);
    }
    if j :| 0 <= j < |es| && es[j].text != [] && es[j].text[0] == ch && es[j].start + Shift(es, es[j].start) == 0 {
      InsertedFirst(es[j], es, r);
    }
  }

  lemma EditBegins(nfkc: Nfkc, content: string, edits: seq<EditEntry>, ch: char)
    requires NoneEmpty(edits) && EditText(nfkc, content, edits).Ok?
    ensures var r := EditText(nfkc, content, edits).value;
            r != [] && r[0] == ch <==> Begins(content, SortBy(Pieces(nfkc, content, edits), Start), ch)
  {
    hide EditText, SortBy, Substitute, Begins, Ordered, Pieces, IsFound;
    EditTextMeaning(nfkc, content, edits);
    BeginsExactly(content, SortBy(Pieces(nfkc, content, edits), Start), ch);
  }

  /** The written file begins with a BOM if and only if it had one or the edited
      content behind it begins with U+FEFF. */
  lemma BomExactly(nfkc: Nfkc, text: string, edits: seq<EditEntry>) returns (written: string)
    requires Outcome(nfkc, Some(Encode(text)), edits).Ok?
    ensures Outcome(nfkc, Some(Encode(text)), edits).value == Encode(written)
    ensures var (hadBom, content) := StripBom(text);
            StripBom(written).0 <==>
              hadBom || Begins(content, SortBy(Pieces(nfkc, content, edits), Start), BOM)
  {
    hide Outcome, EditText, SortBy, Begins, Encode, Pieces;
    OutcomeKeepsBom(nfkc, text, edits);
    var (hadBom, content) := StripBom(text);
    EditBegins(nfkc, content, edits, BOM);
    var final := EditText(nfkc, content, edits).value;
    written := (if hadBom then [BOM] else []) + final;
    assert [] + final == final;
  }

  /** An edit can put a BOM into a file that had none. */
  lemma EditAddsBom(nfkc: Nfkc)
    ensures !StripBom("a").0
    ensures Outcome(nfkc, Some(Encode("a")), [EditEntry("a", [BOM])]) == Ok(Encode([BOM]))
  {
    var bom := [BOM];
    assert bom[0] != '\r' && bom[1..] == [];
    assert StripCr(bom) == [BOM] + StripCr([]) == [BOM];
    LetterEdited(nfkc, [BOM]);
    hide Outcome, EditText, Adopt, Encode;
    LetterFile(nfkc, [EditEntry("a", [BOM])]);
  }

  lemma LetterEdited(nfkc: Nfkc, newText: string)
    ensures NoneEmpty([EditEntry("a", newText)])
    ensures var final := Adopt(newText, false);
            EditText(nfkc, "a", [EditEntry("a", newText)]) == if final == "a" then Err(NoChange) else Ok(final)
  {
    var e := EditEntry("a", newText);
    LoneMatch("a", "a");
    LetterIsNoCrLf();
    OneExactEdit(nfkc, "a", e, 0);
    hide *;
    var final := Adopt(newText, false);
    assert "a"[..0] + final + "a"[1..] == final;
  }

  lemma LetterIsNoCrLf()
    ensures NoCrLf("a") && !IsCrLf("a")
  {
    assert "a"[1..] == "";
    NoCrLfCounts("a");
  }

  lemma LetterBytes()
    ensures Encode("a") == [97] && Decode(Encode("a")) == Some("a")
  {
    DecodeEncode("a");
    assert "a"[1..] == [];
    assert EncodeChar('a') == [97];
  }

  /** In a file that holds one letter, the outcome is the edited text. */
  lemma LetterFile(nfkc: Nfkc, edits: seq<EditEntry>)
    requires edits != [] && NoneEmpty(edits) && EditText(nfkc, "a", edits).Ok?
    ensures Outcome(nfkc, Some(Encode("a")), edits) == Ok(Encode(EditText(nfkc, "a", edits).value))
  {
    LetterBytes();
    hide Decode, Encode, EditText;
    var r := EditText(nfkc, "a", edits);
    assert Sniff([97]) == [97];
    assert StripBom("a") == (false, "a");
    assert [] + Encode(r.value) == Encode(r.value);
  }

  // ----- line endings -----

  /** Where a gap of the original begins with LF, the result has a CR in front. */
  ghost predicate Seams(content: string, es: seq<Match<char>>, from: nat, before: char)
    requires from <= |content| && Ordered(es, from, |content|)
    decreases |es|
  {
    var end := if es == [] then |content| else es[0].start;
    && (from < end && content[from] == '\n' ==> before == '\r')
    && (es != [] ==> Seams(content, es[1..], es[0].end, LastOr(LastOr(before, content[from..end]), es[0].text)))
  }

  lemma GapOfCrLfText(content: string, from: nat, end: nat)
    requires NoBareLf(content) && from <= end <= |content|
    ensures NoBareLfAfter('\r', content[from..end])
  {
    NoBareLfPointwise('\0', content);
    var gap := content[from..end];
    forall i | 0 <= i < |gap| && gap[i] == '\n'
      ensures CharBefore('\r', gap, i) == '\r'
    {
      assert content[from + i] == '\n';
      assert CharBefore('\0', content, from + i) == '\r';
    }
    NoBareLfPointwise('\r', gap);
  }

  ghost predicate AllAdopted(es: seq<Match<char>>) {
    forall i :: 0 <= i < |es| ==> NoBareLf(es[i].text)
  }

  /** Over a text without bare LF, with new texts without bare LF, the result has
      none exactly when the seams are sound. */
  lemma {:induction false} SeamsExact(content: string, es: seq<Match<char>>, from: nat, before: char)
    requires from <= |content| && Ordered(es, from, |content|)
    requires NoBareLf(content) && AllAdopted(es)
    ensures NoBareLfAfter(before, Substitute(content, es, from)) <==> Seams(content, es, from, before)
    decreases |es|
  {
    hide Substitute, NoBareLfAfter;
    var end := if es == [] then |content| else es[0].start;
    var gap := content[from..end];
    GapOfCrLfText(content, from, end);
    NoBareLfFirst(before, gap);
    if es == [] {
      SubstituteTail(content, from);
      assert content[from..|content|] == content[from..];
    } else {
      var e := es[0];
      SubstituteHead(content, es, from);
      var rest := Substitute(content, es[1..], e.end);
      NoBareLfAppend(before, gap + e.text, rest);
      NoBareLfAppend(before, gap, e.text);
      LastOrAppend(before, gap, e.text);
      var mid := LastOr(before, gap);
      NoBareLfFirst('\0', e.text);
      NoBareLfFirst(mid, e.text);
      SeamsExact(content, es[1..], e.end, LastOr(mid, e.text));
    }
  }

  lemma SubstituteTail(content: string, from: nat)
    requires from <= |content|
    ensures Substitute<char>(content, [], from) == content[from..]
  {
  }

  lemma LastOrAppend(before: char, a: string, b: string)
    ensures LastOr(before, a + b) == LastOr(LastOr(before, a), b)
  {
  }

  /** No range ends between CR and LF, so every seam is sound. */
  lemma {:induction false} WholeEndingsSeam(content: string, es: seq<Match<char>>, from: nat, before: char)
    requires from <= |content| && Ordered(es, from, |content|) && NoBareLf(content)
    requires forall i :: 0 <= i < |es| ==> !InsideCrLf(content, es[i].end)
    requires !InsideCrLf(content, from) && (from == 0 || from == |content| || content[from] != '\n')
    ensures Seams(content, es, from, before)
    decreases |es|
  {
    hide NoBareLfAfter;
    NoBareLfPointwise('\0', content);
    if content != [] {
      assert CharBefore('\0', content, 0) == '\0';
    }
    if es != [] {
      var e := es[0];
      assert !InsideCrLf(content, e.end);
      if e.end < |content| {
        assert CharBefore('\0', content, e.end) == content[e.end - 1];
      }
      WholeEndingsSeam(content, es[1..], e.end, LastOr(LastOr(before, content[from..e.start]), e.text));
    }
  }

  /** The edit of a CRLF-only file leaves no bare LF exactly when its seams are
      sound; when no range ends inside a CRLF, they are. */
  lemma CrLfFileEdited(nfkc: Nfkc, content: string, edits: seq<EditEntry>)
    requires NoneEmpty(edits) && NoBareLf(content) && IsCrLf(content)
    requires EditText(nfkc, content, edits).Ok?
    ensures Ordered(SortBy(Pieces(nfkc, content, edits), Start), 0, |content|)
    ensures NoBareLf(EditText(nfkc, content, edits).value) <==>
            Seams(content, SortBy(Pieces(nfkc, content, edits), Start), 0, '\0')
    ensures (forall i :: 0 <= i < |edits| ==> !InsideCrLf(content, Piece(nfkc, content, edits[i]).end))
            ==> NoBareLf(EditText(nfkc, content, edits).value)
  {
    hide FindUnique, EditText, SortBy, Substitute, Ordered, NoBareLfAfter, Adopt, IsCrLf, Seams;
    EditTextMeaning(nfkc, content, edits);
    var ps := Pieces(nfkc, content, edits);
    var es := SortBy(ps, Start);
    forall i | 0 <= i < |es|
      ensures NoBareLf(es[i].text)
      ensures exists j :: 0 <= j < |edits| && es[i] == Piece(nfkc, content, edits[j])
    {
      var j := SameMembers(ps, es, i);
      assert IsFound(nfkc, content, edits[j]);
      AdoptCrLf(edits[j].newText);
      assert es[i] == Piece(nfkc, content, edits[j]);
    }
    SeamsExact(content, es, 0, '\0');
    if forall i :: 0 <= i < |edits| ==> !InsideCrLf(content, Piece(nfkc, content, edits[i]).end) {
      WholeEndingsSeam(content, es, 0, '\0');
    }
  }

  /** The fallback never splits a CRLF, so edits it alone matches keep a CRLF file. */
  lemma FallbackKeepsCrLf(nfkc: Nfkc, content: string, e: EditEntry)
    requires IsFound(nfkc, content, e) && forall p: nat :: !OccursAt(content, e.oldText, p)
    ensures !InsideCrLf(content, Piece(nfkc, content, e).end)
  {
    hide FindUnique, Adopt, IsCrLf;
    FoundMeaning(nfkc, content, e.oldText);
    hide OccursAt;
  }

  /** An exact match can: replacing `a\r` leaves the LF behind on its own. */
  lemma ExactMatchSplitsCrLf(nfkc: Nfkc)
    ensures var content, edits := "a\r\nb\r\n", [EditEntry("a\r", "x")];
            && NoBareLf(content) && IsCrLf(content)
            && NoneEmpty(edits)
            && EditText(nfkc, content, edits) == Ok("x\nb\r\n")
            && !NoBareLf("x\nb\r\n")
  {
    var content := "a\r\nb\r\n";
    CrLfExample();
    OnlyOneMatch();
    assert Adopt("x", true) == "x";
    hide NoBareLfAfter, IsCrLf, Adopt, NonOverlapping, EditText;
    OneExactEdit(nfkc, content, EditEntry("a\r", "x"), 0);
    assert content[..0] + "x" + content[2..] == "x\nb\r\n";
  }

  lemma CrLfExample()
    ensures NoBareLf("a\r\nb\r\n") && IsCrLf("a\r\nb\r\n") && !NoBareLf("x\nb\r\n")
  {
    var content := "a\r\nb\r\n";
    NoBareLfPointwise('\0', content);
    assert forall i :: 0 <= i < |content| && content[i] == '\n' ==> CharBefore('\0', content, i) == '\r';
    AllCrLfCounts('\0', content);
    assert CountLf(content) > 0;
    NoBareLfPointwise('\0', "x\nb\r\n");
    assert "x\nb\r\n"[1] == '\n' && CharBefore('\0', "x\nb\r\n", 1) == 'x';
  }

  lemma OnlyOneMatch()
    ensures NonOverlapping("a\r\nb\r\n", "a\r", 0) == [0]
  {
    var hay, needle := "a\r\nb\r\n", "a\r";
    hide NonOverlapping;
    assert hay[0..2] == needle;
    Hit(hay, needle, 0);
    assert hay[2..4][0] == '\n' && hay[3..5][0] == 'b' && hay[4..6][0] == '\r';
    Miss(hay, needle, 2);
    Miss(hay, needle, 3);
    Miss(hay, needle, 4);
    NoRoom(hay, needle, 5);
  }

  // ----- files without CRLF -----

  /** Where two parts of the result meet, no LF comes behind a CR. */
  ghost predicate LfSeams(content: string, es: seq<Match<char>>, from: nat, before: char)
    requires from <= |content| && Ordered(es, from, |content|)
    decreases |es|
  {
    var end := if es == [] then |content| else es[0].start;
    var last := LastOr(before, content[from..end]);
    && !(from < end && content[from] == '\n' && before == '\r')
    && (es != [] ==>
          && !(es[0].text != [] && es[0].text[0] == '\n' && last == '\r')
          && LfSeams(content, es[1..], es[0].end, LastOr(last, es[0].text)))
  }

  lemma GapOfLfText(content: string, from: nat, end: nat)
    requires NoCrLf(content) && from <= end <= |content|
    ensures NoCrLf(content[from..end])
  {
    assert content == content[..from] + content[from..];
    NoCrLfAppend('\0', content[..from], content[from..]);
    NoCrLfFirst(LastOr('\0', content[..from]), content[from..]);
    assert content[from..] == content[from..end] + content[end..];
    NoCrLfAppend('\0', content[from..end], content[end..]);
  }

  /** Over a text without CRLF the result has none exactly when no new text has one and
      the seams are sound. */
  lemma {:induction false} LfSeamsExact(content: string, es: seq<Match<char>>, from: nat, before: char)
    requires from <= |content| && Ordered(es, from, |content|) && NoCrLf(content)
    ensures NoCrLfAfter(before, Substitute(content, es, from)) <==>
            (forall i :: 0 <= i < |es| ==> NoCrLf(es[i].text)) && LfSeams(content, es, from, before)
    decreases |es|
  {
    hide Substitute, NoCrLfAfter;
    var end := if es == [] then |content| else es[0].start;
    var gap := content[from..end];
    GapOfLfText(content, from, end);
    NoCrLfFirst(before, gap);
    if es == [] {
      SubstituteTail(content, from);
      assert content[from..|content|] == content[from..];
    } else {
      var e := es[0];
      SubstituteHead(content, es, from);
      var rest := Substitute(content, es[1..], e.end);
      var last := LastOr(before, gap);
      NoCrLfAppend(before, gap + e.text, rest);
      NoCrLfAppend(before, gap, e.text);
      LastOrAppend(before, gap, e.text);
      NoCrLfFirst(last, e.text);
      LfSeamsExact(content, es[1..], e.end, LastOr(last, e.text));
      assert es == [e] + es[1..];
    }
  }

  /** The edit of a file without CRLF leaves it without exactly when no new text holds
      CR CR LF, which adoption turns into CRLF, and the seams are sound. */
  lemma LfFileEdited(nfkc: Nfkc, content: string, edits: seq<EditEntry>)
    requires NoneEmpty(edits) && NoCrLf(content)
    requires EditText(nfkc, content, edits).Ok?
    ensures Ordered(SortBy(Pieces(nfkc, content, edits), Start), 0, |content|)
    ensures NoCrLf(EditText(nfkc, content, edits).value) <==>
            && (forall i :: 0 <= i < |edits| ==> !HasCrCrLf(edits[i].newText))
            && LfSeams(content, SortBy(Pieces(nfkc, content, edits), Start), 0, '\0')
  {
    hide EditText, SortBy, Substitute, Ordered, NoCrLfAfter, LfSeams, HasCrCrLf, Pieces;
    EditTextMeaning(nfkc, content, edits);
    AdoptedPieces(nfkc, content, edits);
    LfSeamsExact(content, SortBy(Pieces(nfkc, content, edits), Start), 0, '\0');
  }

  lemma AdoptedPieces(nfkc: Nfkc, content: string, edits: seq<EditEntry>)
    requires NoCrLf(content) && forall i :: 0 <= i < |edits| ==> IsFound(nfkc, content, edits[i])
    ensures var es := SortBy(Pieces(nfkc, content, edits), Start);
            (forall i :: 0 <= i < |es| ==> NoCrLf(es[i].text)) <==>
            (forall i :: 0 <= i < |edits| ==> !HasCrCrLf(edits[i].newText))
  {
    NoCrLfCounts(content);
    hide FindUnique, SortBy, NoCrLfAfter, Adopt, IsCrLf, HasCrCrLf;
    var ps := Pieces(nfkc, content, edits);
    var es := SortBy(ps, Start);
    forall k | 0 <= k < |edits|
      ensures NoCrLf(ps[k].text) <==> !HasCrCrLf(edits[k].newText)
    {
      assert IsFound(nfkc, content, edits[k]);
      assert ps[k] == Piece(nfkc, content, edits[k]);
      AdoptLfCrLf(edits[k].newText);
    }
    if forall i :: 0 <= i < |es| ==> NoCrLf(es[i].text) {
      forall k | 0 <= k < |edits|
        ensures !HasCrCrLf(edits[k].newText)
      {
        var i := SameMembers(es, ps, k);
      }
    }
    if forall k :: 0 <= k < |edits| ==> !HasCrCrLf(edits[k].newText) {
      forall i | 0 <= i < |es|
        ensures NoCrLf(es[i].text)
      {
        var k := SameMembers(ps, es, i);
      }
    }
  }

  /** A new text that ends in CR makes a CRLF of the LF behind its range. */
  lemma LfFileGetsCrLf(nfkc: Nfkc)
    ensures var content, edits := "a\nb", [EditEntry("a", "x\r")];
            NoCrLf(content) && NoneEmpty(edits) && EditText(nfkc, content, edits) == Ok("x\r\nb") && !NoCrLf("x\r\nb")
  {
    var content, result := "a\nb", "x\r\nb";
    LfExample();
    assert "x\r"[1..] == "\r" && Adopt("x\r", false) == "x\r";
    OneA();
    hide NoCrLfAfter, IsCrLf, Adopt, NonOverlapping, EditText;
    OneExactEdit(nfkc, content, EditEntry("a", "x\r"), 0);
    assert content[..0] + "x\r" + content[1..] == result;
  }

  lemma LfExample()
    ensures NoCrLf("a\nb") && !IsCrLf("a\nb") && !NoCrLf("x\r\nb")
  {
    var content, result := "a\nb", "x\r\nb";
    assert content == "a" + "\nb" && result == "x\r" + "\nb";
    NoCrLfPointwise(content);
    forall i | 0 <= i < |content|
      ensures !StartsCrLf(content[i..])
    {
      assert content[i..][0] == content[i] != '\r';
    }
    NoCrLfCounts(content);
    NoCrLfPointwise(result);
    assert StartsCrLf(result[1..]);
  }

  lemma OneA()
    ensures NonOverlapping("a\nb", "a", 0) == [0]
  {
    var hay, needle := "a\nb", "a";
    hide NonOverlapping;
    assert hay[0..1] == needle;
    Hit(hay, needle, 0);
    assert hay[1..2][0] == '\n' && hay[2..3][0] == 'b';
    Miss(hay, needle, 1);
    Miss(hay, needle, 2);
    NoRoom(hay, needle, 3);
  }
}
