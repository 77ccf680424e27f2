/**
 Which characters the fallback takes for the same (tools/edit.rs): the table of smart
 punctuation and exotic spaces, character by character, and what it does to a search.
 */
module Typography {
  import opened Seqs
  import opened Normalizer
  import opened PositionMap
  import opened Matching

  predicate SingleQuote(c: char) {
    c in ['\U{2018}', '\U{2019}', '\U{201A}', '\U{201B}']
  }

  predicate DoubleQuote(c: char) {
    c in ['\U{201C}', '\U{201D}', '\U{201E}', '\U{201F}']
  }

  predicate Dash(c: char) {
    c in ['\U{2010}', '\U{2011}', '\U{2012}', '\U{2013}', '\U{2014}', '\U{2015}', '\U{2212}', '\U{FE58}', '\U{FE63}', '\U{FF0D}']
  }

  predicate ExoticSpace(c: char) {
    c in ['\U{00A0}', '\U{2000}', '\U{2001}', '\U{2002}', '\U{2003}', '\U{2004}', '\U{2005}', '\U{2006}', '\U{2007}',
          '\U{2008}', '\U{2009}', '\U{200A}', '\U{202F}', '\U{205F}', '\U{3000}']
  }

  /** Spaces, tab included. */
  predicate Blank(c: char) {
    c == ' ' || c == '\t' || ExoticSpace(c)
  }

  predicate Visible(c: char) {
    !Blank(c) && c != '\r' && c != '\n'
  }

  predicate Listed(c: char) {
    SingleQuote(c) || DoubleQuote(c) || Dash(c) || ExoticSpace(c)
  }

  /** The table agrees with the lists above. */
  lemma Table(c: char)
    ensures SingleQuote(c) ==> MapChar(c) == '\''
    ensures DoubleQuote(c) ==> MapChar(c) == '"'
    ensures Dash(c) ==> MapChar(c) == '-'
    ensures ExoticSpace(c) ==> MapChar(c) == ' '
    ensures !Listed(c) ==> MapChar(c) == c
    ensures IsWs(c) <==> Blank(c)
  {
  }

  lemma OneCharacter(nfkc: Nfkc, c: char)
    requires Visible(c)
    ensures Norm(nfkc, [c]) == Expand(nfkc, c)
  {
    Table(c);
    hide MapChar, Expand, Norm;
    NormChar(nfkc, [c]);
    assert [c][1..] == [];
    NormOnlyWs(nfkc, []);
    assert Expand(nfkc, c) + [] == Expand(nfkc, c);
  }

  /** What a single character normalises to. */
  lemma CharacterMeaning(nfkc: Nfkc, c: char)
    ensures Norm(nfkc, [c]) ==
            if SingleQuote(c) then "'"
            else if DoubleQuote(c) then "\""
            else if Dash(c) then "-"
            else if Blank(c) then ""
            else if c == '\r' || c == '\n' then "\n"
            else if c as int < 128 then [c]
            else nfkc(c)
  {
    Table(c);
    hide Norm;
    if Blank(c) {
      NormOnlyWs(nfkc, [c]);
    } else if c == '\r' || c == '\n' {
      NormNewline(nfkc, [c], 0);
      assert [c][1..] == [];
      NormOnlyWs(nfkc, []);
      assert "\n" + "" == "\n";
    } else {
      OneCharacter(nfkc, c);
      assert Listed(c) ==> SingleQuote(c) || DoubleQuote(c) || Dash(c);
    }
  }

  // ----- blanks -----

  ghost predicate Blanks(s: string) {
    forall i :: 0 <= i < |s| ==> Blank(s[i])
  }

  lemma BlanksAreWs(s: string)
    requires Blanks(s)
    ensures forall i :: 0 <= i < |s| ==> IsWs(s[i])
  {
    forall i | 0 <= i < |s|
      ensures IsWs(s[i])
    {
      Table(s[i]);
    }
  }

  /** `a` may be cut off in front of anything but an LF behind a CR. */
  lemma CutBehind(nfkc: Nfkc, a: string, rest: string)
    requires a != [] ==> Visible(a[|a| - 1])
    ensures Norm(nfkc, a + rest) == Norm(nfkc, a) + Norm(nfkc, rest)
  {
    hide Norm, MapChar, IsWs;
    if a != [] {
      Table(a[|a| - 1]);
      assert (a + rest)[|a| - 1] == a[|a| - 1];
    }
    NormAppend(nfkc, a, rest);
  }

  /** Blanks inside a line, of whatever kind, are one space each. */
  lemma BlanksInside(nfkc: Nfkc, a: string, blanks: string, b: string)
    requires (a != [] ==> Visible(a[|a| - 1])) && Blanks(blanks) && b != [] && Visible(b[0])
    ensures Norm(nfkc, a + (blanks + b)) == Norm(nfkc, a) + (Spaces(|blanks|) + Norm(nfkc, b))
  {
    hide Norm, MapChar, IsWs, Visible, Blanks;
    CutBehind(nfkc, a, blanks + b);
    BlanksAreWs(blanks);
    var s := blanks + b;
    VisibleIsNot(b[0]);
    assert forall i :: 0 <= i < |blanks| ==> s[i] == blanks[i];
    assert s[|blanks|] == b[0];
    NormRun(nfkc, s, |blanks|);
    assert s[|blanks|..] == b;
  }

  lemma VisibleIsNot(c: char)
    requires Visible(c)
    ensures !IsWs(c) && !IsNewline(c)
  {
    Table(c);
  }

  /** At the end of a line, or of the text, they are nothing; the line endings LF, CR LF
      and CR are one LF. */
  lemma BlanksAtEnd(nfkc: Nfkc, a: string, blanks: string, ending: string, b: string)
    requires (a != [] ==> Visible(a[|a| - 1])) && Blanks(blanks)
    requires ending == "\n" || ending == "\r\n" || (ending == "\r" && (b == [] || b[0] != '\n'))
    ensures Norm(nfkc, a + (blanks + (ending + b))) == Norm(nfkc, a) + ("\n" + Norm(nfkc, b))
    ensures Norm(nfkc, a + blanks) == Norm(nfkc, a)
  {
    hide Norm, MapChar, IsWs, Visible, Blanks;
    CutBehind(nfkc, a, blanks + (ending + b));
    CutBehind(nfkc, a, blanks);
    BlanksAreWs(blanks);
    NormOnlyWs(nfkc, blanks);
    assert Norm(nfkc, a) + [] == Norm(nfkc, a);
    var s := blanks + (ending + b);
    var k := |blanks|;
    assert forall i :: 0 <= i < k ==> s[i] == blanks[i];
    assert s[k] == ending[0];
    NormNewline(nfkc, s, k);
    var rest := s[k + 1..];
    assert rest == ending[1..] + b;
    assert AfterCr(s[k] == '\r', rest) == b by {
      if ending == "\r\n" {
        assert rest == "\n" + b;
      } else {
        assert rest == b;
      }
    }
  }

  // ----- texts that differ in typography only -----

  /** `fancy` may stand for `plain`. */
  predicate LooksLike(plain: char, fancy: char) {
    || plain == fancy
    || (plain == '\'' && SingleQuote(fancy))
    || (plain == '"' && DoubleQuote(fancy))
    || (plain == '-' && Dash(fancy))
    || (Blank(plain) && Blank(fancy))
  }

  ghost predicate TypographicForm(plain: string, fancy: string) {
    |plain| == |fancy| && forall i :: 0 <= i < |plain| ==> LooksLike(plain[i], fancy[i])
  }

  /** What the normaliser sees of a character. */
  ghost predicate SameToIt(a: char, b: char) {
    && (IsWs(a) <==> IsWs(b))
    && (!IsWs(a) ==> MapChar(a) == MapChar(b))
    && (IsNewline(a) || IsNewline(b) ==> a == b)
  }

  lemma LooksSame(plain: char, fancy: char)
    requires LooksLike(plain, fancy)
    ensures SameToIt(plain, fancy)
  {
    Table(plain);
    Table(fancy);
  }

  ghost predicate AllSame(a: string, b: string) {
    |a| == |b| && forall i :: 0 <= i < |a| ==> SameToIt(a[i], b[i])
  }

  lemma SameFirstGroup(nfkc: Nfkc, a: string, b: string)
    requires AllSame(a, b)
    ensures FirstGroup(nfkc, a) == FirstGroup(nfkc, b)
  {
    var w := LeadingWs(a);
    LeadingWsIs(b, w);
    assert w < |a| ==> SameToIt(a[w], b[w]);
    assert w + 1 < |a| ==> SameToIt(a[w + 1], b[w + 1]);
    hide LeadingWs, MapChar;
  }

  lemma {:induction false} SameNorm(nfkc: Nfkc, a: string, b: string)
    requires AllSame(a, b)
    ensures Norm(nfkc, a) == Norm(nfkc, b)
    decreases |a|
  {
    hide Norm, FirstGroup, SameToIt;
    SameFirstGroup(nfkc, a, b);
    NormCase(nfkc, a);
    NormCase(nfkc, b);
    var g := FirstGroup(nfkc, a);
    if g.Some? {
      SameNorm(nfkc, a[g.value.consumed..], b[g.value.consumed..]);
    }
  }

  /** Texts that differ in typography only have one normal form. */
  lemma TypographyIgnored(nfkc: Nfkc, plain: string, fancy: string)
    requires TypographicForm(plain, fancy)
    ensures Norm(nfkc, fancy) == Norm(nfkc, plain)
  {
    hide Norm, SameToIt, LooksLike;
    forall i | 0 <= i < |plain|
      ensures SameToIt(plain[i], fancy[i])
    {
      LooksSame(plain[i], fancy[i]);
    }
    SameNorm(nfkc, plain, fancy);
  }

  /** A file that holds a typographic form of `oldText` has the normal form of `oldText`
      in its own, so `oldText` is not reported missing. */
  lemma TypographyFound(nfkc: Nfkc, content: string, oldText: string, fancy: string, i: nat) returns (p: nat)
    requires TypographicForm(oldText, fancy) && OccursAt(content, fancy, i)
    ensures OccursAt(Norm(nfkc, content), Norm(nfkc, oldText), p)
    ensures Norm(nfkc, oldText) != [] ==> FindUnique(nfkc, content, oldText) != NotFound
  {
    hide Norm, FindUnique, TypographicForm;
    p := LiteralOccurrenceSurvives(nfkc, content, fancy, i);
    TypographyIgnored(nfkc, oldText, fancy);
    if Norm(nfkc, oldText) != [] {
      NotNothing(nfkc, oldText);
      NotFoundMeaning(nfkc, content, oldText);
    }
  }

  lemma NotNothing(nfkc: Nfkc, s: string)
    requires Norm(nfkc, s) != []
    ensures s != []
  {
    hide Norm;
    if s == [] {
      NormOnlyWs(nfkc, s);
    }
  }

  /** Smart quotes in the file, plain ones in the request. */
  lemma QuotedWord(nfkc: Nfkc)
    ensures FindUnique(nfkc, "say \U{201C}hi\U{201D}", "say \"hi\"") != NotFound
    ensures Norm(nfkc, "say \U{201C}hi\U{201D}") == "say \"hi\""
  {
    var content, oldText := "say \U{201C}hi\U{201D}", "say \"hi\"";
    assert TypographicForm(oldText, content);
    PlainText(nfkc);
    TypographyIgnored(nfkc, oldText, content);
    assert content[0..0 + |content|] == content;
    var p := TypographyFound(nfkc, content, oldText, content, 0);
  }

  lemma PlainText(nfkc: Nfkc)
    ensures Norm(nfkc, "say \"hi\"") == "say \"hi\""
  {
    hide Norm, Spaces;
    var a, b := "say", "\"hi\"";
    Word(nfkc, a);
    Word(nfkc, b);
    OneSpace();
    BlanksInside(nfkc, a, " ", b);
    assert "say \"hi\"" == a + (" " + b);
  }

  lemma OneSpace()
    ensures Spaces(1) == " " && Blanks(" ")
  {
    assert Spaces(1) == " " + Spaces(0) == " ";
  }

  /** Visible ASCII is left alone. */
  lemma {:induction false} Word(nfkc: Nfkc, s: string)
    requires forall i :: 0 <= i < |s| ==> '!' <= s[i] <= '~'
    ensures Norm(nfkc, s) == s
  {
    hide Norm;
    if s == [] {
      NormOnlyWs(nfkc, s);
    } else {
      var head, rest := [s[0]], s[1..];
      assert s == head + rest;
      CutBehind(nfkc, head, rest);
      CharacterMeaning(nfkc, s[0]);
      Word(nfkc, rest);
    }
  }
}
