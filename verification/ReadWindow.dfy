/**
 The line window of the `read` tool (tools/read.rs) and the client that pages
 through a file with it.
 */
module ReadWindow {
  import opened Seqs
  import opened Truncate
  import opened Utf8

  /** The continuation note behind a page that is not the last. */
  datatype Note =
    | NoNote
    | ByteLimit(first: nat, last: nat, total: nat, next: nat)
    | LineLimit(first: nat, last: nat, total: nat, next: nat)
    | MoreLines(remaining: nat, next: nat)

  /** `first` and `last` are the 1-based numbers of the lines shown; `text` is what
      is shown of them, without the note. */
  datatype Page =
    | OverBudget(line: nat, bytes: nat, total: nat)
    | Window(text: string, first: nat, last: nat, total: nat, note: Note)

  datatype Reply =
    | BadOffset
    | BadLimit
    | EmptyFile
    | BeyondEnd(offset: nat, total: nat)
    | Shown(page: Page)

  function LineBudget(limit: Option<nat>): nat {
    if limit.Some? && limit.value < MAX_LINES then limit.value else MAX_LINES
  }

  /** What must be said behind lines `start + 1` to `last`: nothing at the end of the
      file; else that the bytes, the caller or the standard budget ran out. */
  function NoteFor(start: nat, last: nat, total: nat, limit: Option<nat>): Note
    requires start <= last
  {
    if total <= last then NoNote
    else if last - start < LineBudget(limit) then ByteLimit(start + 1, last, total, last + 1)
    else if limit.Some? && limit.value < MAX_LINES then MoreLines(total - last, last + 1)
    else LineLimit(start + 1, last, total, last + 1)
  }

  /** The page that starts at `start`: the longest window of whole lines within both
      budgets, or the size of a line that is too big on its own. */
  ghost predicate IsPage(lines: seq<string>, start: nat, limit: Option<nat>, p: Page)
    requires start < |lines|
  {
    if Len(lines[start]) > MAX_BYTES then p == OverBudget(start + 1, Len(lines[start]), |lines|)
    else
      && p.Window?
      && p.first == start + 1 && start < p.last <= |lines| && p.total == |lines|
      && IsLongestHead(lines[start..], LineBudget(limit), MAX_BYTES, p.last - start)
      && p.text == Concat(lines[start..p.last])
      && p.note == NoteFor(start, p.last, |lines|, limit)
  }

  ghost predicate IsReply(content: string, offset: Option<nat>, limit: Option<nat>, r: Reply) {
    var line := if offset.Some? then offset.value else 1;
    if line == 0 then r == BadOffset
    else if limit == Some(0) then r == BadLimit
    else if content == [] then r == EmptyFile
    else if line > CountLines(content) then r == BeyondEnd(line, CountLines(content))
    else r.Shown? && IsPage(Lines(content), line - 1, limit, r.page)
  }

  /** `run`, from the decoded file content on */
  method Read(content: string, offset: Option<nat>, limit: Option<nat>) returns (r: Reply)
    ensures IsReply(content, offset, limit, r)
  {
    var line := if offset.Some? then offset.value else 1;
    if line == 0 {
      return BadOffset;
    }
    if limit == Some(0) {
      return BadLimit;
    }
    if content == [] {
      return EmptyFile;
    }
    var lines := Lines(content);
    var total := |lines|;
    var start := line - 1;
    if start >= total {
      return BeyondEnd(line, total);
    }
    var page := ReadPage(lines, start, limit);
    return Shown(page);
  }

  method ReadPage(lines: seq<string>, start: nat, limit: Option<nat>) returns (p: Page)
    requires start < |lines| && limit != Some(0)
    ensures IsPage(lines, start, limit, p)
  {
    hide HeadBytes, Len, Concat;
    var total := |lines|;
    var lineBudget := LineBudget(limit);
    var userLimited := limit.Some? && limit.value < MAX_LINES;
    ghost var rest := lines[start..];
    var kept: seq<string> := [];
    var bytesUsed, byteCapped, end := 0, false, start;
    FirstHead(rest);
    while end < total && |kept| < lineBudget
      invariant start <= end <= total
      invariant kept == lines[start..end]
      invariant HeadFits(rest, lineBudget, MAX_BYTES, |kept|)
      invariant bytesUsed == HeadBytes(rest, |kept|)
      invariant !byteCapped
    {
      var line := lines[end];
      HeadBytesStep(rest, |kept|);
      if bytesUsed + Len(line) > MAX_BYTES {
        byteCapped := true;
        break;
      }
      bytesUsed := bytesUsed + Len(line);
      kept := kept + [line];
      end := end + 1;
    }
    LongestHead(rest, lineBudget, MAX_BYTES, |kept|);
    if |kept| > 0 {
      HeadBytesMonotone(rest, 1, |kept|);
    }
    if kept == [] {
      return OverBudget(start + 1, Len(lines[start]), total);
    }
    var text := Concat(kept);
    var first, last := start + 1, end;
    var budgetHit := |kept| == lineBudget && end < total;
    var note := NoNote;
    if byteCapped || budgetHit {
      note :=
        if byteCapped then ByteLimit(first, last, total, last + 1)
        else if userLimited then MoreLines(total - last, last + 1)
        else LineLimit(first, last, total, last + 1);
    }
    p := Window(text, first, last, total, note);
  }

  /** The window is what the shared truncator keeps of the rest of the file. */
  lemma ReadRefinesTakeHead(content: string, start: nat, limit: Option<nat>, p: Page, h: Head)
    requires start < CountLines(content) && limit != Some(0)
    requires IsPage(Lines(content), start, limit, p)
    requires IsHead(Concat(Lines(content)[start..]), LineBudget(limit), MAX_BYTES, h)
    ensures p.OverBudget? <==> h.firstLineTooBig
    ensures p.Window? ==>
              p.text == h.text && p.last == start + h.keptLines && (p.note.ByteLimit? <==> h.byteLimited)
  {
    hide HeadBytes, Len, Concat, Lines;
    var lines := Lines(content);
    var rest := lines[start..];
    LinesWhole(content);
    LinesFrom(lines, start);
    LinesUnique(rest);
    if p.Window? {
      assert lines[start..p.last] == rest[..h.keptLines];
      if h.keptLines < |rest| && h.keptLines < LineBudget(limit) {
        OneMore(rest, LineBudget(limit), h.keptLines);
      }
    }
  }

  lemma OneMore(rest: seq<string>, budget: nat, k: nat)
    requires IsLongestHead(rest, budget, MAX_BYTES, k) && k < |rest| && k < budget
    ensures HeadBytes(rest, k + 1) > MAX_BYTES
  {
    hide HeadBytes;
    assert !HeadFits(rest, budget, MAX_BYTES, k + 1);
  }

  // ----- paging through a file -----

  /** The line index at which the next request of the client starts. */
  function Next(p: Page): nat {
    if p.OverBudget? then p.line else p.last
  }

  /** `pages` are the replies to a client that starts at `start`, goes on behind the
      last line of each page, with whatever limits, and stops at the end. */
  ghost predicate IsPaging(lines: seq<string>, start: nat, limits: seq<Option<nat>>, pages: seq<Page>)
    decreases |pages|
  {
    if start >= |lines| then pages == [] && limits == []
    else
      && pages != [] && limits != [] && limits[0] != Some(0)
      && IsPage(lines, start, limits[0], pages[0])
      && IsPaging(lines, Next(pages[0]), limits[1..], pages[1..])
  }

  /** What the client learns of a line. */
  datatype Item = Line(text: string) | TooBig(line: nat, bytes: nat)

  function Whole(lines: seq<string>): (r: seq<Item>)
    ensures |r| == |lines|
  {
    if lines == [] then [] else [Line(lines[0])] + Whole(lines[1..])
  }

  function Delivered(pages: seq<Page>): seq<Item> {
    if pages == [] then []
    else
      (match pages[0]
       case OverBudget(line, bytes, _) => [TooBig(line, bytes)]
       case Window(text, _, _, _, _) => Whole(Lines(text)))
      + Delivered(pages[1..])
  }

  function Expected(lines: seq<string>, start: nat): seq<Item>
    decreases |lines| - start
  {
    if start >= |lines| then []
    else
      [if Len(lines[start]) > MAX_BYTES then TooBig(start + 1, Len(lines[start])) else Line(lines[start])]
      + Expected(lines, start + 1)
  }

  function Texts(pages: seq<Page>): string {
    if pages == [] then []
    else (if pages[0].Window? then pages[0].text else []) + Texts(pages[1..])
  }

  /** A window whose lines all fit is delivered line by line. */
  lemma {:induction false} ExpectedRange(lines: seq<string>, start: nat, last: nat)
    requires start <= last <= |lines|
    requires forall k :: start <= k < last ==> Len(lines[k]) <= MAX_BYTES
    ensures Expected(lines, start) == Whole(lines[start..last]) + Expected(lines, last)
    decreases last - start
  {
    if start == last {
      assert lines[start..last] == [];
    } else {
      ExpectedRange(lines, start + 1, last);
      assert lines[start..last][1..] == lines[start + 1..last];
      Assoc([Line(lines[start])], Whole(lines[start + 1..last]), Expected(lines, last));
    }
  }

  lemma WindowLinesFit(lines: seq<string>, start: nat, limit: Option<nat>, p: Page, k: nat)
    requires start < |lines| && IsPage(lines, start, limit, p) && p.Window? && start <= k < p.last
    ensures Len(lines[k]) <= MAX_BYTES
  {
    hide HeadBytes, Len, Concat;
    var rest := lines[start..];
    HeadBytesStep(rest, k - start);
    HeadBytesMonotone(rest, k - start + 1, p.last - start);
  }

  lemma WindowLines(lines: seq<string>, start: nat, last: nat)
    requires AreLines(lines) && start <= last <= |lines|
    ensures Lines(Concat(lines[start..last])) == lines[start..last]
  {
    LinesTo(lines, last);
    LinesFrom(lines[..last], start);
    assert lines[..last][start..] == lines[start..last];
    LinesUnique(lines[start..last]);
  }

  lemma PageAdvances(lines: seq<string>, start: nat, limit: Option<nat>, p: Page)
    requires start < |lines| && IsPage(lines, start, limit, p)
    ensures start < Next(p) <= |lines|
  {
  }

  lemma OneDelivered(p: Page)
    ensures Delivered([p]) ==
            if p.Window? then Whole(Lines(p.text)) else [TooBig(p.line, p.bytes)]
  {
    hide Whole, Lines;
    assert [p][1..] == [];
    assert Delivered([]) == [];
  }

  lemma WindowDelivers(lines: seq<string>, start: nat, limit: Option<nat>, p: Page)
    requires AreLines(lines) && start < |lines| && IsPage(lines, start, limit, p) && p.Window?
    ensures Expected(lines, start) == Delivered([p]) + Expected(lines, p.last)
  {
    forall k | start <= k < p.last
      ensures Len(lines[k]) <= MAX_BYTES
    {
      WindowLinesFit(lines, start, limit, p, k);
    }
    assert start < p.last <= |lines| && p.text == Concat(lines[start..p.last]);
    hide *;
    ExpectedRange(lines, start, p.last);
    WindowLines(lines, start, p.last);
    OneDelivered(p);
  }

  /** One page delivers the lines up to the next page, each whole or reported. */
  lemma PageDelivers(lines: seq<string>, start: nat, limit: Option<nat>, p: Page)
    requires AreLines(lines) && start < |lines| && IsPage(lines, start, limit, p)
    ensures Expected(lines, start) == Delivered([p]) + Expected(lines, Next(p))
  {
    hide AreLines, Len, IsLongestHead, Concat, Lines, Delivered;
    if p.Window? {
      WindowDelivers(lines, start, limit, p);
    } else {
      OneDelivered(p);
    }
  }

  lemma {:induction false} PagesCover(lines: seq<string>, start: nat, limits: seq<Option<nat>>, pages: seq<Page>)
    requires AreLines(lines) && IsPaging(lines, start, limits, pages)
    ensures Delivered(pages) == Expected(lines, start)
    ensures start < |lines| ==> |pages| <= |lines| - start
    ensures start >= |lines| ==> pages == []
    decreases |pages|
  {
    hide IsPage, AreLines, Next, Delivered, Expected;
    if pages == [] {
      NothingLeft(lines, start);
    } else {
      var p := pages[0];
      PageAdvances(lines, start, limits[0], p);
      PageDelivers(lines, start, limits[0], p);
      PagesCover(lines, Next(p), limits[1..], pages[1..]);
      FirstPage(pages);
    }
  }

  lemma NothingLeft(lines: seq<string>, start: nat)
    requires start >= |lines|
    ensures Delivered([]) == Expected(lines, start)
  {
  }

  lemma FirstPage(pages: seq<Page>)
    requires pages != []
    ensures Delivered(pages) == Delivered([pages[0]]) + Delivered(pages[1..])
  {
    hide Whole, Lines;
    assert [pages[0]][1..] == [];
  }

  /** Paging from the first line returns every line whole, once and in order, except
      that a line over the byte budget is reported with its number and size; it
      takes at most one page a line. */
  lemma PagingCoversTheFile(content: string, limits: seq<Option<nat>>, pages: seq<Page>)
    requires IsPaging(Lines(content), 0, limits, pages)
    ensures Delivered(pages) == Expected(Lines(content), 0)
    ensures |pages| <= CountLines(content)
  {
    LinesWhole(content);
    PagesCover(Lines(content), 0, limits, pages);
  }

  lemma {:induction false} TextsCover(lines: seq<string>, start: nat, limits: seq<Option<nat>>, pages: seq<Page>)
    requires IsPaging(lines, start, limits, pages) && start <= |lines|
    requires forall k :: start <= k < |lines| ==> Len(lines[k]) <= MAX_BYTES
    ensures Texts(pages) == Concat(lines[start..])
    decreases |pages|
  {
    hide Len, IsLongestHead;
    if pages != [] {
      var p := pages[0];
      PageAdvances(lines, start, limits[0], p);
      TextsCover(lines, p.last, limits[1..], pages[1..]);
      assert lines[start..] == lines[start..p.last] + lines[p.last..];
      ConcatAppend(lines[start..p.last], lines[p.last..]);
    }
  }

  /** With no line over the byte budget the windows put together are the file. */
  lemma WindowsAreTheFile(content: string, limits: seq<Option<nat>>, pages: seq<Page>)
    requires IsPaging(Lines(content), 0, limits, pages)
    requires forall k :: 0 <= k < CountLines(content) ==> Len(Lines(content)[k]) <= MAX_BYTES
    ensures Texts(pages) == content
  {
    LinesWhole(content);
    TextsCover(Lines(content), 0, limits, pages);
    assert Lines(content)[0..] == Lines(content);
  }

  function ContinueAt(note: Note): Option<nat> {
    if note.NoNote? then None else Some(note.next)
  }

  function PageStart(pages: seq<Page>, i: nat, start: nat): nat
    requires i <= |pages|
  {
    if i == 0 then start else Next(pages[i - 1])
  }

  lemma {:induction false} PageOfRun(lines: seq<string>, start: nat, limits: seq<Option<nat>>, pages: seq<Page>, i: nat)
    requires IsPaging(lines, start, limits, pages) && i < |pages|
    ensures |limits| == |pages|
    ensures PageStart(pages, i, start) < |lines|
    ensures IsPage(lines, PageStart(pages, i, start), limits[i], pages[i])
    ensures i == |pages| - 1 <==> Next(pages[i]) == |lines|
    decreases i
  {
    hide IsPage;
    var p := pages[0];
    SameLength(lines, start, limits, pages);
    PageAdvances(lines, start, limits[0], p);
    if i > 0 {
      PageOfRun(lines, Next(p), limits[1..], pages[1..], i - 1);
    } else if |pages| > 1 {
      assert Next(p) < |lines|;
    }
  }

  lemma {:induction false} SameLength(lines: seq<string>, start: nat, limits: seq<Option<nat>>, pages: seq<Page>)
    requires IsPaging(lines, start, limits, pages)
    ensures |limits| == |pages|
    decreases |pages|
  {
    if pages != [] {
      SameLength(lines, Next(pages[0]), limits[1..], pages[1..]);
    }
  }

  /** A window carries a note exactly when it is not the last page, and the note's
      offset is the first line of the page that follows. */
  lemma NoteUnlessLast(content: string, limits: seq<Option<nat>>, pages: seq<Page>, i: nat)
    requires IsPaging(Lines(content), 0, limits, pages) && i < |pages| && pages[i].Window?
    ensures ContinueAt(pages[i].note) ==
            if i == |pages| - 1 then None
            else match pages[i + 1] case OverBudget(line, _, _) => Some(line) case Window(_, first, _, _, _) => Some(first)
  {
    hide IsLongestHead, Len, Lines, Concat;
    PageOfRun(Lines(content), 0, limits, pages, i);
    if i + 1 < |pages| {
      PageOfRun(Lines(content), 0, limits, pages, i + 1);
    }
  }

  function Repeat<T>(x: T, n: nat): seq<T> {
    if n == 0 then [] else Repeat(x, n - 1) + [x]
  }

  /** The loop of a client with one limit: it terminates, and its replies are a
      paging of the file. */
  method PageThrough(content: string, limit: Option<nat>) returns (pages: seq<Page>)
    requires limit != Some(0)
    ensures IsPaging(Lines(content), 0, Repeat(limit, |pages|), pages)
  {
    hide IsPage, Lines, IsPaging;
    pages := [];
    ghost var limits: seq<Option<nat>> := [];
    var total := CountLines(content);
    var next := 0;
    NoPages(Lines(content));
    while next < total
      invariant next <= total
      invariant limits == Repeat(limit, |pages|)
      invariant IsPagingSoFar(Lines(content), 0, limits, pages, next)
    {
      LineThere(content);
      var r := Read(content, Some(next + 1), limit);
      PageAdvances(Lines(content), next, limit, r.page);
      OnePageMore(Lines(content), 0, limits, pages, next, limit, r.page);
      pages, limits := pages + [r.page], limits + [limit];
      next := Next(r.page);
    }
    PagingDone(Lines(content), 0, limits, pages);
  }

  lemma LineThere(content: string)
    ensures CountLines(content) > 0 ==> content != []
  {
  }

  /** A paging cut off before the page that starts at `next`. */
  ghost predicate IsPagingSoFar(lines: seq<string>, start: nat, limits: seq<Option<nat>>, pages: seq<Page>, next: nat)
    decreases |pages|
  {
    if pages == [] then limits == [] && next == start
    else
      && start < |lines| && limits != [] && limits[0] != Some(0)
      && IsPage(lines, start, limits[0], pages[0])
      && IsPagingSoFar(lines, Next(pages[0]), limits[1..], pages[1..], next)
  }

  lemma NoPages(lines: seq<string>)
    ensures IsPagingSoFar(lines, 0, [], [], 0)
  {
  }

  lemma {:induction false} OnePageMore(lines: seq<string>, start: nat, limits: seq<Option<nat>>, pages: seq<Page>, next: nat,
                                       limit: Option<nat>, p: Page)
    requires IsPagingSoFar(lines, start, limits, pages, next)
    requires next < |lines| && limit != Some(0) && IsPage(lines, next, limit, p)
    ensures IsPagingSoFar(lines, start, limits + [limit], pages + [p], Next(p))
    decreases |pages|
  {
    hide IsPage;
    if pages == [] {
      assert (pages + [p])[1..] == [] && (limits + [limit])[1..] == [];
    } else {
      OnePageMore(lines, Next(pages[0]), limits[1..], pages[1..], next, limit, p);
      AppendTail(pages, [p]);
      AppendTail(limits, [limit]);
    }
  }

  lemma {:induction false} PagingDone(lines: seq<string>, start: nat, limits: seq<Option<nat>>, pages: seq<Page>)
    requires IsPagingSoFar(lines, start, limits, pages, |lines|)
    ensures IsPaging(lines, start, limits, pages)
    decreases |pages|
  {
    if pages != [] {
      PagingDone(lines, Next(pages[0]), limits[1..], pages[1..]);
    }
  }

  // ----- the reply, in so many words -----

  /** What limits a window, and what its note says. */
  lemma WindowMeaning(lines: seq<string>, start: nat, limit: Option<nat>, p: Page)
    requires start < |lines| && limit != Some(0) && IsPage(lines, start, limit, p) && p.Window?
    ensures p.first == start + 1 && start < p.last <= |lines| && p.total == |lines|
    ensures p.text == Concat(lines[start..p.last]) && Len(p.text) <= 51200
    ensures var shown := p.last - start;
            var most := if limit.Some? && limit.value < 2000 then limit.value else 2000;
            && shown <= most
            && (p.last < |lines| && shown < most ==> Len(p.text) + Len(lines[p.last]) > 51200)
            && p.note == (
                 if p.last == |lines| then NoNote
                 else if shown < most then ByteLimit(start + 1, p.last, |lines|, p.last + 1)
                 else if limit.Some? && limit.value < 2000 then MoreLines(|lines| - p.last, p.last + 1)
                 else LineLimit(start + 1, p.last, |lines|, p.last + 1))
  {
    hide Concat, Len;
    var rest := lines[start..];
    var shown := p.last - start;
    assert rest[..shown] == lines[start..p.last];
    if p.last < |lines| && shown < LineBudget(limit) {
      OneMore(rest, LineBudget(limit), shown);
      HeadBytesStep(rest, shown);
    }
  }

  /** A line over 51200 bytes is reported, and only such a line. */
  lemma OverBudgetMeaning(lines: seq<string>, start: nat, limit: Option<nat>, p: Page)
    requires start < |lines| && IsPage(lines, start, limit, p)
    ensures p.OverBudget? <==> Len(lines[start]) > 51200
    ensures p.OverBudget? ==> p.line == start + 1 && p.bytes == Len(lines[start]) && p.total == |lines|
  {
    hide Len, Concat, IsLongestHead;
  }

  /** Which reply it is; without an offset the file is shown from its first line. */
  lemma ReplyMeaning(content: string, offset: Option<nat>, limit: Option<nat>, r: Reply)
    requires IsReply(content, offset, limit, r)
    ensures r == BadOffset <==> offset == Some(0)
    ensures r == BadLimit <==> offset != Some(0) && limit == Some(0)
    ensures offset != Some(0) && limit != Some(0) ==>
              && (r == EmptyFile <==> content == [])
              && (content != [] ==>
                    && (r.BeyondEnd? <==> offset.Some? && offset.value > CountLines(content))
                    && (r.BeyondEnd? ==> r == BeyondEnd(offset.value, CountLines(content)))
                    && (!r.BeyondEnd? ==>
                          && r.Shown?
                          && (if r.page.OverBudget? then r.page.line else r.page.first) == (if offset.Some? then offset.value else 1)))
  {
    hide Lines, Len, Concat, IsLongestHead;
    if content != [] {
      SomeLine(content);
    }
  }

  lemma SomeLine(content: string)
    requires content != []
    ensures CountLines(content) > 0
  {
  }
}
