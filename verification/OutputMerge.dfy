/**
 The merge of stdout and stderr of a command (tools/bash.rs): two readers read, tag
 what they have read with numbers of a counter that all commands share, and push it to
 one list, which is sorted by number in the end. The three are steps of their own.
 */
module OutputMerge {
  import opened Seqs
  import opened Sorting
  import opened Utf8

  /** One successful read of a pipe. */
  datatype ReadEvent = ReadEvent(stderr: bool, bytes: seq<Byte>)

  /** `nth` says which read of the command this was; the program does not keep it. */
  datatype Chunk = Chunk(seqno: nat, stderr: bool, bytes: seq<Byte>, nth: nat)

  function NumberOf(c: Chunk): int {
    c.seqno
  }

  /** What a reader holds between two reads. */
  datatype Hold = Nothing | Unnumbered(bytes: seq<Byte>, nth: nat) | Numbered(chunk: Chunk)

  /** `chunks` is in the order of the pushes, `history` in the order of the numbers
      taken, `readings` in the order of the reads. */
  datatype State = State(counter: nat, chunks: seq<Chunk>, out: Hold, err: Hold, history: seq<Chunk>, readings: seq<ReadEvent>)

  /** `Other` is a reader of another command that takes a number. */
  datatype Step = Read(stderr: bool, bytes: seq<Byte>) | TakeNumber(stderr: bool) | Push(stderr: bool) | Other

  function HoldOf(s: State, stderr: bool): Hold {
    if stderr then s.err else s.out
  }

  function WithHold(s: State, stderr: bool, h: Hold): State {
    if stderr then s.(err := h) else s.(out := h)
  }

  predicate Enabled(s: State, step: Step) {
    match step
    case Read(stderr, bytes) => bytes != [] && HoldOf(s, stderr).Nothing?
    case TakeNumber(stderr) => HoldOf(s, stderr).Unnumbered?
    case Push(stderr) => HoldOf(s, stderr).Numbered?
    case Other => true
  }

  /** A step that is not enabled changes nothing. */
  function Next(s: State, step: Step): State {
    if !Enabled(s, step) then s
    else match step
      case Read(stderr, bytes) =>
        WithHold(s, stderr, Unnumbered(bytes, |s.readings|)).(readings := s.readings + [ReadEvent(stderr, bytes)])
      case TakeNumber(stderr) =>
        var h := HoldOf(s, stderr);
        var c := Chunk(s.counter, stderr, h.bytes, h.nth);
        WithHold(s, stderr, Numbered(c)).(counter := s.counter + 1, history := s.history + [c])
      case Push(stderr) =>
        WithHold(s, stderr, Nothing).(chunks := s.chunks + [HoldOf(s, stderr).chunk])
      case Other => s.(counter := s.counter + 1)
  }

  /** The state behind a run that starts with the counter at `first`. */
  function After(first: nat, run: seq<Step>): State {
    if run == [] then State(first, [], Nothing, Nothing, [], [])
    else Next(After(first, run[..|run| - 1]), run[|run| - 1])
  }

  function Only(chunks: seq<Chunk>, stderr: bool): seq<Chunk> {
    if chunks == [] then []
    else (if chunks[0].stderr == stderr then [chunks[0]] else []) + Only(chunks[1..], stderr)
  }

  function Bytes(chunks: seq<Chunk>): seq<Byte> {
    if chunks == [] then [] else chunks[0].bytes + Bytes(chunks[1..])
  }

  /** `all.sort_by_key(|chunk| chunk.seq)` */
  function Merged(chunks: seq<Chunk>): seq<Chunk> {
    SortBy(chunks, NumberOf)
  }

  function Combined(chunks: seq<Chunk>): seq<Byte> {
    Bytes(Merged(chunks))
  }

  function StreamBytes(chunks: seq<Chunk>, stderr: bool): seq<Byte> {
    Bytes(Only(Merged(chunks), stderr))
  }

  // ----- filtering -----

  lemma OnlyCons(c: Chunk, rest: seq<Chunk>, stderr: bool)
    ensures Only([c] + rest, stderr) == if c.stderr == stderr then [c] + Only(rest, stderr) else Only(rest, stderr)
  {
    assert ([c] + rest)[1..] == rest;
  }

  lemma {:induction false} OnlyAppend(a: seq<Chunk>, b: seq<Chunk>, stderr: bool)
    ensures Only(a + b, stderr) == Only(a, stderr) + Only(b, stderr)
  {
    if a == [] {
      assert a + b == b;
    } else {
      hide Only;
      var c, rest := a[0], a[1..];
      OnlyAppend(rest, b, stderr);
      assert a == [c] + rest;
      Assoc([c], rest, b);
      OnlyCons(c, rest, stderr);
      OnlyCons(c, rest + b, stderr);
      Assoc([c], Only(rest, stderr), Only(b, stderr));
    }
  }

  lemma {:induction false} BytesAppend(a: seq<Chunk>, b: seq<Chunk>)
    ensures Bytes(a + b) == Bytes(a) + Bytes(b)
  {
    if a == [] {
      assert a + b == b;
    } else {
      AppendTail(a, b);
      BytesAppend(a[1..], b);
      Assoc(a[0].bytes, Bytes(a[1..]), Bytes(b));
    }
  }

  /** The filtered list has the chunks of its stream and no other. */
  lemma {:induction false} OnlyElements(chunks: seq<Chunk>, stderr: bool, c: Chunk)
    ensures c in Only(chunks, stderr) <==> c in chunks && c.stderr == stderr
  {
    if chunks != [] {
      OnlyElements(chunks[1..], stderr, c);
    }
  }

  lemma OnlySnoc(chunks: seq<Chunk>, c: Chunk, stderr: bool)
    ensures Only(chunks + [c], stderr) == if c.stderr == stderr then Only(chunks, stderr) + [c] else Only(chunks, stderr)
  {
    OnlyAppend(chunks, [c], stderr);
    assert [c][1..] == [];
    assert Only([c], stderr) == if c.stderr == stderr then [c] else [];
  }

  /** All chunks of the stream of `c` come before it. */
  ghost predicate LastOfStream(c: Chunk, chunks: seq<Chunk>) {
    forall x :: x in chunks && x.stderr == c.stderr ==> x.seqno < c.seqno
  }

  lemma NoneBehind(c: Chunk, sorted: seq<Chunk>)
    requires Sorted(sorted, NumberOf) && LastOfStream(c, sorted)
    requires sorted != [] && c.seqno < sorted[0].seqno
    ensures Only(sorted, c.stderr) == []
  {
    forall x | x in sorted
      ensures x.stderr != c.stderr
    {
      var i :| 0 <= i < |sorted| && sorted[i] == x;
      assert NumberOf(sorted[0]) <= NumberOf(sorted[i]);
    }
    NoneOf(sorted, c.stderr);
  }

  lemma SortedTail(sorted: seq<Chunk>, c: Chunk)
    requires Sorted(sorted, NumberOf) && LastOfStream(c, sorted) && sorted != []
    ensures Sorted(sorted[1..], NumberOf) && LastOfStream(c, sorted[1..])
  {
  }

  /** A chunk later than all of its stream goes behind them, wherever it lands
      among those of the other stream. */
  lemma {:induction false} InsertOnly(c: Chunk, sorted: seq<Chunk>, stderr: bool)
    requires Sorted(sorted, NumberOf) && LastOfStream(c, sorted)
    ensures Only(Insert(c, sorted, NumberOf), stderr) ==
            if c.stderr == stderr then Only(sorted, stderr) + [c] else Only(sorted, stderr)
  {
    hide Only, Sorted, LastOfStream;
    if sorted == [] {
      OnlySnoc([], c, stderr);
      assert [] + [c] == [c] + [] == [c];
      assert Insert(c, sorted, NumberOf) == [c];
    } else if c.seqno < sorted[0].seqno {
      NoneBehind(c, sorted);
      OnlyCons(c, sorted, stderr);
      assert [c] + [] == [] + [c] == [c];
      assert Insert(c, sorted, NumberOf) == [c] + sorted;
    } else {
      var head, rest := sorted[0], sorted[1..];
      assert Insert(c, sorted, NumberOf) == [head] + Insert(c, rest, NumberOf);
      SortedTail(sorted, c);
      InsertOnly(c, rest, stderr);
      OnlyCons(head, Insert(c, rest, NumberOf), stderr);
      assert sorted == [head] + rest;
      OnlyCons(head, rest, stderr);
      Assoc([head], Only(rest, stderr), [c]);
    }
  }

  lemma {:induction false} NoneOf(chunks: seq<Chunk>, stderr: bool)
    requires forall x :: x in chunks ==> x.stderr != stderr
    ensures Only(chunks, stderr) == []
  {
    if chunks != [] {
      NoneOf(chunks[1..], stderr);
    }
  }

  lemma InsertElements(c: Chunk, xs: seq<Chunk>, x: Chunk)
    ensures x in Insert(c, xs, NumberOf) <==> x == c || x in xs
  {
    assert x in Insert(c, xs, NumberOf) <==> x in multiset(Insert(c, xs, NumberOf));
    assert x in xs <==> x in multiset(xs);
  }

  lemma ConsStrict(c: Chunk, rest: seq<Chunk>)
    requires StrictlySorted(rest, NumberOf) && forall x :: x in rest ==> c.seqno < x.seqno
    ensures StrictlySorted([c] + rest, NumberOf)
  {
    var all := [c] + rest;
    forall i, j | 0 <= i < j < |all|
      ensures NumberOf(all[i]) < NumberOf(all[j])
    {
      assert all[j] == rest[j - 1];
      assert i > 0 ==> all[i] == rest[i - 1];
    }
  }

  lemma StrictTail(sorted: seq<Chunk>)
    requires StrictlySorted(sorted, NumberOf) && sorted != []
    ensures StrictlySorted(sorted[1..], NumberOf) && forall x :: x in sorted[1..] ==> sorted[0].seqno < x.seqno
  {
    forall x | x in sorted[1..]
      ensures sorted[0].seqno < x.seqno
    {
      var i :| 0 <= i < |sorted| - 1 && sorted[1..][i] == x;
      assert NumberOf(sorted[0]) < NumberOf(sorted[i + 1]);
    }
  }

  lemma {:induction false} InsertStrict(c: Chunk, sorted: seq<Chunk>)
    requires StrictlySorted(sorted, NumberOf)
    requires forall x :: x in sorted ==> x.seqno != c.seqno
    ensures StrictlySorted(Insert(c, sorted, NumberOf), NumberOf)
    decreases |sorted|
  {
    hide StrictlySorted;
    if sorted == [] {
      ConsStrict(c, []);
    } else if c.seqno < sorted[0].seqno {
      StrictTail(sorted);
      assert sorted == [sorted[0]] + sorted[1..];
      ConsStrict(c, sorted);
    } else {
      StrictTail(sorted);
      InsertStrict(c, sorted[1..]);
      var rest := Insert(c, sorted[1..], NumberOf);
      forall x | x in rest
        ensures sorted[0].seqno < x.seqno
      {
        InsertElements(c, sorted[1..], x);
      }
      ConsStrict(sorted[0], rest);
    }
  }

  lemma HeadIsLeast(a: seq<Chunk>, x: Chunk)
    requires StrictlySorted(a, NumberOf) && x in a
    ensures a[0].seqno <= x.seqno
    ensures a[0].seqno == x.seqno ==> a[0] == x
  {
    var i :| 0 <= i < |a| && a[i] == x;
    if i > 0 {
      assert NumberOf(a[0]) < NumberOf(a[i]);
    }
  }

  ghost predicate SameStreams(a: seq<Chunk>, b: seq<Chunk>) {
    forall stderr :: Only(a, stderr) == Only(b, stderr)
  }

  lemma SameElements(a: seq<Chunk>, b: seq<Chunk>, c: Chunk)
    requires SameStreams(a, b)
    ensures c in a <==> c in b
  {
    hide Only;
    OnlyElements(a, c.stderr, c);
    OnlyElements(b, c.stderr, c);
    assert Only(a, c.stderr) == Only(b, c.stderr);
  }

  lemma SameTails(c: Chunk, a: seq<Chunk>, b: seq<Chunk>)
    requires SameStreams([c] + a, [c] + b)
    ensures SameStreams(a, b)
  {
    hide Only;
    forall stderr
      ensures Only(a, stderr) == Only(b, stderr)
    {
      OnlyCons(c, a, stderr);
      OnlyCons(c, b, stderr);
      assert Only([c] + a, stderr) == Only([c] + b, stderr);
      if c.stderr == stderr {
        assert ([c] + Only(a, stderr))[1..] == Only(a, stderr);
        assert ([c] + Only(b, stderr))[1..] == Only(b, stderr);
      }
    }
  }

  /** Two lists in the order of the numbers with the same streams are the same. */
  lemma {:induction false} ShuffleUnique(a: seq<Chunk>, b: seq<Chunk>)
    requires StrictlySorted(a, NumberOf) && StrictlySorted(b, NumberOf) && SameStreams(a, b)
    ensures a == b
  {
    hide SameStreams;
    if a == [] {
      if b != [] {
        SameElements(a, b, b[0]);
      }
    } else {
      SameElements(a, b, a[0]);
      SameElements(a, b, b[0]);
      HeadIsLeast(a, b[0]);
      HeadIsLeast(b, a[0]);
      assert a == [a[0]] + a[1..] && b == [a[0]] + b[1..];
      SameTails(a[0], a[1..], b[1..]);
      ShuffleUnique(a[1..], b[1..]);
    }
  }

  // ----- the invariant -----

  function Held(s: State, stderr: bool): seq<Chunk> {
    var h := HoldOf(s, stderr);
    if h.Numbered? then [h.chunk] else []
  }

  /** Sorted, what was pushed is each stream as read, up to the chunk its reader holds. */
  ghost predicate Inv(s: State) {
    && StrictlySorted(s.history, NumberOf) && (forall c :: c in s.history ==> c.seqno < s.counter)
    && StrictlySorted(Merged(s.chunks), NumberOf)
    && (forall stderr :: Only(s.history, stderr) == Only(Merged(s.chunks), stderr) + Held(s, stderr))
  }

  lemma HistoryGrows(history: seq<Chunk>, c: Chunk)
    requires StrictlySorted(history, NumberOf) && forall x :: x in history ==> x.seqno < c.seqno
    ensures StrictlySorted(history + [c], NumberOf)
    ensures forall x :: x in history + [c] ==> x.seqno <= c.seqno
  {
    var h := history + [c];
    forall i, j | 0 <= i < j < |h|
      ensures NumberOf(h[i]) < NumberOf(h[j])
    {
      assert h[i] == history[i];
      assert h[j] == if j < |history| then history[j] else c;
    }
  }

  lemma NumberKeeps(s: State, stderr: bool)
    requires Inv(s) && Enabled(s, TakeNumber(stderr))
    ensures Inv(Next(s, TakeNumber(stderr)))
  {
    hide Only, Merged, StrictlySorted;
    var h := HoldOf(s, stderr);
    var c := Chunk(s.counter, stderr, h.bytes, h.nth);
    var s' := Next(s, TakeNumber(stderr));
    HistoryGrows(s.history, c);
    forall r
      ensures Only(s'.history, r) == Only(Merged(s'.chunks), r) + Held(s', r)
    {
      OnlySnoc(s.history, c, r);
    }
  }

  lemma ReadKeeps(s: State, stderr: bool, bytes: seq<Byte>)
    requires Inv(s) && Enabled(s, Read(stderr, bytes))
    ensures Inv(Next(s, Read(stderr, bytes)))
  {
    hide Only, Merged, StrictlySorted;
    var s' := Next(s, Read(stderr, bytes));
    forall r
      ensures Only(s'.history, r) == Only(Merged(s'.chunks), r) + Held(s', r)
    {
      assert Held(s', r) == Held(s, r);
    }
  }

  lemma HeldStream(s: State, stderr: bool)
    requires Inv(s) && HoldOf(s, stderr).Numbered?
    ensures var c := HoldOf(s, stderr).chunk;
            c.stderr == stderr && c in s.history && Only(s.history, stderr) == Only(Merged(s.chunks), stderr) + [c]
  {
    hide Only, Merged;
    var c := HoldOf(s, stderr).chunk;
    var stream := Only(s.history, stderr);
    assert stream == Only(Merged(s.chunks), stderr) + [c];
    assert stream[|stream| - 1] == c;
    OnlyElements(s.history, stderr, c);
  }

  lemma BeforeLast(before: seq<Chunk>, c: Chunk, x: Chunk)
    requires StrictlySorted(before + [c], NumberOf) && x in before
    ensures x.seqno < c.seqno
  {
    var i :| 0 <= i < |before| && before[i] == x;
    var all := before + [c];
    assert all[i] == x && all[|before|] == c;
    assert NumberOf(all[i]) < NumberOf(all[|before|]);
  }

  lemma NumbersDiffer(a: seq<Chunk>, x: Chunk, y: Chunk)
    requires StrictlySorted(a, NumberOf) && x in a && y in a && x != y
    ensures x.seqno != y.seqno
  {
    var i :| 0 <= i < |a| && a[i] == x;
    var j :| 0 <= j < |a| && a[j] == y;
    if i < j {
      assert NumberOf(a[i]) < NumberOf(a[j]);
    } else {
      assert NumberOf(a[j]) < NumberOf(a[i]);
    }
  }

  /** A held chunk has a number of its own, greater than those of its stream. */
  lemma HeldIsLast(s: State, stderr: bool, x: Chunk)
    requires Inv(s) && HoldOf(s, stderr).Numbered? && x in Merged(s.chunks)
    ensures var c := HoldOf(s, stderr).chunk;
            x.seqno != c.seqno && (x.stderr == stderr ==> x.seqno < c.seqno)
  {
    hide Only, Merged, StrictlySorted;
    var c := HoldOf(s, stderr).chunk;
    var merged := Merged(s.chunks);
    HeldStream(s, stderr);
    OnlyElements(merged, x.stderr, x);
    OnlyElements(s.history, x.stderr, x);
    assert Only(s.history, x.stderr) == Only(merged, x.stderr) + Held(s, x.stderr);
    assert x in s.history;
    if x.stderr == stderr {
      OnlySorted(s.history, stderr);
      BeforeLast(Only(merged, stderr), c, x);
    } else {
      NumbersDiffer(s.history, x, c);
    }
  }

  lemma {:induction false} OnlySorted(chunks: seq<Chunk>, stderr: bool)
    requires StrictlySorted(chunks, NumberOf)
    ensures StrictlySorted(Only(chunks, stderr), NumberOf)
  {
    if chunks != [] {
      OnlySorted(chunks[1..], stderr);
      var rest := Only(chunks[1..], stderr);
      forall j | 0 <= j < |rest|
        ensures NumberOf(chunks[0]) < NumberOf(rest[j])
      {
        OnlyElements(chunks[1..], stderr, rest[j]);
      }
    }
  }

  lemma PushKeeps(s: State, stderr: bool)
    requires Inv(s) && Enabled(s, Push(stderr))
    ensures Inv(Next(s, Push(stderr)))
  {
    hide Only, SortBy, Insert, StrictlySorted, Sorted, Merged;
    var c := HoldOf(s, stderr).chunk;
    var s' := Next(s, Push(stderr));
    var merged := Merged(s.chunks);
    HeldStream(s, stderr);
    forall x | x in merged
      ensures x.seqno != c.seqno && (x.stderr == c.stderr ==> x.seqno < c.seqno)
    {
      HeldIsLast(s, stderr, x);
    }
    SortSnoc(s.chunks, c);
    InsertStrict(c, merged);
    MergedSorted(s.chunks);
    forall r
      ensures Only(s'.history, r) == Only(Merged(s'.chunks), r) + Held(s', r)
    {
      InsertOnly(c, merged, r);
      assert Only(s.history, r) == Only(merged, r) + Held(s, r);
    }
  }

  lemma MergedSorted(chunks: seq<Chunk>)
    ensures Sorted(Merged(chunks), NumberOf)
  {
    SortBySorted(chunks, NumberOf);
  }

  lemma SortSnoc(chunks: seq<Chunk>, c: Chunk)
    ensures Merged(chunks + [c]) == Insert(c, Merged(chunks), NumberOf)
  {
    var all := chunks + [c];
    assert all[..|all| - 1] == chunks;
  }

  lemma NextKeeps(s: State, step: Step)
    requires Inv(s)
    ensures Inv(Next(s, step))
  {
    if Enabled(s, step) {
      match step
      case Read(stderr, bytes) => ReadKeeps(s, stderr, bytes);
      case TakeNumber(stderr) => NumberKeeps(s, stderr);
      case Push(stderr) => PushKeeps(s, stderr);
      case Other =>
        hide Only, Merged, StrictlySorted;
        assert forall stderr :: Held(Next(s, Other), stderr) == Held(s, stderr);
    }
  }

  lemma {:induction false} RunKeeps(first: nat, run: seq<Step>)
    ensures Inv(After(first, run))
  {
    hide Next, Inv;
    if run == [] {
      InitKeeps(first);
    } else {
      RunKeeps(first, run[..|run| - 1]);
      NextKeeps(After(first, run[..|run| - 1]), run[|run| - 1]);
    }
  }

  lemma InitKeeps(first: nat)
    ensures Inv(State(first, [], Nothing, Nothing, [], []))
  {
  }

  // ----- what the merge is -----

  /** What was read from one pipe, in the order of the reads. */
  function StreamRead(readings: seq<ReadEvent>, stderr: bool): seq<Byte> {
    if readings == [] then []
    else
      var n := |readings| - 1;
      StreamRead(readings[..n], stderr) + (if readings[n].stderr == stderr then readings[n].bytes else [])
  }

  function NotYetNumbered(s: State, stderr: bool): seq<Byte> {
    var h := HoldOf(s, stderr);
    if h.Unnumbered? then h.bytes else []
  }

  ghost predicate Accounted(s: State) {
    forall stderr :: StreamRead(s.readings, stderr) == Bytes(Only(s.history, stderr)) + NotYetNumbered(s, stderr)
  }

  lemma AccountRead(s: State, stderr: bool, bytes: seq<Byte>)
    requires Accounted(s) && Enabled(s, Read(stderr, bytes))
    ensures Accounted(Next(s, Read(stderr, bytes)))
  {
    hide Only, Bytes;
    var t := Next(s, Read(stderr, bytes));
    forall r
      ensures StreamRead(t.readings, r) == Bytes(Only(t.history, r)) + NotYetNumbered(t, r)
    {
      assert t.readings[..|t.readings| - 1] == s.readings;
      assert StreamRead(s.readings, r) == Bytes(Only(s.history, r)) + NotYetNumbered(s, r);
    }
  }

  lemma AccountNumber(s: State, stderr: bool)
    requires Accounted(s) && Enabled(s, TakeNumber(stderr))
    ensures Accounted(Next(s, TakeNumber(stderr)))
  {
    hide Only, StreamRead;
    var t := Next(s, TakeNumber(stderr));
    var c := t.history[|s.history|];
    forall r
      ensures StreamRead(t.readings, r) == Bytes(Only(t.history, r)) + NotYetNumbered(t, r)
    {
      assert StreamRead(s.readings, r) == Bytes(Only(s.history, r)) + NotYetNumbered(s, r);
      OnlySnoc(s.history, c, r);
      BytesAppend(Only(s.history, r), [c]);
      assert Bytes([c]) == c.bytes + Bytes([]) == c.bytes;
    }
  }

  lemma {:induction false} RunAccounted(first: nat, run: seq<Step>)
    ensures Accounted(After(first, run))
  {
    if run != [] {
      hide Only, Bytes, StreamRead;
      var n := |run| - 1;
      var s := After(first, run[..n]);
      RunAccounted(first, run[..n]);
      if Enabled(s, run[n]) {
        match run[n]
        case Read(stderr, bytes) => AccountRead(s, stderr, bytes);
        case TakeNumber(stderr) => AccountNumber(s, stderr);
        case _ => assert forall r :: NotYetNumbered(Next(s, run[n]), r) == NotYetNumbered(s, r);
      }
    }
  }

  /** After any interleaving, and whatever other commands take from the counter, the
      filtered merge is each stream as it was read; only what its reader has not pushed
      yet, from one read, is missing at the end. */
  lemma EachStreamInOrder(first: nat, run: seq<Step>, stderr: bool)
    ensures var s := After(first, run);
            StreamRead(s.readings, stderr) == StreamBytes(s.chunks, stderr) + Bytes(Held(s, stderr)) + NotYetNumbered(s, stderr)
    ensures var s := After(first, run);
            Held(s, stderr) == [] || NotYetNumbered(s, stderr) == []
  {
    hide Merged, Only, After, StreamRead;
    RunKeeps(first, run);
    RunAccounted(first, run);
    var s := After(first, run);
    BytesAppend(Only(Merged(s.chunks), stderr), Held(s, stderr));
  }

  predicate Done(s: State) {
    s.out.Nothing? && s.err.Nothing?
  }

  /** When both readers are done the merge is everything read, in the order in which
      the numbers were taken, in whatever order it was pushed. */
  lemma MergeIsHistory(first: nat, run: seq<Step>)
    requires Done(After(first, run))
    ensures Merged(After(first, run).chunks) == After(first, run).history
    ensures Combined(After(first, run).chunks) == Bytes(After(first, run).history)
    ensures forall stderr :: StreamBytes(After(first, run).chunks, stderr) == StreamRead(After(first, run).readings, stderr)
  {
    hide Merged, After, Only, StreamRead;
    RunKeeps(first, run);
    RunAccounted(first, run);
    var s := After(first, run);
    forall stderr
      ensures Only(Merged(s.chunks), stderr) == Only(s.history, stderr)
      ensures StreamBytes(s.chunks, stderr) == StreamRead(s.readings, stderr)
    {
      assert Held(s, stderr) == [] && NotYetNumbered(s, stderr) == [];
      assert StreamRead(s.readings, stderr) == Bytes(Only(s.history, stderr)) + NotYetNumbered(s, stderr);
    }
    ShuffleUnique(Merged(s.chunks), s.history);
  }

  // ----- the order of the readings -----

  /** A reader takes a number while the other one still holds an earlier read. */
  predicate Overtakes(s: State, step: Step) {
    && step.TakeNumber? && Enabled(s, step)
    && HoldOf(s, !step.stderr).Unnumbered?
    && HoldOf(s, !step.stderr).nth < HoldOf(s, step.stderr).nth
  }

  predicate RunOvertakes(first: nat, run: seq<Step>) {
    run != [] &&
    (RunOvertakes(first, run[..|run| - 1]) || Overtakes(After(first, run[..|run| - 1]), run[|run| - 1]))
  }

  predicate InReadOrder(chunks: seq<Chunk>) {
    forall i :: 0 <= i < |chunks| ==> chunks[i].nth == i
  }

  predicate InHistory(history: seq<Chunk>, nth: nat) {
    exists i :: 0 <= i < |history| && history[i].nth == nth
  }

  predicate Waits(s: State, nth: nat) {
    (s.out.Unnumbered? && s.out.nth == nth) || (s.err.Unnumbered? && s.err.nth == nth)
  }

  /** The read has one place: in the history or with its reader. */
  predicate PlaceOf(s: State, n: nat) {
    && (n < |s.readings| <==> InHistory(s.history, n) || Waits(s, n))
    && (Waits(s, n) ==> !InHistory(s.history, n))
  }

  ghost predicate Placed(s: State) {
    && (forall n: nat :: PlaceOf(s, n))
    && !(s.out.Unnumbered? && s.err.Unnumbered? && s.out.nth == s.err.nth)
    && (forall i :: 0 <= i < |s.history| ==>
          s.history[i].nth < |s.readings| && s.readings[s.history[i].nth] == ReadEvent(s.history[i].stderr, s.history[i].bytes))
    && (forall r :: HoldOf(s, r).Unnumbered? ==>
          HoldOf(s, r).nth < |s.readings| && s.readings[HoldOf(s, r).nth] == ReadEvent(r, HoldOf(s, r).bytes))
  }

  /** Some read has been numbered before an earlier one. */
  ghost predicate OutOfOrder(s: State) {
    || (exists i, j :: 0 <= i < j < |s.history| && s.history[j].nth < s.history[i].nth)
    || (exists i, n: nat :: 0 <= i < |s.history| && Waits(s, n) && n < s.history[i].nth)
  }

  lemma HistoryMore(history: seq<Chunk>, c: Chunk, n: nat)
    ensures InHistory(history + [c], n) <==> InHistory(history, n) || c.nth == n
  {
    var more := history + [c];
    assert more[|history|] == c;
    if InHistory(history, n) {
      var i :| 0 <= i < |history| && history[i].nth == n;
      assert more[i].nth == n;
    }
  }

  lemma PlacedNumber(s: State, stderr: bool)
    requires Placed(s) && Enabled(s, TakeNumber(stderr))
    ensures Placed(Next(s, TakeNumber(stderr)))
  {
    hide InHistory;
    var t := Next(s, TakeNumber(stderr));
    var c := t.history[|s.history|];
    forall n: nat
      ensures PlaceOf(t, n)
    {
      assert PlaceOf(s, n);
      HistoryMore(s.history, c, n);
    }
    forall r | HoldOf(t, r).Unnumbered?
      ensures HoldOf(t, r) == HoldOf(s, r)
    {
    }
  }

  /** A step that numbers nothing: every read has its place, a new one with its reader. */
  lemma PlacedElse(s: State, step: Step)
    requires Placed(s) && Enabled(s, step) && !step.TakeNumber?
    ensures Placed(Next(s, step))
  {
    hide InHistory;
    var t := Next(s, step);
    assert PlaceOf(s, |s.readings|);
    forall n: nat
      ensures PlaceOf(t, n)
    {
      assert PlaceOf(s, n);
    }
    forall r | HoldOf(t, r).Unnumbered?
      ensures HoldOf(t, r) == HoldOf(s, r) || (step.Read? && step.stderr == r && HoldOf(t, r) == Unnumbered(step.bytes, |s.readings|))
    {
    }
    assert forall r :: HoldOf(s, r).Unnumbered? ==> HoldOf(s, r).nth < |s.readings|;
  }

  /** In order so far, and no earlier read is waiting: the next number is for the next read. */
  lemma NextInLine(s: State, stderr: bool)
    requires Placed(s) && InReadOrder(s.history) && Enabled(s, TakeNumber(stderr)) && !Overtakes(s, TakeNumber(stderr))
    ensures HoldOf(s, stderr).nth == |s.history|
  {
    var n := |s.history|;
    var mine := HoldOf(s, stderr).nth;
    assert forall k: nat :: k < n ==> s.history[k].nth == k && InHistory(s.history, k);
    assert PlaceOf(s, mine) && Waits(s, mine);
    assert mine >= n;
    assert !InHistory(s.history, n);
    assert PlaceOf(s, n);
    assert Waits(s, n);
  }

  lemma StaysInOrder(s: State, stderr: bool)
    requires Placed(s) && Enabled(s, TakeNumber(stderr)) && InReadOrder(s.history) && !Overtakes(s, TakeNumber(stderr))
    ensures InReadOrder(Next(s, TakeNumber(stderr)).history)
  {
    hide Placed, Overtakes;
    NextInLine(s, stderr);
  }

  lemma FallsOutOfOrder(s: State, stderr: bool)
    requires Enabled(s, TakeNumber(stderr)) && (OutOfOrder(s) || Overtakes(s, TakeNumber(stderr)))
    ensures OutOfOrder(Next(s, TakeNumber(stderr)))
  {
    var t := Next(s, TakeNumber(stderr));
    var k := |s.history|;
    var c := t.history[k];
    assert forall i :: 0 <= i < k ==> t.history[i] == s.history[i];
    if Overtakes(s, TakeNumber(stderr)) {
      var n := HoldOf(s, !stderr).nth;
      assert Waits(t, n) && n < t.history[k].nth;
    } else if i, j :| 0 <= i < j < k && s.history[j].nth < s.history[i].nth {
      assert t.history[j].nth < t.history[i].nth;
    } else if i, n: nat :| 0 <= i < k && Waits(s, n) && n < s.history[i].nth {
      if n == c.nth {
        assert t.history[k].nth < t.history[i].nth;
      } else {
        assert Waits(t, n) && n < t.history[i].nth;
      }
    }
  }

  /** Reading and pushing change nothing about the order. */
  lemma OrderElse(s: State, step: Step)
    requires Placed(s) && !step.TakeNumber?
    ensures OutOfOrder(s) ==> OutOfOrder(Next(s, step))
    ensures Next(s, step).history == s.history
  {
    var t := Next(s, step);
    if i, j :| 0 <= i < j < |s.history| && s.history[j].nth < s.history[i].nth {
      assert t.history[j].nth < t.history[i].nth;
    } else if i, n: nat :| 0 <= i < |s.history| && Waits(s, n) && n < s.history[i].nth {
      assert Waits(t, n) && n < t.history[i].nth;
    }
  }

  lemma {:induction false} RunOrder(first: nat, run: seq<Step>)
    ensures var s := After(first, run);
            && Placed(s)
            && (RunOvertakes(first, run) ==> OutOfOrder(s))
            && (!RunOvertakes(first, run) ==> InReadOrder(s.history))
  {
    if run != [] {
      var n := |run| - 1;
      var s := After(first, run[..n]);
      RunOrder(first, run[..n]);
      hide Placed, OutOfOrder, InReadOrder, Overtakes;
      if !Enabled(s, run[n]) {
        NotOvertaking(s, run[n]);
      } else {
        match run[n]
        case TakeNumber(stderr) =>
          PlacedNumber(s, stderr);
          if RunOvertakes(first, run) {
            FallsOutOfOrder(s, stderr);
          } else {
            StaysInOrder(s, stderr);
          }
        case _ =>
          PlacedElse(s, run[n]);
          OrderElse(s, run[n]);
          NotOvertaking(s, run[n]);
      }
    }
  }

  lemma NotOvertaking(s: State, step: Step)
    requires !step.TakeNumber? || !Enabled(s, step)
    ensures !Overtakes(s, step)
  {
  }

  /** Everything that was read, in the order of the reads. */
  function AllRead(readings: seq<ReadEvent>): seq<Byte> {
    if readings == [] then [] else readings[0].bytes + AllRead(readings[1..])
  }

  lemma {:induction false} SameBytes(chunks: seq<Chunk>, readings: seq<ReadEvent>)
    requires |chunks| == |readings| && forall i :: 0 <= i < |chunks| ==> chunks[i].bytes == readings[i].bytes
    ensures Bytes(chunks) == AllRead(readings)
  {
    if chunks != [] {
      SameBytes(chunks[1..], readings[1..]);
    }
  }

  /** The merge is in the order of the reads if and only if no reader ever took a
      number while the other one still held an earlier read. */
  lemma ReadOrderExactly(first: nat, run: seq<Step>)
    requires Done(After(first, run))
    ensures InReadOrder(Merged(After(first, run).chunks)) <==> !RunOvertakes(first, run)
    ensures !RunOvertakes(first, run) ==> Combined(After(first, run).chunks) == AllRead(After(first, run).readings)
  {
    hide After, Merged, RunOvertakes, Bytes, AllRead;
    MergeIsHistory(first, run);
    RunOrder(first, run);
    var s := After(first, run);
    if RunOvertakes(first, run) {
      assert !InReadOrder(s.history);
    } else {
      Complete(s);
      SameBytes(s.history, s.readings);
    }
  }

  lemma Complete(s: State)
    requires Placed(s) && Done(s) && InReadOrder(s.history)
    ensures |s.history| == |s.readings|
    ensures forall i :: 0 <= i < |s.history| ==> s.history[i].bytes == s.readings[i].bytes
  {
    assert PlaceOf(s, |s.history|);
    assert s.history != [] ==> s.history[|s.history| - 1].nth == |s.history| - 1;
  }

  /** A read of stderr comes second and overtakes the first one, of stdout. */
  function OvertakingRun(a: Byte, b: Byte): seq<Step> {
    [] + [Read(false, [a])] + [Read(true, [b])] + [TakeNumber(true)] + [TakeNumber(false)] + [Push(false)] + [Push(true)]
  }

  lemma OvertakenExample(a: Byte, b: Byte)
    ensures var run := OvertakingRun(a, b);
            var s := After(0, run);
            && Done(s) && RunOvertakes(0, run)
            && AllRead(s.readings) == [a, b] && Combined(s.chunks) == [b, a]
  {
    hide After, Merged, AllRead, Bytes, RunOvertakes, OvertakingRun;
    var run := OvertakingRun(a, b);
    OvertakingEnds(a, b);
    MergeIsHistory(0, run);
    TwoBytes(Chunk(0, true, [b], 1), Chunk(1, false, [a], 0), [ReadEvent(false, [a]), ReadEvent(true, [b])]);
  }

  lemma OvertakingEnds(a: Byte, b: Byte)
    ensures RunOvertakes(0, OvertakingRun(a, b))
    ensures After(0, OvertakingRun(a, b)) ==
            State(2, [Chunk(1, false, [a], 0), Chunk(0, true, [b], 1)], Nothing, Nothing,
                  [Chunk(0, true, [b], 1), Chunk(1, false, [a], 0)], [ReadEvent(false, [a]), ReadEvent(true, [b])])
  {
    hide Next, Overtakes, RunOvertakes, After;
    Start(0);
    ExampleSteps(a, b);
    Snoc(0, [], Read(false, [a]));
    Snoc(0, [] + [Read(false, [a])], Read(true, [b]));
    Snoc(0, [] + [Read(false, [a])] + [Read(true, [b])], TakeNumber(true));
    Snoc(0, [] + [Read(false, [a])] + [Read(true, [b])] + [TakeNumber(true)], TakeNumber(false));
    Snoc(0, [] + [Read(false, [a])] + [Read(true, [b])] + [TakeNumber(true)] + [TakeNumber(false)], Push(false));
    Snoc(0, [] + [Read(false, [a])] + [Read(true, [b])] + [TakeNumber(true)] + [TakeNumber(false)] + [Push(false)], Push(true));
  }

  lemma Start(first: nat)
    ensures After(first, []) == State(first, [], Nothing, Nothing, [], [])
  {
  }

  lemma Snoc(first: nat, run: seq<Step>, step: Step)
    ensures After(first, run + [step]) == Next(After(first, run), step)
    ensures RunOvertakes(first, run + [step]) <==> RunOvertakes(first, run) || Overtakes(After(first, run), step)
  {
    assert (run + [step])[..|run|] == run;
  }

  lemma ExampleSteps(a: Byte, b: Byte)
    ensures var c, d := Chunk(0, true, [b], 1), Chunk(1, false, [a], 0);
            var x, y := ReadEvent(false, [a]), ReadEvent(true, [b]);
            var s2 := State(0, [], Unnumbered([a], 0), Unnumbered([b], 1), [], [x, y]);
            var s3 := State(1, [], Unnumbered([a], 0), Numbered(c), [c], [x, y]);
            var s4 := State(2, [], Numbered(d), Numbered(c), [c, d], [x, y]);
            && Next(Next(State(0, [], Nothing, Nothing, [], []), Read(false, [a])), Read(true, [b])) == s2
            && Next(s2, TakeNumber(true)) == s3 && Overtakes(s2, TakeNumber(true))
            && Next(s3, TakeNumber(false)) == s4
            && Next(Next(s4, Push(false)), Push(true)) == State(2, [d, c], Nothing, Nothing, [c, d], [x, y])
  {
  }

  lemma TwoBytes(c: Chunk, d: Chunk, readings: seq<ReadEvent>)
    requires |c.bytes| == |d.bytes| == 1 && |readings| == 2
    ensures Bytes([c, d]) == [c.bytes[0], d.bytes[0]]
    ensures AllRead(readings) == readings[0].bytes + readings[1].bytes
  {
    assert [c, d][1..] == [d] && [d][1..] == [];
    assert Bytes([d]) == d.bytes + Bytes([]) == d.bytes;
    assert readings[1..][1..] == [];
    assert AllRead(readings[1..]) == readings[1].bytes + AllRead([]) == readings[1].bytes;
  }

  // ----- the order of the pushes -----

  /** The order of the pushes makes no difference, at any moment of a run. */
  lemma PushOrderIrrelevant(first: nat, run: seq<Step>, chunks: seq<Chunk>)
    requires multiset(chunks) == multiset(After(first, run).chunks)
    ensures Merged(chunks) == Merged(After(first, run).chunks)
  {
    RunKeeps(first, run);
    hide After;
    SortStrict(chunks, Merged(After(first, run).chunks), NumberOf);
  }
}
