/**
 Where the guarantees of the mutation protocol end: runs in which a file or an update
 is lost, and the exact conditions under which none is.
 */
module ProtocolLimits {
  import opened Seqs
  import opened Utf8
  import opened Normalizer
  import opened LineEndings
  import opened EditRun
  import opened EditFormat
  import opened PathResolver
  import opened MutationProtocol
  import opened ProtocolInvariant
  import opened ProtocolTheorems
  import opened ProtocolRuns

  lemma FromTheStart(nfkc: Nfkc, r: Rules, files0: map<Path, Bytes>, s: State)
    requires Goes(nfkc, r, Initial(files0), s)
    ensures Reachable(nfkc, r, files0, s)
  {
    hide AdmittedRun, Exec, Initial;
  }

  /** A write can always begin and commit. */
  lemma FirstWriteCan(nfkc: Nfkc, r: Rules, files: map<Path, Bytes>, path: Path, content: Bytes, hex: string)
    requires path in r.targets && HasFileName(path) && IsHex(hex)
    ensures CanCommit(nfkc, r, Initial(files), 0, path, WriteOp(content), content, hex)
  {
    WriteEffect(nfkc, WriteOp(content));
  }

  // ----- temp files that somebody else owns -----

  lemma ReplayOne(files: map<Path, Bytes>, e: Commit)
    ensures Replay(files, [e]) == files[e.path := e.after]
  {
    assert [e][..0] == [];
  }

  /** A file in the place of a temp file of a target is lost, and nothing in the log
      says so: a write of the target can draw just these digits. */
  lemma TempFileLost(nfkc: Nfkc, r: Rules, target: Path, hex: string, a: Bytes) returns (s: State)
    requires target in r.targets && HasFileName(target) && IsHex(hex)
    ensures var p := TempPath(target, hex);
            var files0 := map[p := a];
            && Reachable(nfkc, r, files0, s)
            && Lookup(s.files, p) == None && Lookup(Replay(files0, s.log), p) == Some(a)
  {
    hide TempPath, IsHex, HasFileName, Goes, Reachable, CanCommit, Replay;
    var p := TempPath(target, hex);
    var files0 := map[p := a];
    FirstWriteCan(nfkc, r, files0, target, [], hex);
    s := UndisturbedCallCommits(nfkc, r, Initial(files0), 0, target, WriteOp([]), [], hex);
    FromTheStart(nfkc, r, files0, s);
    TempDiffers(target, hex);
    var e := Commit(0, target, WriteOp([]), None, Lookup(files0, target), []);
    assert s.log == [e];
    ReplayOne(files0, e);
  }

  /** In every admitted run the file holds what the log says. */
  ghost predicate FollowsLog(nfkc: Nfkc, r: Rules, p: Path) {
    forall files0: map<Path, Bytes>, s: State ::
      Reachable(nfkc, r, files0, s) ==> Lookup(s.files, p) == Lookup(Replay(files0, s.log), p)
  }

  /** That holds for exactly the files that are no temp file of a target. */
  lemma FollowsLogExactly(nfkc: Nfkc, r: Rules, p: Path)
    requires Sound(r)
    ensures FollowsLog(nfkc, r, p) <==> !Endangered(r.targets, p)
  {
    hide Reachable, Replay, TempPath, IsHex, HasFileName, Sound;
    if Endangered(r.targets, p) {
      var target: Path, hex: string :|
        target in r.targets && HasFileName(target) && IsHex(hex) && p == TempPath(target, hex);
      var s := TempFileLost(nfkc, r, target, hex, []);
      assert !FollowsLog(nfkc, r, p);
    } else {
      forall files0: map<Path, Bytes>, s: State | Reachable(nfkc, r, files0, s)
        ensures Lookup(s.files, p) == Lookup(Replay(files0, s.log), p)
      {
        NoLostUpdate(nfkc, r, files0, s);
      }
    }
  }

  // ----- operations under way -----

  /** A call for the file is dropped during its rename. */
  lemma GoesToDropped(nfkc: Nfkc, r: Rules, path: Path, op: Op, a: Bytes, out: Bytes, hex: string) returns (t: State)
    requires CanCommit(nfkc, r, Initial(map[path := a]), 0, path, op, out, hex)
    ensures Goes(nfkc, r, Initial(map[path := a]), t)
    ensures t == Leftover(path, op, map[path := a][TempPath(path, hex) := out], hex,
                   Replacement(op, ReadOf(op, map[path := a], path), out))
  {
    hide Goes, TempPath, IsHex, HasFileName, Effect;
    var s0 := Initial(map[path := a]);
    GoesToRename(nfkc, r, s0, 0, path, op, out, hex);
    var s1 := BeforeRename(s0, 0, path, op, out, hex);
    t := Next(nfkc, s1, CancelDuringRename(0)).value;
    GoesOn(nfkc, r, s0, s1, CancelDuringRename(0), t);
  }

  /** A first call is over, but for one operation. */
  function Leftover(path: Path, op: Op, files: map<Path, Bytes>, hex: string, action: Action): State {
    State(files, map[path := 0], 1, map[], {0}, map[0 := Call(path, op, Closed(false))], [], [Detached(0, path, hex, action)])
  }

  /** A call for the file is dropped while it creates its temp file. */
  lemma GoesToDroppedCreate(nfkc: Nfkc, r: Rules, path: Path, op: Op, a: Bytes, out: Bytes, hex: string) returns (t: State)
    requires CanCommit(nfkc, r, Initial(map[path := a]), 0, path, op, out, hex)
    ensures Goes(nfkc, r, Initial(map[path := a]), t)
    ensures t == Leftover(path, op, map[path := a], hex, Creation)
  {
    hide Goes, TempPath, IsHex, HasFileName, Effect, ReadOf;
    var s0 := Initial(map[path := a]);
    var s1 := GoesToReady(nfkc, r, s0, 0, path, op, out, hex);
    t := Next(nfkc, s1, CancelDuringCreate(0, hex)).value;
    GoesOn(nfkc, r, s0, s1, CancelDuringCreate(0, hex), t);
  }

  /** A call for the file is dropped while it writes its temp file. */
  lemma GoesToDroppedWrite(nfkc: Nfkc, r: Rules, path: Path, op: Op, a: Bytes, out: Bytes, hex: string) returns (t: State)
    requires CanCommit(nfkc, r, Initial(map[path := a]), 0, path, op, out, hex)
    ensures Goes(nfkc, r, Initial(map[path := a]), t)
    ensures t == Leftover(path, op, map[path := a][TempPath(path, hex) := []], hex, Change(0, out))
  {
    hide Goes, TempPath, IsHex, HasFileName, Effect, ReadOf;
    var s0 := Initial(map[path := a]);
    var s1 := GoesToReady(nfkc, r, s0, 0, path, op, out, hex);
    var s2 := Next(nfkc, s1, CreateTemp(0, hex, true)).value;
    GoesOn(nfkc, r, s0, s1, CreateTemp(0, hex, true), s2);
    assert out[0..|out|] == out;
    t := Next(nfkc, s2, CancelDuringWrite(0, |out|)).value;
    GoesOn(nfkc, r, s0, s2, CancelDuringWrite(0, |out|), t);
  }

  lemma LandNow(nfkc: Nfkc, r: Rules, s0: State, s: State) returns (t: State)
    requires Goes(nfkc, r, s0, s) && |s.detached| == 1 && s.detached[0].action.Replacement?
    requires var d := s.detached[0]; HasFileName(d.path) && TempPath(d.path, d.hex) in s.files && d.c in s.calls
    ensures Goes(nfkc, r, s0, t)
    ensures var d := s.detached[0];
            var tmp := TempPath(d.path, d.hex);
            && t.files == s.files[d.path := s.files[tmp]] - {tmp}
            && t.log == s.log + [Commit(d.c, d.path, d.action.op, d.action.read, Lookup(s.files, d.path), s.files[tmp])]
  {
    hide Goes, TempPath, HasFileName;
    t := Landed(s, 0, true);
    assert s.detached[..0] + s.detached[1..] == [];
    GoesOn(nfkc, r, s0, s, Land(0, true), t);
  }

  /** What a late create or write makes of a temp file that holds `y`. */
  function Spoiled(action: Action, y: Bytes): Bytes {
    if action.Change? then Overlay(y, action.at, action.bytes) else []
  }

  /** A second call draws the digits of the first and gets to its rename; then what is
      left of the first call lands, and the second one renames. */
  lemma SpoiledRename(nfkc: Nfkc, r: Rules, path: Path, op0: Op, files: map<Path, Bytes>, hex: string, action: Action, op: Op, y: Bytes)
    returns (s: State)
    requires action.Creation? || action.Change?
    requires CanCommit(nfkc, r, Leftover(path, op0, files, hex, action), 1, path, op, y, hex)
    ensures Goes(nfkc, r, Leftover(path, op0, files, hex, action), s)
    ensures Lookup(s.files, path) == Some(Spoiled(action, y))
    ensures s.log == [Commit(1, path, op, ReadOf(op, files, path), Lookup(files, path), Spoiled(action, y))]
  {
    hide Goes, TempPath, IsHex, HasFileName, Effect, ReadOf, Overlay, LockFor;
    var s0 := Leftover(path, op0, files, hex, action);
    var tmp := TempPath(path, hex);
    TempDiffers(path, hex);
    GoesToRename(nfkc, r, s0, 1, path, op, y, hex);
    var u := BeforeRename(s0, 1, path, op, y, hex);
    var v := Landed(u, 0, true);
    GoesOn(nfkc, r, s0, u, Land(0, true), v);
    assert v.files == files[tmp := y][tmp := Spoiled(action, y)];
    s := Next(nfkc, v, Rename(1, true)).value;
    GoesOn(nfkc, r, s0, v, Rename(1, true), s);
    assert [] + [Commit(1, path, op, ReadOf(op, files, path), Lookup(files, path), Spoiled(action, y))] == s.log;
  }

  /** A rename already under way is not undone by dropping the call, but the lock is
      released. Every edit can then overwrite an update made in between: the run
      below ends with the edit of the old content `a`, and the write of `y`, which
      was reported as done, is gone. */
  lemma RenameInFlightLosesUpdate(nfkc: Nfkc, r: Rules, path: Path, edits: seq<EditEntry>, a: Bytes, out: Bytes, y: Bytes, h0: string, h1: string)
    returns (s: State)
    requires Replaces in r.overlap && path in r.targets && HasFileName(path) && IsHex(h0) && IsHex(h1) && h0 != h1
    requires Effect(nfkc, EditOp(edits), Some(a)) == Some(out) && y != a
    ensures Reachable(nfkc, r, map[path := a], s)
    ensures Lookup(s.files, path) == Some(out)
    ensures s.log == [Commit(1, path, WriteOp(y), None, Some(a), y), Commit(0, path, EditOp(edits), Some(a), Some(y), out)]
    ensures !LogOk(nfkc, map[path := a], s.log)
  {
    hide Goes, TempPath, IsHex, HasFileName, Effect, Reachable, Replay;
    var op := EditOp(edits);
    var s0 := Initial(map[path := a]);
    TempsOfOnePath(path, h0, h1);
    assert ReadOf(op, s0.files, path) == Some(a);
    var s1 := GoesToDropped(nfkc, r, path, op, a, out, h0);
    WriteEffect(nfkc, WriteOp(y));
    var s2 := UndisturbedCallCommits(nfkc, r, s1, 1, path, WriteOp(y), y, h1);
    GoesFurther(nfkc, r, s0, s1, s2);
    s := LandNow(nfkc, r, s0, s2);
    FromTheStart(nfkc, r, map[path := a], s);
    assert !CommitOk(nfkc, map[path := a], s.log, 1);
  }

  /** If the next call happens to draw the same digits, it empties the temp file that
      the rename is about to install: the target is torn. */
  lemma RenameInFlightTearsTarget(nfkc: Nfkc, r: Rules, path: Path, op: Op, a: Bytes, out: Bytes, hex: string)
    returns (s: State)
    requires Replaces in r.overlap && path in r.targets && HasFileName(path) && IsHex(hex)
    requires Effect(nfkc, op, ReadOf(op, map[path := a], path)) == Some(out) && out != []
    ensures Reachable(nfkc, r, map[path := a], s)
    ensures Lookup(s.files, path) == Some([])
    ensures s.log == [Commit(0, path, op, ReadOf(op, map[path := a], path), Some(a), [])]
    ensures !LogOk(nfkc, map[path := a], s.log)
  {
    hide Goes, TempPath, IsHex, HasFileName, Effect, Reachable, Replay, ReadOf;
    var s0 := Initial(map[path := a]);
    var tmp := TempPath(path, hex);
    TempDiffers(path, hex);
    var s1 := GoesToDropped(nfkc, r, path, op, a, out, hex);
    WriteEffect(nfkc, WriteOp(a));
    WriteReads(map[path := a][tmp := out], path, WriteOp(a));
    var s2 := GoesToReady(nfkc, r, s1, 1, path, WriteOp(a), a, hex);
    GoesFurther(nfkc, r, s0, s1, s2);
    var s3 := Next(nfkc, s2, CreateTemp(1, hex, true)).value;
    GoesOn(nfkc, r, s0, s2, CreateTemp(1, hex, true), s3);
    s := LandNow(nfkc, r, s0, s3);
    FromTheStart(nfkc, r, map[path := a], s);
    assert !CommitOk(nfkc, map[path := a], s.log, 0);
  }

  /** A create under way empties the temp file that the next call has just written,
      and that call installs an empty file. */
  lemma CreateInFlightTearsTarget(nfkc: Nfkc, r: Rules, path: Path, x: Bytes, op: Op, a: Bytes, y: Bytes, hex: string)
    returns (s: State)
    requires Creates in r.overlap && path in r.targets && HasFileName(path) && IsHex(hex)
    requires Effect(nfkc, op, ReadOf(op, map[path := a], path)) == Some(y) && y != []
    ensures Reachable(nfkc, r, map[path := a], s)
    ensures Lookup(s.files, path) == Some([])
    ensures s.log == [Commit(1, path, op, ReadOf(op, map[path := a], path), Some(a), [])]
    ensures !LogOk(nfkc, map[path := a], s.log)
  {
    hide Goes, TempPath, IsHex, HasFileName, Effect, Reachable, Replay, ReadOf;
    var s0 := Initial(map[path := a]);
    WriteEffect(nfkc, WriteOp(x));
    WriteReads(map[path := a], path, WriteOp(x));
    var s1 := GoesToDroppedCreate(nfkc, r, path, WriteOp(x), a, x, hex);
    s := SpoiledRename(nfkc, r, path, WriteOp(x), map[path := a], hex, Creation, op, y);
    GoesFurther(nfkc, r, s0, s1, s);
    FromTheStart(nfkc, r, map[path := a], s);
    assert !CommitOk(nfkc, map[path := a], s.log, 0);
  }

  /** A write under way of `x` goes over the `y` that the next call has just written,
      and that call installs the mixture, unless `y` began with `x` anyway. */
  lemma WriteInFlightMixesResults(nfkc: Nfkc, r: Rules, path: Path, x: Bytes, op: Op, a: Bytes, y: Bytes, hex: string)
    returns (s: State)
    requires Changes in r.overlap && path in r.targets && HasFileName(path) && IsHex(hex)
    requires Effect(nfkc, op, ReadOf(op, map[path := a], path)) == Some(y) && !(x <= y)
    ensures Reachable(nfkc, r, map[path := a], s)
    ensures Lookup(s.files, path) == Some(Overlay(y, 0, x)) && Overlay(y, 0, x) != y
    ensures s.log == [Commit(1, path, op, ReadOf(op, map[path := a], path), Some(a), Overlay(y, 0, x))]
    ensures !LogOk(nfkc, map[path := a], s.log)
  {
    OverlayFirst(y, x);
    hide Goes, TempPath, IsHex, HasFileName, Effect, Reachable, Replay, Overlay;
    var s0 := Initial(map[path := a]);
    var tmp := TempPath(path, hex);
    TempDiffers(path, hex);
    var files := map[path := a][tmp := []];
    ReadBeside(op, map[path := a], path, tmp, []);
    WriteReads(map[path := a], path, WriteOp(x));
    hide ReadOf;
    WriteEffect(nfkc, WriteOp(x));
    var s1 := GoesToDroppedWrite(nfkc, r, path, WriteOp(x), a, x, hex);
    s := SpoiledRename(nfkc, r, path, WriteOp(x), files, hex, Change(0, x), op, y);
    GoesFurther(nfkc, r, s0, s1, s);
    FromTheStart(nfkc, r, map[path := a], s);
    assert Lookup(files, path) == Some(a);
    assert !CommitOk(nfkc, map[path := a], s.log, 0);
  }

  lemma OverlayFirst(y: Bytes, x: Bytes)
    ensures x <= Overlay(y, 0, x)
  {
    assert y[..0] == [];
  }

  lemma ReadBeside(op: Op, files: map<Path, Bytes>, path: Path, other: Path, content: Bytes)
    requires other != path
    ensures ReadOf(op, files[other := content], path) == ReadOf(op, files, path)
  {
  }

  lemma WriteReads(files: map<Path, Bytes>, path: Path, op: Op)
    requires op.WriteOp?
    ensures ReadOf(op, files, path) == None
  {
  }

  // ----- the exact condition -----

  /** Every target holds what the log says and every commit is of a complete result,
      computed from what it replaced. */
  ghost predicate Promised(nfkc: Nfkc, r: Rules, files0: map<Path, Bytes>, s: State) {
    && (forall p :: p in r.targets ==> Lookup(s.files, p) == Lookup(Replay(files0, s.log), p))
    && LogOk(nfkc, files0, s.log)
  }

  ghost predicate Guaranteed(nfkc: Nfkc, r: Rules) {
    forall files0: map<Path, Bytes>, s: State :: Reachable(nfkc, r, files0, s) ==> Promised(nfkc, r, files0, s)
  }

  ghost predicate NoneWritable(targets: iset<Path>) {
    forall p :: p in targets ==> !HasFileName(p)
  }

  /** The promise is kept in every run if and only if no target is the temp file of
      another and nobody takes a lock over a create, a write or a rename under way, or
      there is no target with a file name, which no call could write. Removals under
      way do no harm. */
  lemma GuaranteedExactly(nfkc: Nfkc, r: Rules)
    ensures Guaranteed(nfkc, r) <==> Separate(r.targets) && (r.overlap <= {Removes} || NoneWritable(r.targets))
  {
    hide Guaranteed, Separate;
    if !Separate(r.targets) {
      SharedTempLost(nfkc, r);
    } else if r.overlap <= {Removes} {
      SoundKept(nfkc, r);
    } else if NoneWritable(r.targets) {
      UnwritableKept(nfkc, r);
    } else {
      OverlapLost(nfkc, r);
    }
  }

  lemma SoundKept(nfkc: Nfkc, r: Rules)
    requires Sound(r)
    ensures Guaranteed(nfkc, r)
  {
    hide Reachable, Replay, Endangered, CommitOk;
    forall files0: map<Path, Bytes>, s: State | Reachable(nfkc, r, files0, s)
      ensures Promised(nfkc, r, files0, s)
    {
      NoLostUpdate(nfkc, r, files0, s);
    }
  }

  lemma SharedTempLost(nfkc: Nfkc, r: Rules)
    requires !Separate(r.targets)
    ensures !Guaranteed(nfkc, r)
  {
    hide Reachable, Replay, LogOk, TempPath, IsHex, HasFileName;
    var p :| p in r.targets && Endangered(r.targets, p);
    var target: Path, hex: string :|
      target in r.targets && HasFileName(target) && IsHex(hex) && p == TempPath(target, hex);
    var s := TempFileLost(nfkc, r, target, hex, []);
    assert !Promised(nfkc, r, map[p := []], s);
  }

  /** An edit that does something: `a` becomes `b`. */
  lemma LetterEffect(nfkc: Nfkc)
    ensures Effect(nfkc, EditOp([EditEntry("a", "b")]), Some(Encode("a"))) == Some(Encode("b"))
  {
    var t := "b";
    assert t[0] != '\r' && t[1..] == [];
    assert StripCr(t) == [t[0]] + StripCr([]) == t;
    LetterEdited(nfkc, "b");
    hide Outcome, EditText, Adopt, Encode;
    LetterFile(nfkc, [EditEntry("a", "b")]);
  }

  lemma TwoRandoms()
    ensures IsHex("00000000") && IsHex("00000001") && "00000000" != "00000001"
  {
    assert "00000000"[7] != "00000001"[7];
  }

  lemma OverlapLost(nfkc: Nfkc, r: Rules)
    requires !(r.overlap <= {Removes}) && !NoneWritable(r.targets)
    ensures !Guaranteed(nfkc, r)
  {
    hide Reachable, Replay, LogOk, IsHex, HasFileName, Effect, Encode, Overlay, TempPath;
    var path :| path in r.targets && HasFileName(path);
    var kind :| kind in r.overlap && kind != Removes;
    var hex := "00000000";
    TwoRandoms();
    WriteEffect(nfkc, WriteOp([1]));
    match kind
    case Replaces =>
      var a := Encode("a");
      LetterEffect(nfkc);
      var s := RenameInFlightLosesUpdate(nfkc, r, path, [EditEntry("a", "b")], a, Encode("b"), a + [0], hex, "00000001");
      assert !Promised(nfkc, r, map[path := a], s);
    case Creates =>
      var s := CreateInFlightTearsTarget(nfkc, r, path, [], WriteOp([1]), [], [1], hex);
      assert !Promised(nfkc, r, map[path := []], s);
    case Changes =>
      var x: Bytes, y: Bytes := [0], [1];
      assert x[0] != y[0];
      var s := WriteInFlightMixesResults(nfkc, r, path, x, WriteOp(y), [], y, hex);
      assert !Promised(nfkc, r, map[path := []], s);
  }

  // ----- targets without a file name -----

  /** No call gets as far as a temp file. */
  ghost predicate Unnamed(s: State) {
    && s.detached == []
    && forall c :: c in s.calls ==>
         !HasFileName(s.calls[c].path) && !HasTemp(s.calls[c].phase) && !s.calls[c].phase.Cleaning?
  }

  lemma UnnamedStep(nfkc: Nfkc, r: Rules, s: State, step: Step)
    requires NoneWritable(r.targets) && Unnamed(s) && Admitted(r, s, step) && Next(nfkc, s, step).Some?
    ensures Unnamed(Next(nfkc, s, step).value)
    ensures Admitted(r.(overlap := {}), s, step)
  {
    hide HasFileName, CallStep;
    if !step.Begin? && !step.Crash? && !step.Land? {
      hide Unnamed;
      UnnamedCallStep(nfkc, s, step);
    }
  }

  lemma UnnamedCallStep(nfkc: Nfkc, s: State, step: Step)
    requires !step.Begin? && !step.Crash? && !step.Land?
    requires Unnamed(s) && step.c in s.calls && CallStep(nfkc, s, step, s.calls[step.c]).Some?
    ensures Unnamed(CallStep(nfkc, s, step, s.calls[step.c]).value)
  {
    hide Effect, IsHex, HasFileName, TempPath, LockFor, Renamed, Lookup, Changed;
    var call := s.calls[step.c];
    var t := CallStep(nfkc, s, step, call).value;
    assert t.detached == [];
    var phase := t.calls[step.c].phase;
    assert !HasTemp(phase) && !phase.Cleaning?;
    assert t.calls == s.calls[step.c := call.(phase := phase)];
    hide CallStep;
  }

  lemma {:induction false} UnnamedRun(nfkc: Nfkc, r: Rules, files0: map<Path, Bytes>, steps: seq<Step>)
    requires NoneWritable(r.targets)
    requires AdmittedRun(nfkc, r, Initial(files0), steps) && Exec(nfkc, Initial(files0), steps).Some?
    ensures AdmittedRun(nfkc, r.(overlap := {}), Initial(files0), steps)
    ensures Unnamed(Exec(nfkc, Initial(files0), steps).value)
    decreases |steps|
  {
    hide Next, Admitted, NoneWritable;
    if steps != [] {
      hide Unnamed, Initial;
      UnnamedRun(nfkc, r, files0, steps[..|steps| - 1]);
      UnnamedStep(nfkc, r, Exec(nfkc, Initial(files0), steps[..|steps| - 1]).value, steps[|steps| - 1]);
    }
  }

  lemma UnwritableKept(nfkc: Nfkc, r: Rules)
    requires Separate(r.targets) && NoneWritable(r.targets)
    ensures Guaranteed(nfkc, r)
  {
    hide AdmittedRun, Exec, Separate, NoneWritable, Initial, LogOk, Replay;
    var strict := r.(overlap := {});
    SoundKept(nfkc, strict);
    forall files0: map<Path, Bytes>, s: State | Reachable(nfkc, r, files0, s)
      ensures Promised(nfkc, r, files0, s)
    {
      var steps :| AdmittedRun(nfkc, r, Initial(files0), steps) && Exec(nfkc, Initial(files0), steps) == Some(s);
      UnnamedRun(nfkc, r, files0, steps);
      assert Reachable(nfkc, strict, files0, s);
      assert Promised(nfkc, strict, files0, s);
    }
  }

  // ----- ordinary names -----

  /** `path` is named like a temp file of some path. */
  ghost predicate IsTempStyle(path: Path) {
    exists target: Path, hex: string :: HasFileName(target) && IsHex(hex) && path == TempPath(target, hex)
  }

  ghost function OrdinaryPaths(): iset<Path> {
    iset p: Path | !IsTempStyle(p)
  }

  /** The paths of ordinary names are separate targets; with the temp file of one of
      them they are not. */
  lemma OrdinarySeparate(target: Path, hex: string)
    requires target in OrdinaryPaths() && HasFileName(target) && IsHex(hex)
    ensures Separate(OrdinaryPaths())
    ensures !Separate(OrdinaryPaths() + iset{TempPath(target, hex)})
  {
    hide TempPath, IsHex, HasFileName;
    var more := OrdinaryPaths() + iset{TempPath(target, hex)};
    assert target in more;
    assert Endangered(more, TempPath(target, hex));
  }

  /** The name needs eight digits or more: `.f.mcpod-tmp-abc` is ordinary. */
  lemma ShortSuffixIsOrdinary()
    ensures [Name(".f.mcpod-tmp-abc")] in OrdinaryPaths()
    ensures [Name(".f.mcpod-tmp-00000abc")] !in OrdinaryPaths()
  {
    var short, long := [Name(".f.mcpod-tmp-abc")], [Name(".f.mcpod-tmp-00000abc")];
    hide TempPath, IsHex;
    if IsTempStyle(short) {
      var target: Path, hex: string :| HasFileName(target) && IsHex(hex) && short == TempPath(target, hex);
      ShortName(target, hex);
    }
    var f := [Name("f")];
    LongName();
    assert HasFileName(f) && TempPath(f, "00000abc") == long;
  }

  lemma LongName()
    ensures TempPath([Name("f")], "00000abc") == [Name(".f.mcpod-tmp-00000abc")] && IsHex("00000abc")
  {
    assert "." + "f" + TEMP_INFIX + "00000abc" == ".f.mcpod-tmp-00000abc";
  }

  lemma ShortName(target: Path, hex: string)
    requires HasFileName(target) && IsHex(hex)
    ensures TempPath(target, hex) != [Name(".f.mcpod-tmp-abc")]
  {
    var name := target[|target| - 1].name;
    var n := TempName(name, hex);
    assert TempPath(target, hex)[|target| - 1] == Name(n);
    assert |n| == 1 + |name| + |TEMP_INFIX| + |hex| > |".f.mcpod-tmp-abc"|;
  }
}
