/** Runs of the mutation protocol put together step by step, up to a whole call. */
module ProtocolRuns {
  import opened Seqs
  import opened Normalizer
  import opened PathResolver
  import opened MutationProtocol
  import opened ProtocolInvariant

  lemma Do(nfkc: Nfkc, r: Rules, s: State, steps: seq<Step>, step: Step)
    requires AdmittedRun(nfkc, r, s, steps) && Exec(nfkc, s, steps).Some?
    requires Admitted(r, Exec(nfkc, s, steps).value, step)
    ensures Exec(nfkc, s, steps + [step]) == Next(nfkc, Exec(nfkc, s, steps).value, step)
    ensures AdmittedRun(nfkc, r, s, steps + [step])
  {
    hide Next, Admitted;
    assert (steps + [step])[..|steps|] == steps;
  }

  ghost predicate Goes(nfkc: Nfkc, r: Rules, s: State, t: State) {
    exists steps :: AdmittedRun(nfkc, r, s, steps) && Exec(nfkc, s, steps) == Some(t)
  }

  lemma GoesNowhere(nfkc: Nfkc, r: Rules, s: State)
    ensures Goes(nfkc, r, s, s)
  {
    assert AdmittedRun(nfkc, r, s, []) && Exec(nfkc, s, []) == Some(s);
  }

  lemma GoesOn(nfkc: Nfkc, r: Rules, s: State, t: State, step: Step, u: State)
    requires Goes(nfkc, r, s, t) && Admitted(r, t, step) && Next(nfkc, t, step) == Some(u)
    ensures Goes(nfkc, r, s, u)
  {
    hide Next, Admitted, Exec, AdmittedRun;
    var steps :| AdmittedRun(nfkc, r, s, steps) && Exec(nfkc, s, steps) == Some(t);
    Do(nfkc, r, s, steps, step);
  }

  /** One run and then another are a run. */
  lemma GoesFurther(nfkc: Nfkc, r: Rules, s: State, t: State, u: State)
    requires Goes(nfkc, r, s, t) && Goes(nfkc, r, t, u)
    ensures Goes(nfkc, r, s, u)
  {
    hide Next, Admitted, Exec, AdmittedRun;
    var a :| AdmittedRun(nfkc, r, s, a) && Exec(nfkc, s, a) == Some(t);
    var b :| AdmittedRun(nfkc, r, t, b) && Exec(nfkc, t, b) == Some(u);
    RunInParts(nfkc, r, s, a, t, b);
  }

  lemma {:induction false} RunInParts(nfkc: Nfkc, r: Rules, s: State, a: seq<Step>, t: State, b: seq<Step>)
    requires AdmittedRun(nfkc, r, s, a) && Exec(nfkc, s, a) == Some(t)
    requires AdmittedRun(nfkc, r, t, b)
    ensures Exec(nfkc, s, a + b) == Exec(nfkc, t, b)
    ensures AdmittedRun(nfkc, r, s, a + b)
    decreases |b|
  {
    hide Next, Admitted;
    if b == [] {
      assert a + b == a;
    } else {
      var n := |b| - 1;
      assert (a + b)[..|a + b| - 1] == a + b[..n];
      assert (a + b)[|a + b| - 1] == b[n];
      RunInParts(nfkc, r, s, a, t, b[..n]);
    }
  }

  /** What the call has read when it comes to its rename. */
  function ReadOf(op: Op, files: map<Path, Bytes>, path: Path): Option<Bytes> {
    if op.EditOp? then Lookup(files, path) else None
  }

  /** A new call for a free path, up to the moment before its rename. */
  function BeforeRename(s: State, c: CallId, path: Path, op: Op, out: Bytes, hex: string): State
    requires HasFileName(path)
  {
    var (locks, nextLock, lock) := LockFor(s.locks, s.nextLock, path);
    s.(begun := s.begun + {c}, calls := s.calls[c := Call(path, op, Synced(lock, ReadOf(op, s.files, path), out, hex))],
       locks := locks, nextLock := nextLock, held := s.held[lock := c],
       files := s.files[TempPath(path, hex) := out])
  }

  ghost predicate CanBegin(r: Rules, s: State, c: CallId, path: Path) {
    && c !in s.begun && path in r.targets
    && LockFor(s.locks, s.nextLock, path).2 !in s.held
    && (forall d :: d in s.detached && d.path == path ==> KindOf(d.action) in r.overlap)
  }

  ghost predicate CanCommit(nfkc: Nfkc, r: Rules, s: State, c: CallId, path: Path, op: Op, out: Bytes, hex: string) {
    && HasFileName(path) && IsHex(hex)
    && CanBegin(r, s, c, path)
    && Effect(nfkc, op, ReadOf(op, s.files, path)) == Some(out)
  }

  lemma GoesToHolding(nfkc: Nfkc, r: Rules, s: State, c: CallId, path: Path, op: Op) returns (t: State)
    requires CanBegin(r, s, c, path)
    ensures var (locks, nextLock, lock) := LockFor(s.locks, s.nextLock, path);
            t == s.(begun := s.begun + {c}, calls := s.calls[c := Call(path, op, Holding(lock))],
                    locks := locks, nextLock := nextLock, held := s.held[lock := c])
    ensures Goes(nfkc, r, s, t)
  {
    hide Goes, TempPath, IsHex, HasFileName, Effect;
    var (locks, nextLock, lock) := LockFor(s.locks, s.nextLock, path);
    var u := s;
    GoesNowhere(nfkc, r, s);
    t := s.(begun := s.begun + {c}, calls := s.calls[c := Call(path, op, Started)]);
    GoesOn(nfkc, r, s, u, Begin(c, path, op), t);
    u := t;
    t := At(u, c, Waiting(lock)).(locks := locks, nextLock := nextLock);
    GoesOn(nfkc, r, s, u, FindLock(c), t);
    u := t;
    t := At(u, c, Holding(lock)).(held := s.held[lock := c]);
    GoesOn(nfkc, r, s, u, Acquire(c), t);
  }

  /** Up to the temp file: begin, lock, read and compute or make directories. */
  lemma GoesToReady(nfkc: Nfkc, r: Rules, s: State, c: CallId, path: Path, op: Op, out: Bytes, hex: string) returns (t: State)
    requires CanCommit(nfkc, r, s, c, path, op, out, hex)
    ensures var (locks, nextLock, lock) := LockFor(s.locks, s.nextLock, path);
            t == s.(begun := s.begun + {c}, calls := s.calls[c := Call(path, op, Ready(lock, ReadOf(op, s.files, path), out))],
                    locks := locks, nextLock := nextLock, held := s.held[lock := c])
    ensures Goes(nfkc, r, s, t)
  {
    hide Goes, TempPath, IsHex, HasFileName, Effect, LockFor;
    var lock := LockFor(s.locks, s.nextLock, path).2;
    var u := GoesToHolding(nfkc, r, s, c, path, op);
    if op.EditOp? {
      t := At(u, c, HasRead(lock, Lookup(s.files, path)));
      GoesOn(nfkc, r, s, u, Read(c, true), t);
      u := t;
      t := At(u, c, Ready(lock, Lookup(s.files, path), out));
      GoesOn(nfkc, r, s, u, Compute(c), t);
    } else {
      WriteEffect(nfkc, op);
      t := At(u, c, Ready(lock, None, out));
      GoesOn(nfkc, r, s, u, MakeDirs(c, true), t);
    }
  }

  /** Up to the whole temp file. */
  lemma GoesToWritten(nfkc: Nfkc, r: Rules, s: State, c: CallId, path: Path, op: Op, out: Bytes, hex: string) returns (t: State)
    requires CanCommit(nfkc, r, s, c, path, op, out, hex)
    ensures var (locks, nextLock, lock) := LockFor(s.locks, s.nextLock, path);
            t == s.(begun := s.begun + {c}, calls := s.calls[c := Call(path, op, Writing(lock, ReadOf(op, s.files, path), out, hex, |out|))],
                    locks := locks, nextLock := nextLock, held := s.held[lock := c],
                    files := s.files[TempPath(path, hex) := out])
    ensures Goes(nfkc, r, s, t)
  {
    hide Goes, TempPath, IsHex, HasFileName, Effect;
    var lock := LockFor(s.locks, s.nextLock, path).2;
    var read := ReadOf(op, s.files, path);
    var tmp := TempPath(path, hex);
    var u := GoesToReady(nfkc, r, s, c, path, op, out, hex);
    hide LockFor, ReadOf, Renamed, Lookup;
    t := At(u, c, Writing(lock, read, out, hex, 0)).(files := s.files[tmp := []]);
    GoesOn(nfkc, r, s, u, CreateTemp(c, hex, true), t);
    u := t;
    t := At(u, c, Writing(lock, read, out, hex, |out|)).(files := s.files[tmp := out]);
    assert out[..|out|] == out && out[0..|out|] == out && out[..0] == [];
    OverlayNext(out, 0, |out|);
    assert s.files[tmp := []][tmp := out] == s.files[tmp := out];
    hide Overlay;
    GoesOn(nfkc, r, s, u, WriteTemp(c, |out|, true), t);
  }

  lemma GoesToRename(nfkc: Nfkc, r: Rules, s: State, c: CallId, path: Path, op: Op, out: Bytes, hex: string)
    requires CanCommit(nfkc, r, s, c, path, op, out, hex)
    ensures Goes(nfkc, r, s, BeforeRename(s, c, path, op, out, hex))
  {
    hide Goes, TempPath, IsHex, HasFileName, Effect, LockFor, ReadOf, Renamed, Lookup;
    var lock := LockFor(s.locks, s.nextLock, path).2;
    var u := GoesToWritten(nfkc, r, s, c, path, op, out, hex);
    var t := At(u, c, Synced(lock, ReadOf(op, s.files, path), out, hex));
    GoesOn(nfkc, r, s, u, SyncTemp(c, true), t);
    assert t == BeforeRename(s, c, path, op, out, hex);
  }

  /** A call for a free path that meets no error commits its whole output: the
      protocol can always make progress, and only the target is changed. */
  lemma UndisturbedCallCommits(nfkc: Nfkc, r: Rules, s: State, c: CallId, path: Path, op: Op, out: Bytes, hex: string) returns (t: State)
    requires CanCommit(nfkc, r, s, c, path, op, out, hex)
    ensures Goes(nfkc, r, s, t)
    ensures t.files == s.files[path := out] - {TempPath(path, hex)}
    ensures t.log == s.log + [Commit(c, path, op, ReadOf(op, s.files, path), Lookup(s.files, path), out)]
    ensures t.calls == s.calls[c := Call(path, op, Closed(true))] && t.begun == s.begun + {c} && t.held == s.held && t.detached == s.detached
  {
    hide Goes, TempPath, IsHex, HasFileName, Effect, Next, Renamed, Released, LockFor, ReadOf;
    GoesToRename(nfkc, r, s, c, path, op, out, hex);
    var u := BeforeRename(s, c, path, op, out, hex);
    var renamed := RenameNow(nfkc, u, c);
    GoesOn(nfkc, r, s, u, Rename(c, true), renamed);
    t := LeaveNow(nfkc, renamed, c);
    GoesOn(nfkc, r, s, renamed, Leave(c), t);
    TempDiffers(path, hex);
    var tmp := TempPath(path, hex);
    assert s.files[tmp := out][path := out] - {tmp} == s.files[path := out] - {tmp};
    assert Lookup(s.files[tmp := out], path) == Lookup(s.files, path);
    var lock := LockFor(s.locks, s.nextLock, path).2;
    assert s.held[lock := c] - {lock} == s.held;
  }

  lemma RenameNow(nfkc: Nfkc, u: State, c: CallId) returns (t: State)
    requires c in u.calls && u.calls[c].phase.Synced? && HasFileName(u.calls[c].path)
    requires var call := u.calls[c];
             TempPath(call.path, call.phase.hex) in u.files && u.files[TempPath(call.path, call.phase.hex)] == call.phase.out
    ensures Next(nfkc, u, Rename(c, true)) == Some(t)
    ensures var call := u.calls[c];
            var tmp := TempPath(call.path, call.phase.hex);
            t == u.(calls := u.calls[c := call.(phase := Leaving(call.phase.lock, true))],
                    files := u.files[call.path := call.phase.out] - {tmp},
                    log := u.log + [Commit(c, call.path, call.op, call.phase.read, Lookup(u.files, call.path), call.phase.out)])
  {
    hide TempPath, HasFileName;
    t := Next(nfkc, u, Rename(c, true)).value;
  }

  lemma LeaveNow(nfkc: Nfkc, u: State, c: CallId) returns (t: State)
    requires c in u.calls && u.calls[c].phase.Leaving?
    ensures Next(nfkc, u, Leave(c)) == Some(t)
    ensures t == u.(calls := u.calls[c := u.calls[c].(phase := Closed(u.calls[c].phase.committed))], held := u.held - {u.calls[c].phase.lock})
  {
    t := Next(nfkc, u, Leave(c)).value;
  }
}
