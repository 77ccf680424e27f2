/** What every run of the mutation protocol guarantees. */
module ProtocolTheorems {
  import opened Seqs
  import opened Normalizer
  import opened PathResolver
  import opened MutationProtocol
  import opened ProtocolInvariant

  /** The state `s` is reached by some admitted run from the given files. */
  ghost predicate Reachable(nfkc: Nfkc, r: Rules, files0: map<Path, Bytes>, s: State) {
    exists steps :: AdmittedRun(nfkc, r, Initial(files0), steps) && Exec(nfkc, Initial(files0), steps) == Some(s)
  }

  lemma ReachableInv(nfkc: Nfkc, r: Rules, files0: map<Path, Bytes>, s: State)
    requires Sound(r) && Reachable(nfkc, r, files0, s)
    ensures Inv(nfkc, r, files0, s) && OnceOk(s)
  {
    hide Inv, OnceOk, Exec, AdmittedRun, Sound;
    var steps :| AdmittedRun(nfkc, r, Initial(files0), steps) && Exec(nfkc, Initial(files0), steps) == Some(s);
    RunKeeps(nfkc, r, files0, steps);
  }

  /** No lost update. In every reachable state each target holds its initial content
      folded through the commit log, and every commit replaced what the log had put
      there; an edit's commit replaced exactly the content the edit had read. */
  lemma NoLostUpdate(nfkc: Nfkc, r: Rules, files0: map<Path, Bytes>, s: State)
    requires Sound(r) && Reachable(nfkc, r, files0, s)
    ensures forall p :: !Endangered(r.targets, p) ==> Lookup(s.files, p) == Lookup(Replay(files0, s.log), p)
    ensures forall i :: 0 <= i < |s.log| ==> CommitOk(nfkc, files0, s.log, i)
  {
    hide Replay, CommitOk, Endangered;
    ReachableInv(nfkc, r, files0, s);
  }

  lemma {:induction false} ReplayLast(files: map<Path, Bytes>, log: seq<Commit>, p: Path)
    ensures if exists i :: 0 <= i < |log| && log[i].path == p
            then exists i :: 0 <= i < |log| && log[i].path == p && Lookup(Replay(files, log), p) == Some(log[i].after)
            else Lookup(Replay(files, log), p) == Lookup(files, p)
  {
    if log != [] {
      var n := |log| - 1;
      ReplayLast(files, log[..n], p);
      if log[n].path == p {
        assert Lookup(Replay(files, log), p) == Some(log[n].after);
      } else if i :| 0 <= i < n && log[..n][i].path == p && Lookup(Replay(files, log[..n]), p) == Some(log[..n][i].after) {
        assert log[i].path == p && Lookup(Replay(files, log), p) == Some(log[i].after);
      }
    }
  }

  /** Atomic commit: whatever failed or was dropped on the way, a target holds its
      initial bytes or the complete bytes of one call for that target. */
  lemma TargetsAreWhole(nfkc: Nfkc, r: Rules, files0: map<Path, Bytes>, s: State, p: Path)
    requires Sound(r) && Reachable(nfkc, r, files0, s) && !Endangered(r.targets, p)
    ensures Lookup(s.files, p) == Lookup(files0, p)
         || exists i :: 0 <= i < |s.log| && s.log[i].path == p && Lookup(s.files, p) == Some(s.log[i].after)
                        && Effect(nfkc, s.log[i].op, s.log[i].read) == Some(s.log[i].after)
  {
    hide Replay, Effect, Endangered;
    NoLostUpdate(nfkc, r, files0, s);
    ReplayLast(files0, s.log, p);
    if i :| 0 <= i < |s.log| && s.log[i].path == p && Lookup(Replay(files0, s.log), p) == Some(s.log[i].after) {
      assert CommitOk(nfkc, files0, s.log, i);
      assert Lookup(s.files, p) == Some(s.log[i].after);
    }
  }

  /** One step at a time: a file that is no temp file changes only when a call
      renames, or the rename of a dropped call lands, and then to the complete
      output of that call. */
  lemma StepIsAtomic(nfkc: Nfkc, r: Rules, files0: map<Path, Bytes>, s: State, step: Step, p: Path)
    requires Sound(r) && Reachable(nfkc, r, files0, s) && Admitted(r, s, step)
    requires Next(nfkc, s, step).Some? && !Endangered(r.targets, p)
    ensures var t := Next(nfkc, s, step).value;
            || Lookup(t.files, p) == Lookup(s.files, p)
            || (&& step.Rename? && step.ok && step.c in s.calls && s.calls[step.c].path == p
                && s.calls[step.c].phase.Synced?
                && Lookup(t.files, p) == Some(s.calls[step.c].phase.out))
            || (&& step.Land? && step.ok && step.k < |s.detached| && s.detached[step.k].path == p
                && s.detached[step.k].action.Replacement?
                && Lookup(t.files, p) == Some(s.detached[step.k].action.out))
  {
    hide TempPath, IsHex, Endangered, HasFileName, Landed, CallsOk, LocksOk, HeldOk, FilesOk, LogOk, Admitted, OnceOk, InFlightOk, Reachable, Sound, Effect, Changed;
    ReachableInv(nfkc, r, files0, s);
    if step.Land? {
      LandingStep(nfkc, r, s, step.k, step.ok, p);
    } else if !step.Begin? && !step.Crash? {
      hide Inv, DataOk;
      InvCall(nfkc, r, files0, s, step.c);
      var call := s.calls[step.c];
      TempTouchedIsHex(nfkc, s.files, step, call);
      if HasFileName(call.path) && IsHex(TempTouched(step, call.phase)) {
        TempNotTarget(r, call.path, TempTouched(step, call.phase), p);
      }
      if step.Rename? && step.ok {
        RenameStep(nfkc, s, step.c, p);
      } else {
        OtherStep(nfkc, s, step, p);
      }
    }
  }

  lemma LandingStep(nfkc: Nfkc, r: Rules, s: State, k: nat, ok: bool, p: Path)
    requires InFlightOk(nfkc, r, s) && k < |s.detached| && !Endangered(r.targets, p)
    ensures var d, t := s.detached[k], Landed(s, k, ok);
            || Lookup(t.files, p) == Lookup(s.files, p)
            || (ok && d.path == p && d.action.Replacement? && Lookup(t.files, p) == Some(d.action.out))
  {
    hide TempPath, IsHex, Endangered, HasFileName, ReadyOk, NobodyIn, Distinct, Overlay;
    var d := s.detached[k];
    assert LandsOk(nfkc, r, s, d);
    TempNotTarget(r, d.path, d.hex, p);
  }

  /** The random part of the temp file a step of the call may touch. */
  function TempTouched(step: Step, phase: Phase): string {
    if step.CreateTemp? || step.CancelDuringCreate? then step.hex
    else if HasTemp(phase) || phase.Cleaning? then phase.hex
    else "00000000"
  }

  lemma TempTouchedIsHex(nfkc: Nfkc, files: map<Path, Bytes>, step: Step, call: Call)
    requires DataOk(nfkc, files, call)
    ensures !step.CreateTemp? && !step.CancelDuringCreate? ==> IsHex(TempTouched(step, call.phase))
    ensures HasTemp(call.phase) && HasFileName(call.path) ==>
              TempIs(files, TempPath(call.path, call.phase.hex),
                if call.phase.Writing? then call.phase.out[..call.phase.written] else call.phase.out)
  {
    hide TempPath, Effect;
  }

  lemma RenameStep(nfkc: Nfkc, s: State, c: CallId, p: Path)
    requires c in s.calls && CallStep(nfkc, s, Rename(c, true), s.calls[c]).Some?
    requires p != TempPath(s.calls[c].path, s.calls[c].phase.hex)
    ensures var call := s.calls[c];
            var t := CallStep(nfkc, s, Rename(c, true), call).value;
            && call.phase.Synced? && HasFileName(call.path)
            && (Lookup(t.files, p) == Lookup(s.files, p)
                || (p == call.path && TempPath(call.path, call.phase.hex) in s.files
                    && Lookup(t.files, p) == Lookup(s.files, TempPath(call.path, call.phase.hex))))
  {
    hide TempPath;
  }

  /** A step other than the rename touches at most the call's temp file. */
  lemma OtherStep(nfkc: Nfkc, s: State, step: Step, p: Path)
    requires !step.Begin? && !step.Crash? && !step.Land? && !(step.Rename? && step.ok)
    requires step.c in s.calls && CallStep(nfkc, s, step, s.calls[step.c]).Some?
    requires HasFileName(s.calls[step.c].path) ==> p != TempPath(s.calls[step.c].path, TempTouched(step, s.calls[step.c].phase))
    ensures Lookup(CallStep(nfkc, s, step, s.calls[step.c]).value.files, p) == Lookup(s.files, p)
  {
    hide TempPath, IsHex, Effect, LockFor, Overlay;
  }

  /** The lock map only grows, so a path keeps its lock until the process ends. */
  lemma LocksGrow(nfkc: Nfkc, s: State, step: Step)
    requires Next(nfkc, s, step).Some? && !step.Crash?
    ensures var t := Next(nfkc, s, step).value;
            forall p :: p in s.locks ==> p in t.locks && t.locks[p] == s.locks[p]
  {
    hide TempPath, IsHex, Effect, HasFileName;
  }

  /** One path, one transaction; and no two transactions share a temp file. */
  lemma Exclusion(nfkc: Nfkc, r: Rules, files0: map<Path, Bytes>, s: State, c: CallId, d: CallId)
    requires Sound(r) && Reachable(nfkc, r, files0, s) && c in s.calls && d in s.calls && c != d
    requires s.calls[c].phase.InTransaction() && s.calls[d].phase.InTransaction()
    ensures s.calls[c].path != s.calls[d].path
    ensures HasTemp(s.calls[c].phase) && HasTemp(s.calls[d].phase) ==>
              && HasFileName(s.calls[c].path) && HasFileName(s.calls[d].path)
              && TempPath(s.calls[c].path, s.calls[c].phase.hex) != TempPath(s.calls[d].path, s.calls[d].phase.hex)
  {
    hide CallOk, HeldOk, InFlightOk, FilesOk, LogOk, OnceOk, TempPath, IsHex, HasFileName, LocksOk;
    ReachableInv(nfkc, r, files0, s);
    PathsDiffer(nfkc, r, s, c, d);
    if HasTemp(s.calls[c].phase) && HasTemp(s.calls[d].phase) {
      LiveTemp(nfkc, r, s, c);
      TempsDiffer(nfkc, r, s, c, d, s.calls[c].phase.hex);
    }
  }

  lemma LiveTemp(nfkc: Nfkc, r: Rules, s: State, c: CallId)
    requires c in s.calls && CallOk(nfkc, r, s, c) && HasTemp(s.calls[c].phase)
    ensures HasFileName(s.calls[c].path) && IsHex(s.calls[c].phase.hex)
  {
    hide IsTarget, TempPath, IsHex, Effect;
  }

  // ----- what a call can rely on -----

  /** Exactly once. A call whose rename took effect has one commit, for its path and
      its operation; a call that failed or was dropped before has none. */
  lemma CommitsOnce(nfkc: Nfkc, r: Rules, files0: map<Path, Bytes>, s: State, c: CallId)
    requires Sound(r) && Reachable(nfkc, r, files0, s) && c in s.calls
    ensures if s.calls[c].phase.Committed()
            then exists i ::
                   && 0 <= i < |s.log| && s.log[i].c == c
                   && s.log[i].path == s.calls[c].path && s.log[i].op == s.calls[c].op
                   && forall j :: 0 <= j < |s.log| && s.log[j].c == c ==> j == i
            else forall i :: 0 <= i < |s.log| ==> s.log[i].c != c
  {
    hide Inv;
    ReachableInv(nfkc, r, files0, s);
    if s.calls[c].phase.Committed() {
      var i :| 0 <= i < |s.log| && s.log[i].c == c;
      forall j | 0 <= j < |s.log| && s.log[j].c == c
        ensures j == i
      {
        assert !(i < j) && !(j < i);
      }
    }
  }

  // ----- nobody gets stuck -----

  /** The next step of a call that meets no error; a rename fails if the temp file has
      lost its name. */
  function Onward(s: State, c: CallId, hex: string): Step
    requires c in s.calls
  {
    var call := s.calls[c];
    match call.phase
    case Started => FindLock(c)
    case Waiting(_) => Acquire(c)
    case Holding(_) => if call.op.EditOp? then Read(c, true) else MakeDirs(c, true)
    case HasRead(_, _) => Compute(c)
    case Ready(_, _, _) => CreateTemp(c, hex, true)
    case Writing(_, _, out, _, written) => if written < |out| then WriteTemp(c, |out| - written, true) else SyncTemp(c, true)
    case Synced(_, _, _, hex) => Rename(c, HasFileName(call.path) && TempPath(call.path, hex) in s.files)
    case Cleaning(_, _) => RemoveTemp(c, true)
    case Leaving(_, _) => Leave(c)
    case Closed(_) => Cancel(c)
  }

  /** A call that is not over can move on, unless it waits for a lock whose owner
      can, or for an operation under way on its path, which can land. No lock is ever
      left behind without an owner. */
  lemma NobodyStuck(nfkc: Nfkc, r: Rules, files0: map<Path, Bytes>, s: State, c: CallId, hex: string)
    requires Sound(r) && Reachable(nfkc, r, files0, s) && c in s.calls && IsHex(hex)
    requires !s.calls[c].phase.Closed?
    ensures || (Next(nfkc, s, Onward(s, c, hex)).Some? && Admitted(r, s, Onward(s, c, hex)))
            || (&& s.calls[c].phase.Waiting?
                && s.calls[c].phase.lock in s.held
                && s.held[s.calls[c].phase.lock] in s.calls
                && Next(nfkc, s, Onward(s, s.held[s.calls[c].phase.lock], hex)).Some?
                && Admitted(r, s, Onward(s, s.held[s.calls[c].phase.lock], hex)))
            || (&& s.calls[c].phase.Waiting?
                && exists k: nat :: k < |s.detached| && s.detached[k].path == s.calls[c].path
                     && Next(nfkc, s, Land(k, true)).Some?)
  {
    hide Next, Sound, Inv, Onward, Admitted;
    ReachableInv(nfkc, r, files0, s);
    if s.calls[c].phase.Waiting? && s.calls[c].phase.lock in s.held {
      OwnerCanMove(nfkc, r, files0, s, s.calls[c].phase.lock, hex);
    } else {
      CanMove(nfkc, r, files0, s, c, hex);
      if !Admitted(r, s, Onward(s, c, hex)) {
        MovesOrWaits(nfkc, r, s, c, hex);
      }
    }
  }

  lemma OwnerCanMove(nfkc: Nfkc, r: Rules, files0: map<Path, Bytes>, s: State, lock: LockId, hex: string)
    requires Inv(nfkc, r, files0, s) && lock in s.held && IsHex(hex)
    ensures var d := s.held[lock];
            d in s.calls && Next(nfkc, s, Onward(s, d, hex)).Some? && Admitted(r, s, Onward(s, d, hex))
  {
    hide Next, IsHex, CallsOk, LocksOk, InFlightOk, FilesOk, LogOk;
    OwnerOf(s, lock);
    hide Inv;
    CanMove(nfkc, r, files0, s, s.held[lock], hex);
  }

  lemma MovesOrWaits(nfkc: Nfkc, r: Rules, s: State, c: CallId, hex: string)
    requires c in s.calls && !Admitted(r, s, Onward(s, c, hex))
    ensures s.calls[c].phase.Waiting?
    ensures exists k: nat :: k < |s.detached| && s.detached[k].path == s.calls[c].path
                && Next(nfkc, s, Land(k, true)).Some?
  {
    hide Next;
    var d :| d in s.detached && d.path == s.calls[c].path;
    var k :| 0 <= k < |s.detached| && s.detached[k] == d;
    CanLand(nfkc, s, k);
  }

  lemma CanLand(nfkc: Nfkc, s: State, k: nat)
    requires k < |s.detached|
    ensures Next(nfkc, s, Land(k, true)).Some?
  {
  }

  lemma OwnerOf(s: State, lock: LockId)
    requires HeldOk(s) && lock in s.held
    ensures s.held[lock] in s.calls && s.calls[s.held[lock]].phase.InTransaction()
  {
  }

  lemma CanMove(nfkc: Nfkc, r: Rules, files0: map<Path, Bytes>, s: State, c: CallId, hex: string)
    requires Inv(nfkc, r, files0, s) && c in s.calls && IsHex(hex)
    requires !s.calls[c].phase.Closed?
    requires s.calls[c].phase.Waiting? ==> s.calls[c].phase.lock !in s.held
    ensures Next(nfkc, s, Onward(s, c, hex)).Some?
  {
    hide Inv, Effect, TempPath, IsHex, LockOk, IsTarget, HasFileName, Renamed, Released, At, LockFor, ReadyOk, Changed, Dropped, TempIs, Lookup;
    InvCall(nfkc, r, files0, s, c);
  }

  // ----- the end of a call -----

  predicate Ends(step: Step) {
    step.Leave? || step.Cancel? || step.CancelDuringCreate? || step.CancelDuringWrite? || step.CancelDuringRename? || step.CancelDuringRemove?
  }

  /** A call that leaves or is dropped gives its lock back, even with an operation under
      way, and takes no further step; no file and no other call is touched, and any other may be
      dropped as well. */
  lemma EndedCall(nfkc: Nfkc, r: Rules, files0: map<Path, Bytes>, s: State, step: Step, t: State)
    requires Sound(r) && Reachable(nfkc, r, files0, s)
    requires Ends(step) && Next(nfkc, s, step) == Some(t)
    ensures var c := step.c;
            && c in s.calls && !s.calls[c].phase.Closed?
            && c in t.calls && t.calls[c].phase.Closed?
            && t.calls - {c} == s.calls - {c}
            && (forall l :: l in t.held <==> l in s.held && s.held[l] != c)
            && (forall l :: l in t.held ==> t.held[l] == s.held[l])
            && (forall next: Step :: !next.Land? && !next.Crash? && next.c == c ==> Next(nfkc, t, next).None?)
    ensures t.files == s.files && t.log == s.log && t.locks == s.locks
    ensures forall d :: d in t.calls && !t.calls[d].phase.Closed? ==> Next(nfkc, t, Cancel(d)).Some?
  {
    hide Reachable, Sound, Inv, Effect, TempPath, IsHex;
    ReachableInv(nfkc, r, files0, s);
    HeldExactly(nfkc, r, files0, s, step.c);
    Stopped(nfkc, s, step, t);
    Droppable(nfkc, t);
    forall next: Step | !next.Land? && !next.Crash? && next.c == step.c
      ensures Next(nfkc, t, next).None?
    {
      ClosedStays(nfkc, t, next);
    }
  }

  /** The lock of a call in its transaction, and no other, is held by it. */
  lemma HeldExactly(nfkc: Nfkc, r: Rules, files0: map<Path, Bytes>, s: State, c: CallId)
    requires Inv(nfkc, r, files0, s) && c in s.calls
    ensures forall l :: l in s.held && s.held[l] == c <==> s.calls[c].phase.InTransaction() && l == s.calls[c].phase.lock
  {
    hide LocksOk, InFlightOk, FilesOk, LogOk, DataOk, IsTarget;
  }

  lemma Stopped(nfkc: Nfkc, s: State, step: Step, t: State)
    requires Ends(step) && Next(nfkc, s, step) == Some(t)
    ensures var c := step.c;
            && c in s.calls && !s.calls[c].phase.Closed?
            && t.calls == s.calls[c := s.calls[c].(phase := Closed(s.calls[c].phase.Committed()))]
            && t.held == if s.calls[c].phase.InTransaction() then s.held - {s.calls[c].phase.lock} else s.held
    ensures t.files == s.files && t.log == s.log && t.locks == s.locks
  {
    hide TempPath, IsHex, HasFileName;
  }

  lemma ClosedStays(nfkc: Nfkc, s: State, step: Step)
    requires !step.Land? && !step.Crash? && (step.Begin? ==> step.c in s.begun)
    requires step.c in s.calls && s.calls[step.c].phase.Closed?
    ensures Next(nfkc, s, step).None?
  {
    hide TempPath, IsHex, HasFileName, Effect;
  }

  lemma Droppable(nfkc: Nfkc, s: State)
    ensures forall d :: d in s.calls && !s.calls[d].phase.Closed? ==> Next(nfkc, s, Cancel(d)).Some?
  {
    hide TempPath, IsHex, HasFileName, Effect;
  }

  // ----- errors -----

  /** `failed` is the same file operation with an error. */
  predicate IsFailure(step: Step, failed: Step) {
    match step
    case Read(c, _) => failed == Read(c, false)
    case MakeDirs(c, _) => failed == MakeDirs(c, false)
    case CreateTemp(c, hex, _) => failed == CreateTemp(c, hex, false)
    case WriteTemp(c, n, _) => failed == WriteTemp(c, n, false)
    case SyncTemp(c, _) => failed == SyncTemp(c, false)
    case Rename(c, _) => failed == Rename(c, false)
    case RemoveTemp(c, _) => failed == RemoveTemp(c, false)
    case _ => false
  }

  /** Every file operation of a call may fail. The call then has nothing left to do but
      remove its temp file and leave, uncommitted; no target and no log entry changes. */
  lemma AnyOperationMayFail(nfkc: Nfkc, r: Rules, files0: map<Path, Bytes>, s: State, step: Step, failed: Step)
    requires Sound(r) && Reachable(nfkc, r, files0, s)
    requires Next(nfkc, s, step).Some? && IsFailure(step, failed)
    ensures Next(nfkc, s, failed).Some?
    ensures var t := Next(nfkc, s, failed).value;
            && failed.c in t.calls && t.calls[failed.c].phase.InTransaction()
            && (t.calls[failed.c].phase.Cleaning? || t.calls[failed.c].phase == Leaving(s.calls[failed.c].phase.lock, false))
            && t.log == s.log
            && forall p :: p in r.targets ==> Lookup(t.files, p) == Lookup(s.files, p)
  {
    hide Reachable, Inv, Sound, Next, Replay, Endangered;
    FailedStep(nfkc, s, step, failed);
    var t := Next(nfkc, s, failed).value;
    forall p | p in r.targets
      ensures Lookup(t.files, p) == Lookup(s.files, p)
    {
      TargetsApart(r, p);
      StepIsAtomic(nfkc, r, files0, s, failed, p);
    }
  }

  lemma TargetsApart(r: Rules, p: Path)
    requires Sound(r) && p in r.targets
    ensures !Endangered(r.targets, p)
  {
  }

  lemma FailedStep(nfkc: Nfkc, s: State, step: Step, failed: Step)
    requires Next(nfkc, s, step).Some? && IsFailure(step, failed)
    ensures Next(nfkc, s, failed).Some?
    ensures var t := Next(nfkc, s, failed).value;
            && failed.c in t.calls && t.calls[failed.c].phase.InTransaction()
            && (t.calls[failed.c].phase.Cleaning? || t.calls[failed.c].phase == Leaving(s.calls[failed.c].phase.lock, false))
            && t.log == s.log
  {
    hide TempPath, IsHex, Effect, Overlay, Changed, Lookup, Renamed, Landed, Released, Dropped, LockFor;
  }
}
