/** What every step of the mutation protocol keeps. */
module ProtocolInvariant {
  import opened Seqs
  import opened Normalizer
  import opened PathResolver
  import opened MutationProtocol

  // ----- the invariant -----

  /** No lock is taken over an operation under way, but for removals, and targets are
      not each other's temp files. */
  ghost predicate Sound(r: Rules) {
    Separate(r.targets) && r.overlap <= {Removes}
  }

  ghost predicate IsTarget(r: Rules, path: Path) {
    path in r.targets && !Endangered(r.targets, path)
  }

  ghost predicate LocksOk(s: State) {
    LockMapOk(s.locks, s.nextLock)
  }

  /** A held lock is owned by a call that is in its transaction with that lock. */
  ghost predicate HeldOk(s: State) {
    forall l :: l in s.held ==>
      && s.held[l] in s.calls
      && s.calls[s.held[l]].phase.InTransaction()
      && s.calls[s.held[l]].phase.lock == l
  }

  ghost predicate LockOk(s: State, c: CallId)
    requires c in s.calls
  {
    var call := s.calls[c];
    && (call.phase.KnowsLock() ==> call.path in s.locks && s.locks[call.path] == call.phase.lock)
    && (call.phase.InTransaction() ==> call.phase.lock in s.held && s.held[call.phase.lock] == c)
  }

  /** The temp file holds this, unless it was removed. */
  predicate TempIs(files: map<Path, Bytes>, tmp: Path, content: Bytes) {
    tmp in files ==> files[tmp] == content
  }

  /** What the call carries is up to date with the files. */
  ghost predicate DataOk(nfkc: Nfkc, files: map<Path, Bytes>, call: Call) {
    match call.phase
    case HasRead(_, read) => call.op.EditOp? && read == Lookup(files, call.path)
    case Ready(_, read, out) => ReadyOk(nfkc, files, call.path, call.op, read, out)
    case Writing(_, read, out, hex, written) =>
      && ReadyOk(nfkc, files, call.path, call.op, read, out)
      && HasFileName(call.path) && IsHex(hex) && written <= |out|
      && TempIs(files, TempPath(call.path, hex), out[..written])
    case Synced(_, read, out, hex) =>
      && ReadyOk(nfkc, files, call.path, call.op, read, out)
      && HasFileName(call.path) && IsHex(hex)
      && TempIs(files, TempPath(call.path, hex), out)
    case Cleaning(_, hex) => HasFileName(call.path) && IsHex(hex)
    case _ => true
  }

  ghost predicate ReadyOk(nfkc: Nfkc, files: map<Path, Bytes>, path: Path, op: Op, read: Option<Bytes>, out: Bytes) {
    Effect(nfkc, op, read) == Some(out) && (op.EditOp? ==> read == Lookup(files, path))
  }

  ghost predicate CallOk(nfkc: Nfkc, r: Rules, s: State, c: CallId)
    requires c in s.calls
  {
    IsTarget(r, s.calls[c].path) && LockOk(s, c) && DataOk(nfkc, s.files, s.calls[c])
  }

  ghost predicate NobodyIn(s: State, path: Path) {
    forall c :: c in s.calls && s.calls[c].phase.InTransaction() ==> s.calls[c].path != path
  }

  /** An operation under way belongs to a dropped call. Until it lands nobody is in a
      transaction on its path, unless it is a removal; a rename finds its temp file
      whole, if at all, and what it read is up to date. */
  ghost predicate LandsOk(nfkc: Nfkc, r: Rules, s: State, d: Detached) {
    && d.c in s.calls && s.calls[d.c].path == d.path && s.calls[d.c].phase == Closed(false)
    && IsTarget(r, d.path) && HasFileName(d.path) && IsHex(d.hex)
    && (!d.action.Removal? ==> NobodyIn(s, d.path))
    && (d.action.Replacement? ==> RenameOk(nfkc, s.files, s.calls[d.c].op, d))
  }

  ghost predicate RenameOk(nfkc: Nfkc, files: map<Path, Bytes>, op: Op, d: Detached)
    requires d.action.Replacement? && HasFileName(d.path)
  {
    && d.action.op == op
    && ReadyOk(nfkc, files, d.path, op, d.action.read, d.action.out)
    && TempIs(files, TempPath(d.path, d.hex), d.action.out)
  }

  /** One operation a call; but for removals, one a path. */
  ghost predicate Distinct(ds: seq<Detached>) {
    forall i, j :: 0 <= i < j < |ds| ==>
      ds[i].c != ds[j].c && (ds[i].action.Removal? || ds[j].action.Removal? || ds[i].path != ds[j].path)
  }

  ghost predicate InFlightOk(nfkc: Nfkc, r: Rules, s: State) {
    (forall d :: d in s.detached ==> LandsOk(nfkc, r, s, d)) && Distinct(s.detached)
  }

  ghost predicate FilesOk(r: Rules, files0: map<Path, Bytes>, files: map<Path, Bytes>, log: seq<Commit>) {
    forall p :: !Endangered(r.targets, p) ==> Lookup(files, p) == Lookup(Replay(files0, log), p)
  }

  predicate Logged(log: seq<Commit>, c: CallId) {
    exists i :: 0 <= i < |log| && log[i].c == c
  }

  /** Each call has at most one commit, and has one exactly when its rename took
      effect; the commit is for its path and its operation. */
  ghost predicate OnceOk(s: State) {
    && s.calls.Keys <= s.begun
    && (forall i :: 0 <= i < |s.log| ==> s.log[i].c in s.begun)
    && (forall i, j :: 0 <= i < j < |s.log| ==> s.log[i].c != s.log[j].c)
    && (forall c :: c in s.calls ==> (s.calls[c].phase.Committed() <==> Logged(s.log, c)))
    && (forall i :: 0 <= i < |s.log| && s.log[i].c in s.calls ==>
          s.log[i].path == s.calls[s.log[i].c].path && s.log[i].op == s.calls[s.log[i].c].op)
  }

  ghost predicate CallsOk(nfkc: Nfkc, r: Rules, s: State) {
    forall c :: c in s.calls ==> CallOk(nfkc, r, s, c)
  }

  ghost predicate Inv(nfkc: Nfkc, r: Rules, files0: map<Path, Bytes>, s: State) {
    && LocksOk(s)
    && HeldOk(s)
    && CallsOk(nfkc, r, s)
    && InFlightOk(nfkc, r, s)
    && FilesOk(r, files0, s.files, s.log)
    && LogOk(nfkc, files0, s.log)
  }

  // ----- two transactions are kept apart -----

  /** Mutual exclusion: one path, one transaction. */
  lemma PathsDiffer(nfkc: Nfkc, r: Rules, s: State, c: CallId, d: CallId)
    requires CallsOk(nfkc, r, s) && LocksOk(s) && c in s.calls && d in s.calls && c != d
    requires s.calls[c].phase.InTransaction() && s.calls[d].phase.InTransaction()
    ensures s.calls[c].path != s.calls[d].path
  {
    hide DataOk, IsTarget;
    assert CallOk(nfkc, r, s, c) && CallOk(nfkc, r, s, d);
  }

  lemma TempNotTarget(r: Rules, path: Path, hex: string, p: Path)
    requires path in r.targets && HasFileName(path) && IsHex(hex) && !Endangered(r.targets, p)
    ensures TempPath(path, hex) != p
  {
    hide TempPath, IsHex, HasFileName;
  }

  predicate HasTemp(phase: Phase) {
    phase.Writing? || phase.Synced?
  }

  /** No two live transactions share a temp file. */
  lemma TempsDiffer(nfkc: Nfkc, r: Rules, s: State, c: CallId, d: CallId, hex: string)
    requires CallsOk(nfkc, r, s) && LocksOk(s) && c in s.calls && d in s.calls && c != d
    requires s.calls[c].phase.InTransaction() && HasFileName(s.calls[c].path) && IsHex(hex)
    requires HasTemp(s.calls[d].phase)
    ensures HasFileName(s.calls[d].path)
    ensures TempPath(s.calls[c].path, hex) != TempPath(s.calls[d].path, s.calls[d].phase.hex)
  {
    hide LocksOk, IsTarget, TempPath, IsHex;
    assert CallOk(nfkc, r, s, d);
    PathsDiffer(nfkc, r, s, c, d);
    if TempPath(s.calls[c].path, hex) == TempPath(s.calls[d].path, s.calls[d].phase.hex) {
      TempPathInjective(s.calls[c].path, hex, s.calls[d].path, s.calls[d].phase.hex);
    }
  }

  // ----- what a step does to everyone else -----

  /** The files agree but for one target and one temp file of it. */
  ghost predicate SameBut(files: map<Path, Bytes>, files': map<Path, Bytes>, path: Path, hex: string)
    requires HasFileName(path)
  {
    forall p :: p != path && p != TempPath(path, hex) ==> Lookup(files', p) == Lookup(files, p)
  }

  /** What another target's transaction looks at is not touched. */
  lemma OutOfReach(r: Rules, files: map<Path, Bytes>, files': map<Path, Bytes>, path: Path, hex: string, other: Path)
    requires IsTarget(r, path) && IsTarget(r, other) && other != path
    requires HasFileName(path) && IsHex(hex) && SameBut(files, files', path, hex)
    ensures Lookup(files', other) == Lookup(files, other)
    ensures forall h :: HasFileName(other) && IsHex(h) ==> Lookup(files', TempPath(other, h)) == Lookup(files, TempPath(other, h))
  {
    hide TempPath, IsHex, Endangered, HasFileName;
    TempNotTarget(r, path, hex, other);
    forall h | HasFileName(other) && IsHex(h)
      ensures Lookup(files', TempPath(other, h)) == Lookup(files, TempPath(other, h))
    {
      TempNotTarget(r, other, h, path);
      if TempPath(other, h) == TempPath(path, hex) {
        TempPathInjective(other, h, path, hex);
      }
    }
  }

  predicate SameOrGone(files: map<Path, Bytes>, files': map<Path, Bytes>, p: Path) {
    p in files' ==> Lookup(files', p) == Lookup(files, p)
  }

  /** A call that did not move, over files that did not change where it looks. */
  lemma Unmoved(nfkc: Nfkc, r: Rules, s: State, t: State, d: CallId)
    requires d in s.calls && d in t.calls && t.calls[d] == s.calls[d]
    requires CallOk(nfkc, r, s, d)
    requires forall p :: p in s.locks ==> p in t.locks && t.locks[p] == s.locks[p]
    requires var phase := s.calls[d].phase; phase.InTransaction() && phase.lock in s.held && s.held[phase.lock] == d ==>
               phase.lock in t.held && t.held[phase.lock] == d
    requires s.calls[d].phase.InTransaction() ==> Lookup(t.files, s.calls[d].path) == Lookup(s.files, s.calls[d].path)
    requires var call := s.calls[d]; HasTemp(call.phase) && HasFileName(call.path) ==>
               SameOrGone(s.files, t.files, TempPath(call.path, call.phase.hex))
    ensures CallOk(nfkc, r, t, d)
  {
    hide IsTarget, TempPath, Effect, IsHex;
  }

  /** Everyone else stays sound when call `c` moves without touching files. */
  lemma OthersUnmoved(nfkc: Nfkc, r: Rules, s: State, t: State, c: CallId)
    requires CallsOk(nfkc, r, s) && t.files == s.files
    requires forall d :: d in t.calls && d != c ==> d in s.calls && t.calls[d] == s.calls[d]
    requires forall p :: p in s.locks ==> p in t.locks && t.locks[p] == s.locks[p]
    requires forall l :: l in s.held && s.held[l] != c ==> l in t.held && t.held[l] == s.held[l]
    ensures forall d :: d in t.calls && d != c ==> CallOk(nfkc, r, t, d)
  {
    hide CallOk;
    forall d | d in t.calls && d != c
      ensures CallOk(nfkc, r, t, d)
    {
      Unmoved(nfkc, r, s, t, d);
    }
  }

  /** Everyone else stays sound when files change at a target that nobody else has
      in a transaction, and at its temp file. */
  lemma OthersUntouched(nfkc: Nfkc, r: Rules, s: State, t: State, c: CallId, path: Path, hex: string)
    requires CallsOk(nfkc, r, s) && IsTarget(r, path) && HasFileName(path) && IsHex(hex)
    requires forall d :: d in s.calls && d != c && s.calls[d].phase.InTransaction() ==> s.calls[d].path != path
    requires t.locks == s.locks && t.held == s.held
    requires forall d :: d in t.calls && d != c ==> d in s.calls && t.calls[d] == s.calls[d]
    requires SameBut(s.files, t.files, path, hex)
    ensures forall d :: d in t.calls && d != c ==> CallOk(nfkc, r, t, d)
  {
    hide IsTarget, TempPath, IsHex, SameBut, Effect;
    forall d | d in t.calls && d != c
      ensures CallOk(nfkc, r, t, d)
    {
      assert CallOk(nfkc, r, s, d);
      if s.calls[d].phase.InTransaction() {
        OutOfReach(r, s.files, t.files, path, hex, s.calls[d].path);
      }
      Unmoved(nfkc, r, s, t, d);
    }
  }

  lemma LocksUnread(s: State, t: State)
    requires LocksOk(s) && t.locks == s.locks && t.nextLock == s.nextLock
    ensures LocksOk(t)
  {
  }

  // ----- what a step does to operations under way -----

  lemma FlightUnmoved(nfkc: Nfkc, r: Rules, s: State, t: State, d: Detached)
    requires LandsOk(nfkc, r, s, d) && d.c in t.calls && t.calls[d.c] == s.calls[d.c]
    requires !d.action.Removal? ==> NobodyIn(t, d.path)
    requires d.action.Replacement? ==> Lookup(t.files, d.path) == Lookup(s.files, d.path)
    requires d.action.Replacement? && HasFileName(d.path) ==> SameOrGone(s.files, t.files, TempPath(d.path, d.hex))
    ensures LandsOk(nfkc, r, t, d)
  {
    hide IsTarget, TempPath, Effect, IsHex, NobodyIn;
  }

  /** Every transaction of `t` is one of `s`, or on a path where at most removals are
      under way. */
  ghost predicate NoNewTransaction(s: State, t: State) {
    forall c :: c in t.calls && t.calls[c].phase.InTransaction() ==>
      || (c in s.calls && s.calls[c].phase.InTransaction() && s.calls[c].path == t.calls[c].path)
      || forall d :: d in s.detached ==> d.action.Removal? || d.path != t.calls[c].path
  }

  /** A call that has not ended moves, without touching files. */
  lemma FlightsUnmoved(nfkc: Nfkc, r: Rules, s: State, t: State, c: CallId)
    requires InFlightOk(nfkc, r, s) && t.detached == s.detached && t.files == s.files
    requires NoNewTransaction(s, t)
    requires forall d :: d in s.calls && d != c ==> d in t.calls && t.calls[d] == s.calls[d]
    requires c in s.calls ==> c in t.calls && (t.calls[c] == s.calls[c] || !s.calls[c].phase.Closed?)
    ensures InFlightOk(nfkc, r, t)
  {
    hide IsTarget, TempPath, Effect, IsHex, HasFileName, ReadyOk;
    forall d | d in t.detached
      ensures LandsOk(nfkc, r, t, d)
    {
      assert LandsOk(nfkc, r, s, d);
      FlightUnmoved(nfkc, r, s, t, d);
    }
  }

  /** A call in its transaction moves and changes its temp file or its target. */
  lemma FlightsUntouched(nfkc: Nfkc, r: Rules, s: State, t: State, c: CallId, hex: string)
    requires InFlightOk(nfkc, r, s) && t.detached == s.detached
    requires c in s.calls && s.calls[c].phase.InTransaction() && IsTarget(r, s.calls[c].path)
    requires HasFileName(s.calls[c].path) && IsHex(hex) && SameBut(s.files, t.files, s.calls[c].path, hex)
    requires NoNewTransaction(s, t)
    requires forall d :: d in s.calls && d != c ==> d in t.calls && t.calls[d] == s.calls[d]
    ensures InFlightOk(nfkc, r, t)
  {
    hide IsTarget, TempPath, Effect, IsHex, HasFileName, ReadyOk, SameBut;
    forall d | d in t.detached
      ensures LandsOk(nfkc, r, t, d)
    {
      assert LandsOk(nfkc, r, s, d);
      if !d.action.Removal? {
        OutOfReach(r, s.files, t.files, s.calls[c].path, hex, d.path);
      }
      FlightUnmoved(nfkc, r, s, t, d);
    }
  }

  // ----- every step keeps the invariant -----

  /** A temp file is no target: the log still describes the files. */
  lemma TempChangeKeepsFiles(r: Rules, files0: map<Path, Bytes>, files: map<Path, Bytes>, files': map<Path, Bytes>, log: seq<Commit>, path: Path, hex: string)
    requires FilesOk(r, files0, files, log) && path in r.targets && HasFileName(path) && IsHex(hex)
    requires forall p :: p != TempPath(path, hex) ==> Lookup(files', p) == Lookup(files, p)
    ensures FilesOk(r, files0, files', log)
  {
    hide TempPath, IsHex, Endangered;
    forall p | !Endangered(r.targets, p)
      ensures Lookup(files', p) == Lookup(files, p)
    {
      TempNotTarget(r, path, hex, p);
    }
  }

  lemma BeginKeeps(nfkc: Nfkc, r: Rules, files0: map<Path, Bytes>, s: State, c: CallId, path: Path, op: Op)
    requires Inv(nfkc, r, files0, s) && OnceOk(s) && c !in s.begun && IsTarget(r, path)
    ensures Inv(nfkc, r, files0, s.(begun := s.begun + {c}, calls := s.calls[c := Call(path, op, Started)]))
  {
    hide FilesOk, LogOk, LocksOk, IsTarget, InFlightOk;
    var t := s.(begun := s.begun + {c}, calls := s.calls[c := Call(path, op, Started)]);
    assert c !in s.calls;
    OthersUnmoved(nfkc, r, s, t, c);
    LocksUnread(s, t);
    FlightsUnmoved(nfkc, r, s, t, c);
    assert CallOk(nfkc, r, t, c);
  }

  lemma FindLockKeeps(nfkc: Nfkc, r: Rules, files0: map<Path, Bytes>, s: State, c: CallId)
    requires Inv(nfkc, r, files0, s) && c in s.calls && s.calls[c].phase.Started?
    ensures var (locks, nextLock, lock) := LockFor(s.locks, s.nextLock, s.calls[c].path);
            Inv(nfkc, r, files0, At(s, c, Waiting(lock)).(locks := locks, nextLock := nextLock))
  {
    hide FilesOk, LogOk, IsTarget, Effect, TempPath, IsHex, ReadyOk, InFlightOk;
    var (locks, nextLock, lock) := LockFor(s.locks, s.nextLock, s.calls[c].path);
    var t := At(s, c, Waiting(lock)).(locks := locks, nextLock := nextLock);
    hide HeldOk, DataOk;
    OthersUnmoved(nfkc, r, s, t, c);
    assert CallOk(nfkc, r, s, c);
    BystanderHeld(s, t, c);
    FlightsUnmoved(nfkc, r, s, t, c);
    assert DataOk(nfkc, t.files, t.calls[c]) by { NoData(nfkc, t.files, t.calls[c]); }
    assert CallOk(nfkc, r, t, c);
  }

  /** Phases that carry nothing read from the files. */
  lemma NoData(nfkc: Nfkc, files: map<Path, Bytes>, call: Call)
    requires !call.phase.InTransaction() || call.phase.Holding? || call.phase.Leaving?
    ensures DataOk(nfkc, files, call)
  {
  }

  /** A call outside its transaction owns no lock, whatever it does. */
  lemma BystanderHeld(s: State, t: State, c: CallId)
    requires HeldOk(s) && t.held == s.held && c in t.calls
    requires c in s.calls ==> !s.calls[c].phase.InTransaction()
    requires forall d :: d in s.calls && d != c ==> d in t.calls && t.calls[d] == s.calls[d]
    ensures HeldOk(t)
  {
  }

  lemma AcquiredHeld(s: State, c: CallId, lock: LockId)
    requires HeldOk(s) && c in s.calls && lock !in s.held && !s.calls[c].phase.InTransaction()
    ensures HeldOk(At(s, c, Holding(lock)).(held := s.held[lock := c]))
  {
  }

  lemma ReleasedHeld(s: State, c: CallId)
    requires HeldOk(s) && c in s.calls && LockOk(s, c)
    ensures HeldOk(Released(s, c))
    ensures forall l :: l in s.held && s.held[l] != c ==> l in Released(s, c).held && Released(s, c).held[l] == s.held[l]
  {
  }

  /** A lock is taken when at most removals are under way on its path. */
  lemma AcquireKeeps(nfkc: Nfkc, r: Rules, files0: map<Path, Bytes>, s: State, c: CallId)
    requires Inv(nfkc, r, files0, s) && c in s.calls && s.calls[c].phase.Waiting?
    requires s.calls[c].phase.lock !in s.held
    requires forall d :: d in s.detached ==> d.action.Removal? || d.path != s.calls[c].path
    ensures var lock := s.calls[c].phase.lock;
            Inv(nfkc, r, files0, At(s, c, Holding(lock)).(held := s.held[lock := c]))
  {
    hide FilesOk, LogOk, LocksOk, IsTarget, Effect, TempPath, IsHex, ReadyOk, InFlightOk;
    var lock := s.calls[c].phase.lock;
    var t := At(s, c, Holding(lock)).(held := s.held[lock := c]);
    hide HeldOk, DataOk;
    OthersUnmoved(nfkc, r, s, t, c);
    LocksUnread(s, t);
    assert CallOk(nfkc, r, s, c);
    AcquiredHeld(s, c, lock);
    FlightsUnmoved(nfkc, r, s, t, c);
    NoData(nfkc, t.files, t.calls[c]);
    assert CallOk(nfkc, r, t, c);
  }

  /** A call in its transaction moves on with its lock, over the same files. */
  lemma PhaseKeeps(nfkc: Nfkc, r: Rules, files0: map<Path, Bytes>, s: State, c: CallId, phase: Phase)
    requires Inv(nfkc, r, files0, s) && c in s.calls
    requires s.calls[c].phase.InTransaction() && phase.InTransaction() && phase.lock == s.calls[c].phase.lock
    requires DataOk(nfkc, s.files, s.calls[c].(phase := phase))
    ensures Inv(nfkc, r, files0, At(s, c, phase))
  {
    hide FilesOk, LogOk, LocksOk, IsTarget, DataOk, InFlightOk;
    var t := At(s, c, phase);
    OthersUnmoved(nfkc, r, s, t, c);
    LocksUnread(s, t);
    FlightsUnmoved(nfkc, r, s, t, c);
    assert CallOk(nfkc, r, s, c);
    assert CallOk(nfkc, r, t, c);
  }

  /** A call in its transaction moves on and changes its temp file. */
  lemma TempKeeps(nfkc: Nfkc, r: Rules, files0: map<Path, Bytes>, s: State, c: CallId, phase: Phase, hex: string, files: map<Path, Bytes>)
    requires Inv(nfkc, r, files0, s) && c in s.calls
    requires s.calls[c].phase.InTransaction() && phase.InTransaction() && phase.lock == s.calls[c].phase.lock
    requires HasFileName(s.calls[c].path) && IsHex(hex)
    requires forall p :: p != TempPath(s.calls[c].path, hex) ==> Lookup(files, p) == Lookup(s.files, p)
    requires DataOk(nfkc, files, s.calls[c].(phase := phase))
    ensures Inv(nfkc, r, files0, At(s, c, phase).(files := files))
  {
    hide FilesOk, LogOk, LocksOk, DataOk, TempPath, IsHex, InFlightOk, Endangered;
    var t := At(s, c, phase).(files := files);
    assert CallOk(nfkc, r, s, c);
    NobodyElse(nfkc, r, s, c);
    hide IsTarget;
    OthersUntouched(nfkc, r, s, t, c, s.calls[c].path, hex);
    LocksUnread(s, t);
    FlightsUntouched(nfkc, r, s, t, c, hex);
    TempChangeKeepsFiles(r, files0, s.files, files, s.log, s.calls[c].path, hex);
    assert CallOk(nfkc, r, t, c);
  }

  lemma NobodyElse(nfkc: Nfkc, r: Rules, s: State, c: CallId)
    requires CallsOk(nfkc, r, s) && LocksOk(s) && c in s.calls && s.calls[c].phase.InTransaction()
    ensures forall d :: d in s.calls && d != c && s.calls[d].phase.InTransaction() ==> s.calls[d].path != s.calls[c].path
  {
    hide CallsOk, LocksOk;
    forall d | d in s.calls && d != c && s.calls[d].phase.InTransaction()
      ensures s.calls[d].path != s.calls[c].path
    {
      PathsDiffer(nfkc, r, s, d, c);
    }
  }

  lemma ReleasedKeeps(nfkc: Nfkc, r: Rules, files0: map<Path, Bytes>, s: State, c: CallId)
    requires Inv(nfkc, r, files0, s) && c in s.calls && !s.calls[c].phase.Closed?
    ensures Inv(nfkc, r, files0, Released(s, c))
  {
    hide FilesOk, LogOk, LocksOk, IsTarget, Effect, TempPath, IsHex, ReadyOk, InFlightOk;
    var t := Released(s, c);
    hide HeldOk, DataOk;
    assert CallOk(nfkc, r, s, c);
    ReleasedHeld(s, c);
    OthersUnmoved(nfkc, r, s, t, c);
    LocksUnread(s, t);
    FlightsUnmoved(nfkc, r, s, t, c);
    NoData(nfkc, t.files, t.calls[c]);
    assert CallOk(nfkc, r, t, c);
  }

  /** What is under way is what the call was about to do. */
  ghost predicate About(call: Call, hex: string, action: Action) {
    && HasFileName(call.path) && IsHex(hex)
    && (action.Replacement? ==>
          && call.phase.Synced? && call.phase.hex == hex
          && action == Replacement(call.op, call.phase.read, call.phase.out))
  }

  /** A call is dropped while an operation is under way. */
  lemma DropKeeps(nfkc: Nfkc, r: Rules, files0: map<Path, Bytes>, s: State, c: CallId, hex: string, action: Action)
    requires Inv(nfkc, r, files0, s) && c in s.calls && s.calls[c].phase.InTransaction()
    requires !s.calls[c].phase.Committed() && About(s.calls[c], hex, action)
    ensures Inv(nfkc, r, files0, Dropped(s, c, hex, action))
  {
    hide FilesOk, LogOk, LocksOk, HeldOk, IsTarget, Effect, TempPath, IsHex, ReadyOk, InFlightOk, CallsOk, About;
    ReleasedKeeps(nfkc, r, files0, s, c);
    var u := Released(s, c);
    var d := Detached(c, s.calls[c].path, hex, action);
    var t := Dropped(s, c, hex, action);
    SameCalls(nfkc, r, u, t);
    LocksUnread(u, t);
    SameHeld(u, t);
    NobodyElse(nfkc, r, s, c);
    NewFlight(nfkc, r, s, c, d);
    AddFlight(nfkc, r, s, u, d, c);
  }

  lemma SameHeld(s: State, t: State)
    requires HeldOk(s) && t.held == s.held && t.calls == s.calls
    ensures HeldOk(t)
  {
  }

  lemma SameCalls(nfkc: Nfkc, r: Rules, s: State, t: State)
    requires CallsOk(nfkc, r, s) && t.files == s.files && t.calls == s.calls && t.locks == s.locks && t.held == s.held
    ensures CallsOk(nfkc, r, t)
  {
    hide DataOk, IsTarget;
    forall c | c in t.calls
      ensures CallOk(nfkc, r, t, c)
    {
      assert CallOk(nfkc, r, s, c);
    }
  }

  lemma NewFlight(nfkc: Nfkc, r: Rules, s: State, c: CallId, d: Detached)
    requires CallsOk(nfkc, r, s) && c in s.calls && s.calls[c].phase.InTransaction() && !s.calls[c].phase.Committed() && About(s.calls[c], d.hex, d.action)
    requires d.c == c && d.path == s.calls[c].path
    requires forall e :: e in s.calls && e != c && s.calls[e].phase.InTransaction() ==> s.calls[e].path != d.path
    ensures LandsOk(nfkc, r, Released(s, c), d)
  {
    hide IsTarget, TempPath, IsHex, Effect;
    assert CallOk(nfkc, r, s, c);
  }

  lemma AddFlight(nfkc: Nfkc, r: Rules, s: State, u: State, d: Detached, c: CallId)
    requires InFlightOk(nfkc, r, s) && InFlightOk(nfkc, r, u) && u.detached == s.detached && LandsOk(nfkc, r, u, d)
    requires c in s.calls && s.calls[c].phase.InTransaction() && s.calls[c].path == d.path && d.c == c
    ensures InFlightOk(nfkc, r, u.(detached := s.detached + [d]))
  {
    hide IsTarget, TempPath, IsHex, ReadyOk, HasFileName;
    var t := u.(detached := s.detached + [d]);
    forall e | e in t.detached
      ensures LandsOk(nfkc, r, t, e)
    {
      assert LandsOk(nfkc, r, u, e);
    }
    forall i | 0 <= i < |s.detached|
      ensures s.detached[i].c != d.c && (s.detached[i].action.Removal? || s.detached[i].path != d.path)
    {
      assert LandsOk(nfkc, r, s, s.detached[i]);
    }
  }

  lemma {:induction false} ReplayAppend(files: map<Path, Bytes>, log: seq<Commit>, e: Commit)
    ensures Replay(files, log + [e]) == Replay(files, log)[e.path := e.after]
    ensures forall i :: 0 <= i <= |log| ==> (log + [e])[..i] == log[..i]
  {
    assert (log + [e])[..|log|] == log;
  }

  lemma LogExtended(nfkc: Nfkc, files0: map<Path, Bytes>, log: seq<Commit>, e: Commit)
    requires LogOk(nfkc, files0, log)
    requires e.before == Lookup(Replay(files0, log), e.path)
    requires e.op.EditOp? ==> e.read == e.before
    requires Effect(nfkc, e.op, e.read) == Some(e.after)
    ensures LogOk(nfkc, files0, log + [e])
  {
    hide Effect, Replay;
    ReplayAppend(files0, log, e);
    forall i | 0 <= i < |log + [e]|
      ensures CommitOk(nfkc, files0, log + [e], i)
    {
      assert (log + [e])[..i] == log[..i];
      if i < |log| {
        assert CommitOk(nfkc, files0, log, i);
      } else {
        assert log[..i] == log;
      }
    }
  }

  /** The files and the log after the rename of a temp file that is whole. */
  lemma RenamedFiles(nfkc: Nfkc, r: Rules, files0: map<Path, Bytes>, files: map<Path, Bytes>, log: seq<Commit>, e: Commit, hex: string)
    requires FilesOk(r, files0, files, log) && LogOk(nfkc, files0, log)
    requires IsTarget(r, e.path) && HasFileName(e.path) && IsHex(hex)
    requires e.before == Lookup(files, e.path) && ReadyOk(nfkc, files, e.path, e.op, e.read, e.after)
    ensures FilesOk(r, files0, files[e.path := e.after] - {TempPath(e.path, hex)}, log + [e])
    ensures LogOk(nfkc, files0, log + [e])
    ensures SameBut(files, files[e.path := e.after] - {TempPath(e.path, hex)}, e.path, hex)
  {
    hide Endangered, TempPath, IsHex, Replay, LogOk, Effect;
    ReplayAppend(files0, log, e);
    LogExtended(nfkc, files0, log, e);
    var tmp := TempPath(e.path, hex);
    var files' := files[e.path := e.after] - {tmp};
    forall p | !Endangered(r.targets, p)
      ensures Lookup(files', p) == Lookup(Replay(files0, log + [e]), p)
    {
      TempNotTarget(r, e.path, hex, p);
    }
  }

  lemma RenameKeeps(nfkc: Nfkc, r: Rules, files0: map<Path, Bytes>, s: State, c: CallId)
    requires Inv(nfkc, r, files0, s) && c in s.calls && s.calls[c].phase.Synced?
    requires HasFileName(s.calls[c].path) && TempPath(s.calls[c].path, s.calls[c].phase.hex) in s.files
    ensures var call := s.calls[c];
            Inv(nfkc, r, files0, Renamed(At(s, c, Leaving(call.phase.lock, true)), c, call.path, call.op, call.phase.read, call.phase.hex))
  {
    hide IsTarget, TempPath, IsHex, Effect, Replay, LocksOk, LogOk, FilesOk, InFlightOk, SameBut;
    assert CallOk(nfkc, r, s, c);
    var call := s.calls[c];
    var hex := call.phase.hex;
    var t := Renamed(At(s, c, Leaving(call.phase.lock, true)), c, call.path, call.op, call.phase.read, hex);
    var e := Commit(c, call.path, call.op, call.phase.read, Lookup(s.files, call.path), call.phase.out);
    assert t.log == s.log + [e];
    RenamedFiles(nfkc, r, files0, s.files, s.log, e, hex);
    NobodyElse(nfkc, r, s, c);
    OthersUntouched(nfkc, r, s, t, c, call.path, hex);
    FlightsUntouched(nfkc, r, s, t, c, hex);
    LocksUnread(s, t);
    assert CallOk(nfkc, r, t, c);
  }

  /** A rename under way lands. */
  lemma LandedRenameKeeps(nfkc: Nfkc, r: Rules, files0: map<Path, Bytes>, s: State, k: nat)
    requires Inv(nfkc, r, files0, s) && k < |s.detached| && s.detached[k].action.Replacement?
    requires HasFileName(s.detached[k].path) && TempPath(s.detached[k].path, s.detached[k].hex) in s.files
    ensures Inv(nfkc, r, files0, Landed(s, k, true))
  {
    hide IsTarget, TempPath, IsHex, Effect, Replay, LocksOk, LogOk, FilesOk, SameBut, ReadyOk, DataOk, Distinct, HeldOk;
    var d := s.detached[k];
    assert LandsOk(nfkc, r, s, d);
    var a := d.action;
    var t := Landed(s, k, true);
    var e := Commit(d.c, d.path, a.op, a.read, Lookup(s.files, d.path), a.out);
    assert t.log == s.log + [e];
    RenamedFiles(nfkc, r, files0, s.files, s.log, e, d.hex);
    OthersUntouched(nfkc, r, s, t, d.c, d.path, d.hex);
    LocksUnread(s, t);
    assert CallOk(nfkc, r, s, d.c);
    NoData(nfkc, t.files, t.calls[d.c]);
    assert CallOk(nfkc, r, t, d.c);
    BystanderHeld(s, t, d.c);
    FlightsAfter(nfkc, r, s, k, t);
  }

  /** A create or write under way lands, in a temp file that nobody uses. */
  lemma LandedTempKeeps(nfkc: Nfkc, r: Rules, files0: map<Path, Bytes>, s: State, k: nat, t: State)
    requires Inv(nfkc, r, files0, s) && k < |s.detached| && !s.detached[k].action.Removal? && HasFileName(s.detached[k].path)
    requires t == s.(detached := s.detached[..k] + s.detached[k + 1..], files := t.files)
    requires forall p :: p != TempPath(s.detached[k].path, s.detached[k].hex) ==> Lookup(t.files, p) == Lookup(s.files, p)
    ensures Inv(nfkc, r, files0, t)
  {
    hide TempPath, IsHex, Effect, LocksOk, LogOk, FilesOk, ReadyOk, DataOk, Distinct, HeldOk, Endangered;
    var d := s.detached[k];
    assert LandsOk(nfkc, r, s, d);
    TempChangeKeepsFiles(r, files0, s.files, t.files, s.log, d.path, d.hex);
    hide IsTarget;
    assert SameBut(s.files, t.files, d.path, d.hex);
    OthersUntouched(nfkc, r, s, t, d.c, d.path, d.hex);
    LocksUnread(s, t);
    SameHeld(s, t);
    assert CallOk(nfkc, r, s, d.c);
    NoData(nfkc, t.files, t.calls[d.c]);
    assert CallOk(nfkc, r, t, d.c);
    FlightsAfter(nfkc, r, s, k, t);
  }

  /** A temp file loses its name, whoever uses it. */
  lemma LandedRemovalKeeps(nfkc: Nfkc, r: Rules, files0: map<Path, Bytes>, s: State, k: nat, t: State)
    requires Inv(nfkc, r, files0, s) && k < |s.detached| && HasFileName(s.detached[k].path)
    requires t == s.(detached := s.detached[..k] + s.detached[k + 1..], files := t.files)
    requires t.files == s.files || t.files == s.files - {TempPath(s.detached[k].path, s.detached[k].hex)}
    ensures Inv(nfkc, r, files0, t)
  {
    hide TempPath, IsHex, Effect, LocksOk, LogOk, FilesOk, ReadyOk, DataOk, Distinct, HeldOk, Endangered;
    var d := s.detached[k];
    assert LandsOk(nfkc, r, s, d);
    TempChangeKeepsFiles(r, files0, s.files, t.files, s.log, d.path, d.hex);
    LocksUnread(s, t);
    SameHeld(s, t);
    forall c | c in t.calls
      ensures CallOk(nfkc, r, t, c)
    {
      assert CallOk(nfkc, r, s, c);
      TempNotTarget(r, d.path, d.hex, s.calls[c].path);
      Unmoved(nfkc, r, s, t, c);
    }
    forall e | e in t.detached
      ensures LandsOk(nfkc, r, t, e)
    {
      Without(s.detached, k, e);
      assert LandsOk(nfkc, r, s, e);
      TempNotTarget(r, d.path, d.hex, e.path);
      FlightUnmoved(nfkc, r, s, t, e);
    }
    StillDistinct(s.detached, k);
  }

  /** An operation under way lands, or fails. */
  lemma LandKeeps(nfkc: Nfkc, r: Rules, files0: map<Path, Bytes>, s: State, k: nat, ok: bool)
    requires Inv(nfkc, r, files0, s) && k < |s.detached|
    ensures Inv(nfkc, r, files0, Landed(s, k, ok))
  {
    var d := s.detached[k];
    assert LandsOk(nfkc, r, s, d);
    hide Inv, LandsOk, TempPath, HasFileName, IsHex, Overlay;
    var t := Landed(s, k, ok);
    if !ok {
      LandedRemovalKeeps(nfkc, r, files0, s, k, t);
    } else {
      match d.action
      case Creation => LandedTempKeeps(nfkc, r, files0, s, k, t);
      case Change(_, _) => LandedTempKeeps(nfkc, r, files0, s, k, t);
      case Removal => LandedRemovalKeeps(nfkc, r, files0, s, k, t);
      case Replacement(_, _, _) =>
        if TempPath(d.path, d.hex) in s.files {
          LandedRenameKeeps(nfkc, r, files0, s, k);
        } else {
          LandedRemovalKeeps(nfkc, r, files0, s, k, t);
        }
    }
  }

  lemma Without<T>(xs: seq<T>, k: nat, x: T)
    requires k < |xs| && x in xs[..k] + xs[k + 1..]
    ensures exists i :: 0 <= i < |xs| && i != k && xs[i] == x
  {
    var ys := xs[..k] + xs[k + 1..];
    var i :| 0 <= i < |ys| && ys[i] == x;
    var j := if i < k then i else i + 1;
    assert xs[j] == x;
  }

  /** The other operations under way, behind the landing of one that is no removal. */
  lemma FlightsAfter(nfkc: Nfkc, r: Rules, s: State, k: nat, t: State)
    requires InFlightOk(nfkc, r, s) && k < |s.detached| && t.detached == s.detached[..k] + s.detached[k + 1..]
    requires var d := s.detached[k];
             && !d.action.Removal? && HasFileName(d.path) && IsHex(d.hex) && IsTarget(r, d.path)
             && SameBut(s.files, t.files, d.path, d.hex)
             && d.c in s.calls && d.c in t.calls && s.calls[d.c].path == d.path && t.calls[d.c].path == d.path
             && !t.calls[d.c].phase.InTransaction() && t.calls == s.calls[d.c := t.calls[d.c]]
    ensures InFlightOk(nfkc, r, t)
  {
    hide IsTarget, TempPath, IsHex, HasFileName, ReadyOk, SameBut, SameOrGone;
    var d := s.detached[k];
    forall e | e in t.detached
      ensures LandsOk(nfkc, r, t, e)
    {
      Without(s.detached, k, e);
      assert LandsOk(nfkc, r, s, e);
      if e.action.Replacement? {
        OutOfReach(r, s.files, t.files, d.path, d.hex, e.path);
        assert Lookup(t.files, TempPath(e.path, e.hex)) == Lookup(s.files, TempPath(e.path, e.hex));
        Same(s.files, t.files, TempPath(e.path, e.hex));
      }
      FlightUnmoved(nfkc, r, s, t, e);
    }
    StillDistinct(s.detached, k);
  }

  lemma Same(files: map<Path, Bytes>, files': map<Path, Bytes>, p: Path)
    requires Lookup(files', p) == Lookup(files, p)
    ensures SameOrGone(files, files', p)
  {
  }

  lemma StillDistinct(ds: seq<Detached>, k: nat)
    requires Distinct(ds) && k < |ds|
    ensures Distinct(ds[..k] + ds[k + 1..])
  {
    var es := ds[..k] + ds[k + 1..];
    forall i, j | 0 <= i < j < |es|
      ensures es[i].c != es[j].c && (es[i].action.Removal? || es[j].action.Removal? || es[i].path != es[j].path)
    {
      assert es[i] == ds[if i < k then i else i + 1] && es[j] == ds[if j < k then j else j + 1];
    }
  }

  lemma CrashKeeps(nfkc: Nfkc, r: Rules, files0: map<Path, Bytes>, s: State)
    requires Inv(nfkc, r, files0, s)
    ensures Inv(nfkc, r, files0, s.(locks := map[], held := map[], calls := map[], detached := []))
  {
    hide FilesOk, LogOk;
  }

  lemma InvCall(nfkc: Nfkc, r: Rules, files0: map<Path, Bytes>, s: State, c: CallId)
    requires Inv(nfkc, r, files0, s) && c in s.calls
    ensures CallOk(nfkc, r, s, c)
  {
    hide CallOk;
  }

  predicate CancelDuringIo(step: Step) {
    step.CancelDuringCreate? || step.CancelDuringWrite? || step.CancelDuringRename? || step.CancelDuringRemove?
  }

  lemma CancelKeeps(nfkc: Nfkc, r: Rules, files0: map<Path, Bytes>, s: State, step: Step)
    requires CancelDuringIo(step) && Inv(nfkc, r, files0, s) && step.c in s.calls
    requires CallStep(nfkc, s, step, s.calls[step.c]).Some?
    ensures Inv(nfkc, r, files0, CallStep(nfkc, s, step, s.calls[step.c]).value)
  {
    hide Inv, LockOk, Endangered, TempPath, IsHex, Effect, HasFileName, Overlay, Released, ReadyOk, IsTarget;
    InvCall(nfkc, r, files0, s, step.c);
    var phase := s.calls[step.c].phase;
    match step
    case CancelDuringCreate(c, hex) => DropKeeps(nfkc, r, files0, s, c, hex, Creation);
    case CancelDuringWrite(c, n) =>
      DropKeeps(nfkc, r, files0, s, c, phase.hex, Change(phase.written, phase.out[phase.written..phase.written + n]));
    case CancelDuringRename(c) =>
      DropKeeps(nfkc, r, files0, s, c, phase.hex, Replacement(s.calls[c].op, phase.read, phase.out));
    case CancelDuringRemove(c) => DropKeeps(nfkc, r, files0, s, c, phase.hex, Removal);
  }

  lemma CallStepKeeps(nfkc: Nfkc, r: Rules, files0: map<Path, Bytes>, s: State, step: Step)
    requires !step.Begin? && !step.Crash? && !step.Land? && !CancelDuringIo(step)
    requires Inv(nfkc, r, files0, s) && step.c in s.calls && r.overlap <= {Removes} && Admitted(r, s, step)
    requires CallStep(nfkc, s, step, s.calls[step.c]).Some?
    ensures Inv(nfkc, r, files0, CallStep(nfkc, s, step, s.calls[step.c]).value)
  {
    hide Inv, LockOk, Endangered, TempPath, IsHex, Effect, HasFileName, Overlay, Dropped, Released;
    InvCall(nfkc, r, files0, s, step.c);
    var call := s.calls[step.c];
    var phase := call.phase;
    match step
    case FindLock(c) => FindLockKeeps(nfkc, r, files0, s, c);
    case Acquire(c) => AcquireKeeps(nfkc, r, files0, s, c);
    case Read(c, ok) =>
      PhaseKeeps(nfkc, r, files0, s, c, if ok then HasRead(phase.lock, Lookup(s.files, call.path)) else Leaving(phase.lock, false));
    case Compute(c) =>
      var out := Effect(nfkc, call.op, phase.read);
      PhaseKeeps(nfkc, r, files0, s, c, if out.None? then Leaving(phase.lock, false) else Ready(phase.lock, phase.read, out.value));
    case MakeDirs(c, ok) =>
      WriteEffect(nfkc, call.op);
      PhaseKeeps(nfkc, r, files0, s, c, if ok then Ready(phase.lock, None, call.op.content) else Leaving(phase.lock, false));
    case CreateTemp(c, hex, ok) =>
      if !HasFileName(call.path) {
        PhaseKeeps(nfkc, r, files0, s, c, Leaving(phase.lock, false));
      } else if !ok {
        PhaseKeeps(nfkc, r, files0, s, c, Cleaning(phase.lock, hex));
      } else {
        var files := s.files[TempPath(call.path, hex) := []];
        TempNotTarget(r, call.path, hex, call.path);
        assert phase.out[..0] == [];
        TempKeeps(nfkc, r, files0, s, c, Writing(phase.lock, phase.read, phase.out, hex, 0), hex, files);
      }
    case WriteTemp(c, n, ok) =>
      var files := Changed(s.files, TempPath(call.path, phase.hex), phase.written, phase.out[phase.written..phase.written + n]);
      OverlayNext(phase.out, phase.written, n);
      TempNotTarget(r, call.path, phase.hex, call.path);
      TempKeeps(nfkc, r, files0, s, c, if ok then phase.(written := phase.written + n) else Cleaning(phase.lock, phase.hex), phase.hex, files);
    case SyncTemp(c, ok) =>
      assert phase.out[..|phase.out|] == phase.out;
      PhaseKeeps(nfkc, r, files0, s, c, if ok then Synced(phase.lock, phase.read, phase.out, phase.hex) else Cleaning(phase.lock, phase.hex));
    case Rename(c, ok) =>
      if ok {
        RenameKeeps(nfkc, r, files0, s, c);
      } else {
        PhaseKeeps(nfkc, r, files0, s, c, Cleaning(phase.lock, phase.hex));
      }
    case RemoveTemp(c, ok) =>
      if ok {
        TempKeeps(nfkc, r, files0, s, c, Leaving(phase.lock, false), phase.hex, s.files - {TempPath(call.path, phase.hex)});
      } else {
        PhaseKeeps(nfkc, r, files0, s, c, Leaving(phase.lock, false));
      }
    case Leave(c) => ReleasedKeeps(nfkc, r, files0, s, c);
    case Cancel(c) => ReleasedKeeps(nfkc, r, files0, s, c);
  }

  lemma WriteEffect(nfkc: Nfkc, op: Op)
    requires op.WriteOp?
    ensures Effect(nfkc, op, None) == Some(op.content)
  {
  }

  // ----- each call commits at most once -----

  lemma {:induction false} LoggedMore(log: seq<Commit>, e: Commit, c: CallId)
    ensures Logged(log + [e], c) <==> Logged(log, c) || e.c == c
  {
    var more := log + [e];
    assert more[|log|] == e;
    if Logged(log, c) {
      var i :| 0 <= i < |log| && log[i].c == c;
      assert more[i].c == c;
    }
  }

  /** A call moves on, without a commit. */
  lemma MoveKeepsOnce(s: State, t: State, c: CallId)
    requires OnceOk(s) && c in s.calls && t.log == s.log && t.begun == s.begun
    requires c in t.calls && t.calls == s.calls[c := s.calls[c].(phase := t.calls[c].phase)]
    requires t.calls[c].phase.Committed() == s.calls[c].phase.Committed()
    ensures OnceOk(t)
  {
    hide Logged;
  }

  /** A call that had not committed does. */
  lemma CommitKeepsOnce(s: State, t: State, e: Commit)
    requires OnceOk(s) && e.c in s.calls && !s.calls[e.c].phase.Committed()
    requires t.log == s.log + [e] && t.begun == s.begun
    requires e.path == s.calls[e.c].path && e.op == s.calls[e.c].op
    requires e.c in t.calls && t.calls == s.calls[e.c := s.calls[e.c].(phase := t.calls[e.c].phase)]
    requires t.calls[e.c].phase.Committed()
    ensures OnceOk(t)
  {
    forall c
      ensures Logged(t.log, c) <==> Logged(s.log, c) || e.c == c
    {
      LoggedMore(s.log, e, c);
    }
    assert !Logged(s.log, e.c);
    assert forall i :: 0 <= i < |s.log| ==> t.log[i] == s.log[i] && s.log[i].c != e.c;
    hide Logged;
  }

  lemma CallStepKeepsOnce(nfkc: Nfkc, s: State, step: Step)
    requires !step.Begin? && !step.Crash? && !step.Land?
    requires OnceOk(s) && step.c in s.calls && CallStep(nfkc, s, step, s.calls[step.c]).Some?
    ensures OnceOk(CallStep(nfkc, s, step, s.calls[step.c]).value)
  {
    hide OnceOk, TempPath, IsHex, Effect, HasFileName, LockFor, Changed, Lookup;
    var call := s.calls[step.c];
    var t := CallStep(nfkc, s, step, call).value;
    if step.Rename? && step.ok {
      var tmp := TempPath(call.path, call.phase.hex);
      CommitKeepsOnce(s, t, Commit(step.c, call.path, call.op, call.phase.read, Lookup(s.files, call.path), s.files[tmp]));
    } else {
      MoveKeepsOnce(s, t, step.c);
    }
  }

  lemma BeginKeepsOnce(s: State, c: CallId, path: Path, op: Op)
    requires OnceOk(s) && c !in s.begun
    ensures OnceOk(s.(begun := s.begun + {c}, calls := s.calls[c := Call(path, op, Started)]))
  {
    assert !Logged(s.log, c);
    hide Logged;
  }

  lemma LandKeepsOnce(s: State, k: nat, ok: bool)
    requires OnceOk(s) && k < |s.detached|
    requires var d := s.detached[k];
             d.action.Replacement? && d.c in s.calls ==>
               s.calls[d.c] == Call(d.path, d.action.op, Closed(false))
    ensures OnceOk(Landed(s, k, ok))
  {
    hide TempPath, HasFileName, Overlay;
    var d := s.detached[k];
    var t := Landed(s, k, ok);
    if t.log != s.log {
      hide OnceOk;
      CommitKeepsOnce(s, t, t.log[|s.log|]);
    }
  }

  // ----- runs -----

  lemma LandingKeeps(nfkc: Nfkc, r: Rules, files0: map<Path, Bytes>, s: State, k: nat, ok: bool)
    requires Inv(nfkc, r, files0, s) && OnceOk(s) && k < |s.detached|
    ensures Inv(nfkc, r, files0, Landed(s, k, ok)) && OnceOk(Landed(s, k, ok))
  {
    hide OnceOk, Landed, Endangered, TempPath, IsHex, CallsOk, LocksOk, HeldOk, FilesOk, LogOk;
    assert LandsOk(nfkc, r, s, s.detached[k]);
    hide Inv;
    LandKeeps(nfkc, r, files0, s, k, ok);
    LandKeepsOnce(s, k, ok);
  }

  /** Every admitted step keeps the invariant. */
  lemma NextKeeps(nfkc: Nfkc, r: Rules, files0: map<Path, Bytes>, s: State, step: Step)
    requires Inv(nfkc, r, files0, s) && OnceOk(s) && Sound(r) && Admitted(r, s, step) && Next(nfkc, s, step).Some?
    ensures Inv(nfkc, r, files0, Next(nfkc, s, step).value) && OnceOk(Next(nfkc, s, step).value)
  {
    hide CallStep, Inv, OnceOk, Landed, Endangered;
    match step
    case Begin(c, path, op) =>
      BeginKeeps(nfkc, r, files0, s, c, path, op);
      BeginKeepsOnce(s, c, path, op);
    case Crash =>
      CrashKeeps(nfkc, r, files0, s);
      CrashKeepsOnce(s);
    case Land(k, ok) =>
      LandingKeeps(nfkc, r, files0, s, k, ok);
    case _ =>
      hide Admitted;
      if CancelDuringIo(step) {
        CancelKeeps(nfkc, r, files0, s, step);
      } else {
        CallStepKeeps(nfkc, r, files0, s, step);
      }
      CallStepKeepsOnce(nfkc, s, step);
  }

  lemma CrashKeepsOnce(s: State)
    requires OnceOk(s)
    ensures OnceOk(s.(locks := map[], held := map[], calls := map[], detached := []))
  {
    hide Logged;
  }

  lemma InitialOk(nfkc: Nfkc, r: Rules, files0: map<Path, Bytes>)
    ensures Inv(nfkc, r, files0, Initial(files0)) && OnceOk(Initial(files0))
  {
    assert Replay(files0, []) == files0;
  }

  /** Over every admitted run of any number of calls, with errors, crashes and
      cancellation at any moment, the invariant holds at the end. */
  lemma {:induction false} RunKeeps(nfkc: Nfkc, r: Rules, files0: map<Path, Bytes>, steps: seq<Step>)
    requires Sound(r) && AdmittedRun(nfkc, r, Initial(files0), steps) && Exec(nfkc, Initial(files0), steps).Some?
    ensures Inv(nfkc, r, files0, Exec(nfkc, Initial(files0), steps).value)
    ensures OnceOk(Exec(nfkc, Initial(files0), steps).value)
    decreases |steps|
  {
    hide Next, Admitted, Inv, OnceOk, Initial, Sound;
    if steps == [] {
      InitialOk(nfkc, r, files0);
    } else {
      RunKeeps(nfkc, r, files0, steps[..|steps| - 1]);
      NextKeeps(nfkc, r, files0, Exec(nfkc, Initial(files0), steps[..|steps| - 1]).value, steps[|steps| - 1]);
    }
  }
}
