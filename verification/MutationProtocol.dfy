/**
 The mutation protocol around `edit` and `write` (fs/mutation_queue.rs,
 fs/atomic_write.rs, tools/edit.rs, tools/write.rs): any number of calls look up
 the per-path lock, wait, read, compute, write a temp file, rename and leave,
 with errors, cancellation and crashes between the steps.
 */
module MutationProtocol {
  import opened Seqs
  import opened Utf8
  import opened Normalizer
  import opened EditRun
  import opened PathResolver

  type Bytes = seq<Byte>
  type CallId = nat
  type LockId = nat

  datatype Op = EditOp(edits: seq<EditEntry>) | WriteOp(content: Bytes)

  /** What a call wants to write, given the file it read: a write does not look. */
  function Effect(nfkc: Nfkc, op: Op, file: Option<Bytes>): Option<Bytes> {
    match op
    case WriteOp(content) => Some(content)
    case EditOp(edits) =>
      var r := Outcome(nfkc, file, edits);
      if r.Ok? then Some(r.value) else None
  }

  // ----- temp names -----

  const TEMP_INFIX: string := ".mcpod-tmp-"

  /** `random_hex(4)`: eight digits or, when there is no random source and a 64-bit
      mix is printed instead, as many more as that number has. */
  predicate IsHex(s: string) {
    && (|s| == 8 || (8 < |s| <= 16 && s[0] != '0'))
    && forall i :: 0 <= i < |s| ==> '0' <= s[i] <= '9' || 'a' <= s[i] <= 'f'
  }

  function TempName(name: string, hex: string): string {
    "." + name + TEMP_INFIX + hex
  }

  predicate HasFileName(path: Path) {
    path != [] && path[|path| - 1].Name?
  }

  /** The hidden temp file next to the target. */
  function TempPath(path: Path, hex: string): Path
    requires HasFileName(path)
  {
    path[..|path| - 1] + [Name(TempName(path[|path| - 1].name, hex))]
  }

  /** `path` is a temp file of some target. */
  ghost predicate Endangered(targets: iset<Path>, path: Path) {
    exists target: Path, hex: string ::
      target in targets && HasFileName(target) && IsHex(hex) && path == TempPath(target, hex)
  }

  /** No target is the temp file of another. */
  ghost predicate Separate(targets: iset<Path>) {
    forall p :: p in targets ==> !Endangered(targets, p)
  }

  /** The random part holds no dash, so the infix can be found from the end:
      whatever its length, a temp name has one target name. */
  lemma TempNameInjective(n1: string, h1: string, n2: string, h2: string)
    requires IsHex(h1) && IsHex(h2) && TempName(n1, h1) == TempName(n2, h2)
    ensures n1 == n2 && h1 == h2
  {
    var s := TempName(n1, h1);
    if |h1| < |h2| {
      HexAtEnd(n2, h2, |s| - |h1| - 1);
      DashInFront(n1, h1);
    } else if |h2| < |h1| {
      HexAtEnd(n1, h1, |s| - |h2| - 1);
      DashInFront(n2, h2);
    }
    assert |h1| == |h2|;
    assert h1 == s[|s| - |h1|..] && h2 == s[|s| - |h2|..];
    assert |n1| == |n2|;
    assert n1 == s[1..1 + |n1|] && n2 == s[1..1 + |n2|];
  }

  lemma DashInFront(n: string, h: string)
    ensures TempName(n, h)[|TempName(n, h)| - |h| - 1] == '-'
  {
    assert TEMP_INFIX[|TEMP_INFIX| - 1] == '-';
  }

  lemma HexAtEnd(n: string, h: string, k: nat)
    requires IsHex(h) && |TempName(n, h)| - |h| <= k < |TempName(n, h)|
    ensures TempName(n, h)[k] != '-'
  {
    assert TempName(n, h)[k] == h[k - (|TempName(n, h)| - |h|)];
  }

  lemma TempPathInjective(p1: Path, h1: string, p2: Path, h2: string)
    requires HasFileName(p1) && HasFileName(p2) && IsHex(h1) && IsHex(h2)
    requires TempPath(p1, h1) == TempPath(p2, h2)
    ensures p1 == p2 && h1 == h2
  {
    var t1, t2 := TempPath(p1, h1), TempPath(p2, h2);
    hide TempName, IsHex;
    assert |p1| == |t1| == |t2| == |p2|;
    assert t1[|t1| - 1] == t2[|t2| - 1];
    TempNameInjective(p1[|p1| - 1].name, h1, p2[|p2| - 1].name, h2);
    assert t1[..|t1| - 1] == p1[..|p1| - 1] && t2[..|t2| - 1] == p2[..|p2| - 1];
    assert p1 == p1[..|p1| - 1] + [p1[|p1| - 1]] && p2 == p2[..|p2| - 1] + [p2[|p2| - 1]];
  }

  /** What the temp file is called, and which paths have one. */
  lemma TempPathMeaning(dir: Path, name: string, hex: string)
    ensures var target := dir + [Name(name)];
            HasFileName(target) && TempPath(target, hex) == dir + [Name("." + name + ".mcpod-tmp-" + hex)]
    ensures !HasFileName([]) && !HasFileName(dir + [Up])
  {
    var target := dir + [Name(name)];
    assert target[..|target| - 1] == dir;
  }

  lemma TempDiffers(path: Path, hex: string)
    requires HasFileName(path)
    ensures TempPath(path, hex) != path
  {
    var name := path[|path| - 1].name;
    assert |TempName(name, hex)| > |name|;
    assert TempPath(path, hex)[|path| - 1] == Name(TempName(name, hex));
  }

  lemma TempsOfOnePath(path: Path, h0: string, h1: string)
    requires HasFileName(path) && IsHex(h0) && IsHex(h1) && h0 != h1
    ensures TempPath(path, h0) != TempPath(path, h1) && TempPath(path, h0) != path && TempPath(path, h1) != path
  {
    TempDiffers(path, h0);
    TempDiffers(path, h1);
    if TempPath(path, h0) == TempPath(path, h1) {
      TempPathInjective(path, h0, path, h1);
    }
  }

  // ----- states -----

  /** Where a call stands. From `Holding` to `Leaving` it owns its path's lock. */
  datatype Phase =
    | Started
    | Waiting(lock: LockId)
    | Holding(lock: LockId)
    | HasRead(lock: LockId, read: Option<Bytes>)
    | Ready(lock: LockId, read: Option<Bytes>, out: Bytes)
    | Writing(lock: LockId, read: Option<Bytes>, out: Bytes, hex: string, written: nat)
    | Synced(lock: LockId, read: Option<Bytes>, out: Bytes, hex: string)
    | Cleaning(lock: LockId, hex: string)
    | Leaving(lock: LockId, committed: bool)
    | Closed(committed: bool)
  {
    predicate InTransaction() {
      !Started? && !Waiting? && !Closed?
    }

    predicate KnowsLock() {
      !Started? && !Closed?
    }

    /** The call's rename took effect. */
    predicate Committed() {
      (Leaving? || Closed?) && committed
    }
  }

  datatype Call = Call(path: Path, op: Op, phase: Phase)

  /** One rename that took effect: what the call had read, what was replaced. */
  datatype Commit = Commit(c: CallId, path: Path, op: Op, read: Option<Bytes>, before: Option<Bytes>, after: Bytes)

  /** A file operation: the temp file is made empty, is written at an offset, replaces
      the target, is removed. */
  datatype Action =
    | Creation
    | Change(at: nat, bytes: Bytes)
    | Replacement(op: Op, read: Option<Bytes>, out: Bytes)
    | Removal

  datatype Kind = Creates | Changes | Replaces | Removes

  function KindOf(a: Action): Kind {
    match a
    case Creation => Creates
    case Change(_, _) => Changes
    case Replacement(_, _, _) => Replaces
    case Removal => Removes
  }

  /** An operation already handed to a blocking thread when its call was dropped. */
  datatype Detached = Detached(c: CallId, path: Path, hex: string, action: Action)

  /** `begun` are the calls of all process lifetimes, `calls` those of this one. */
  datatype State = State(
    files: map<Path, Bytes>,
    locks: map<Path, LockId>,
    nextLock: LockId,
    held: map<LockId, CallId>,
    begun: set<CallId>,
    calls: map<CallId, Call>,
    log: seq<Commit>,
    detached: seq<Detached>)

  function Lookup<K, V>(m: map<K, V>, k: K): Option<V> {
    if k in m then Some(m[k]) else None
  }

  function Initial(files: map<Path, Bytes>): State {
    State(files, map[], 0, map[], {}, map[], [], [])
  }

  // ----- steps -----

  datatype Step =
    | Begin(c: CallId, path: Path, op: Op)
    | FindLock(c: CallId)
    | Acquire(c: CallId)
    | Read(c: CallId, ok: bool)
    | Compute(c: CallId)
    | MakeDirs(c: CallId, ok: bool)
    | CreateTemp(c: CallId, hex: string, ok: bool)
    | WriteTemp(c: CallId, n: nat, ok: bool)
    | SyncTemp(c: CallId, ok: bool)
    | Rename(c: CallId, ok: bool)
    | RemoveTemp(c: CallId, ok: bool)
    | Leave(c: CallId)
    | Cancel(c: CallId)
    | CancelDuringCreate(c: CallId, hex: string)
    | CancelDuringWrite(c: CallId, n: nat)
    | CancelDuringRename(c: CallId)
    | CancelDuringRemove(c: CallId)
    | Land(k: nat, ok: bool)
    | Crash

  function At(s: State, c: CallId, phase: Phase): State
    requires c in s.calls
  {
    s.(calls := s.calls[c := s.calls[c].(phase := phase)])
  }

  /** The entry API of the lock map: find the path's lock or add a new one. */
  function LockFor(locks: map<Path, LockId>, nextLock: LockId, path: Path): (map<Path, LockId>, LockId, LockId) {
    if path in locks then (locks, nextLock, locks[path])
    else (locks[path := nextLock], nextLock + 1, nextLock)
  }

  /** The guard is dropped and the call is over. */
  function Released(s: State, c: CallId): State
    requires c in s.calls
  {
    var phase := s.calls[c].phase;
    var t := At(s, c, Closed(phase.Committed()));
    if phase.InTransaction() then t.(held := s.held - {phase.lock}) else t
  }

  /** The step's state, if the step is possible. */
  function Next(nfkc: Nfkc, s: State, step: Step): Option<State> {
    match step
    case Begin(c, path, op) =>
      if c in s.begun then None
      else Some(s.(begun := s.begun + {c}, calls := s.calls[c := Call(path, op, Started)]))
    case Crash =>
      Some(s.(locks := map[], held := map[], calls := map[], detached := []))
    case Land(k, ok) =>
      if k < |s.detached| then Some(Landed(s, k, ok)) else None
    case _ =>
      if step.c in s.calls then CallStep(nfkc, s, step, s.calls[step.c]) else None
  }

  function Zeros(n: nat): Bytes {
    if n == 0 then [] else [0] + Zeros(n - 1)
  }

  /** A file after `bytes` were written at an offset. */
  function Overlay(file: Bytes, at: nat, bytes: Bytes): Bytes {
    var front := if at <= |file| then file[..at] else file + Zeros(at - |file|);
    front + bytes + if at + |bytes| <= |file| then file[at + |bytes|..] else []
  }

  /** Writing the next bytes behind those written before. */
  lemma OverlayNext(out: Bytes, at: nat, n: nat)
    requires at + n <= |out|
    ensures Overlay(out[..at], at, out[at..at + n]) == out[..at + n]
  {
    assert out[..at][..at] == out[..at];
    assert out[..at] + out[at..at + n] == out[..at + n];
  }

  lemma {:induction false} ZerosMeaning(n: nat)
    ensures |Zeros(n)| == n && forall i :: 0 <= i < n ==> Zeros(n)[i] == 0
  {
    if n > 0 {
      ZerosMeaning(n - 1);
    }
  }

  /** Byte by byte: the new bytes, the old ones around them, zeros in a gap. */
  lemma OverlayMeaning(file: Bytes, at: nat, bytes: Bytes)
    ensures var r := Overlay(file, at, bytes);
            && |r| == (if |file| < at + |bytes| then at + |bytes| else |file|)
            && forall i :: 0 <= i < |r| ==>
                 r[i] == if at <= i < at + |bytes| then bytes[i - at] else if i < |file| then file[i] else 0
  {
    if at > |file| {
      ZerosMeaning(at - |file|);
    }
  }

  /** The files once the bytes have been written to a temp file, if it still has its
      name. */
  function Changed(files: map<Path, Bytes>, tmp: Path, at: nat, bytes: Bytes): map<Path, Bytes> {
    if tmp in files then files[tmp := Overlay(files[tmp], at, bytes)] else files
  }

  /** The call is dropped while a file operation is under way. */
  function Dropped(s: State, c: CallId, hex: string, action: Action): State
    requires c in s.calls
  {
    Released(s, c).(detached := s.detached + [Detached(c, s.calls[c].path, hex, action)])
  }

  /** The steps of a call that has begun. */
  function CallStep(nfkc: Nfkc, s: State, step: Step, call: Call): Option<State>
    requires !step.Begin? && !step.Crash? && !step.Land?
    requires step.c in s.calls && s.calls[step.c] == call
  {
    var phase := call.phase;
    match step
    case FindLock(c) =>
      if !phase.Started? then None
      else
        var (locks, nextLock, lock) := LockFor(s.locks, s.nextLock, call.path);
        Some(At(s, c, Waiting(lock)).(locks := locks, nextLock := nextLock))
    case Acquire(c) =>
      if !phase.Waiting? || phase.lock in s.held then None
      else Some(At(s, c, Holding(phase.lock)).(held := s.held[phase.lock := c]))
    case Read(c, ok) =>
      if !phase.Holding? || !call.op.EditOp? then None
      else if !ok then Some(At(s, c, Leaving(phase.lock, false)))
      else Some(At(s, c, HasRead(phase.lock, Lookup(s.files, call.path))))
    case Compute(c) =>
      if !phase.HasRead? then None
      else
        var out := Effect(nfkc, call.op, phase.read);
        Some(At(s, c, if out.None? then Leaving(phase.lock, false) else Ready(phase.lock, phase.read, out.value)))
    case MakeDirs(c, ok) =>
      if !phase.Holding? || !call.op.WriteOp? then None
      else Some(At(s, c, if ok then Ready(phase.lock, None, call.op.content) else Leaving(phase.lock, false)))
    case CreateTemp(c, hex, ok) =>
      if !phase.Ready? || !IsHex(hex) then None
      else if !HasFileName(call.path) then Some(At(s, c, Leaving(phase.lock, false)))
      else if !ok then Some(At(s, c, Cleaning(phase.lock, hex)))
      else Some(At(s, c, Writing(phase.lock, phase.read, phase.out, hex, 0))
                .(files := s.files[TempPath(call.path, hex) := []]))
    case WriteTemp(c, n, ok) =>
      if !phase.Writing? || !HasFileName(call.path) || phase.written + n > |phase.out| then None
      else
        var files := Changed(s.files, TempPath(call.path, phase.hex), phase.written, phase.out[phase.written..phase.written + n]);
        var next := if ok then phase.(written := phase.written + n) else Cleaning(phase.lock, phase.hex);
        Some(At(s, c, next).(files := files))
    case SyncTemp(c, ok) =>
      if !phase.Writing? || phase.written != |phase.out| then None
      else Some(At(s, c, if ok then Synced(phase.lock, phase.read, phase.out, phase.hex) else Cleaning(phase.lock, phase.hex)))
    case Rename(c, ok) =>
      if !phase.Synced? || !HasFileName(call.path) then None
      else if !ok then Some(At(s, c, Cleaning(phase.lock, phase.hex)))
      else if TempPath(call.path, phase.hex) !in s.files then None
      else Some(Renamed(At(s, c, Leaving(phase.lock, true)), c, call.path, call.op, phase.read, phase.hex))
    case RemoveTemp(c, ok) =>
      if !phase.Cleaning? || !HasFileName(call.path) then None
      else
        var files := if ok then s.files - {TempPath(call.path, phase.hex)} else s.files;
        Some(At(s, c, Leaving(phase.lock, false)).(files := files))
    case Leave(c) => if phase.Leaving? then Some(Released(s, c)) else None
    case Cancel(c) => if phase.Closed? then None else Some(Released(s, c))
    case CancelDuringCreate(c, hex) =>
      if !phase.Ready? || !HasFileName(call.path) || !IsHex(hex) then None else Some(Dropped(s, c, hex, Creation))
    case CancelDuringWrite(c, n) =>
      if !phase.Writing? || phase.written + n > |phase.out| then None
      else Some(Dropped(s, c, phase.hex, Change(phase.written, phase.out[phase.written..phase.written + n])))
    case CancelDuringRename(c) =>
      if !phase.Synced? then None
      else Some(Dropped(s, c, phase.hex, Replacement(call.op, phase.read, phase.out)))
    case CancelDuringRemove(c) =>
      if !phase.Cleaning? then None else Some(Dropped(s, c, phase.hex, Removal))
  }

  /** The rename: the target becomes the temp file, and the commit is logged. */
  function Renamed(s: State, c: CallId, path: Path, op: Op, read: Option<Bytes>, hex: string): State
    requires HasFileName(path) && TempPath(path, hex) in s.files
  {
    var tmp := TempPath(path, hex);
    s.(files := s.files[path := s.files[tmp]] - {tmp},
       log := s.log + [Commit(c, path, op, read, Lookup(s.files, path), s.files[tmp])])
  }

  /** The blocking thread gets to the operation, which may fail. */
  function Landed(s: State, k: nat, ok: bool): State
    requires k < |s.detached|
  {
    var d := s.detached[k];
    var t := s.(detached := s.detached[..k] + s.detached[k + 1..]);
    if !ok || !HasFileName(d.path) then t
    else
      var tmp := TempPath(d.path, d.hex);
      match d.action
      case Creation => t.(files := s.files[tmp := []])
      case Change(at, bytes) => t.(files := Changed(s.files, tmp, at, bytes))
      case Replacement(op, read, _) =>
        if tmp in s.files && d.c in s.calls
        then Renamed(At(t, d.c, Closed(true)), d.c, d.path, op, read, d.hex) else t
      case Removal => t.(files := s.files - {tmp})
  }

  /** A whole run, if each of its steps is possible. */
  function Exec(nfkc: Nfkc, s: State, steps: seq<Step>): Option<State>
    decreases |steps|
  {
    if steps == [] then Some(s)
    else
      var before := Exec(nfkc, s, steps[..|steps| - 1]);
      if before.None? then None else Next(nfkc, before.value, steps[|steps| - 1])
  }

  // ----- runs -----

  /** The files a run may be asked to write, and the kinds of operations of dropped
      calls over which another call may take the lock of their path. */
  datatype Rules = Rules(targets: iset<Path>, overlap: set<Kind>)

  ghost predicate Admitted(r: Rules, s: State, step: Step) {
    && (step.Begin? ==> step.path in r.targets)
    && (step.Acquire? && step.c in s.calls ==>
          forall d :: d in s.detached && d.path == s.calls[step.c].path ==> KindOf(d.action) in r.overlap)
  }

  /** Every step is admitted in the state that it finds. */
  ghost predicate AdmittedRun(nfkc: Nfkc, r: Rules, s: State, steps: seq<Step>)
    decreases |steps|
  {
    steps == [] ||
    var before := Exec(nfkc, s, steps[..|steps| - 1]);
    && AdmittedRun(nfkc, r, s, steps[..|steps| - 1])
    && before.Some? && Admitted(r, before.value, steps[|steps| - 1])
  }

  /** The files once the logged commits are applied in order. */
  function Replay(files: map<Path, Bytes>, log: seq<Commit>): map<Path, Bytes> {
    if log == [] then files
    else Replay(files, log[..|log| - 1])[log[|log| - 1].path := log[|log| - 1].after]
  }

  /** A commit replaced exactly what the log left there and, if it is an edit's,
      what the edit had read; it wrote the complete result of one call. */
  ghost predicate CommitOk(nfkc: Nfkc, files: map<Path, Bytes>, log: seq<Commit>, i: nat)
    requires i < |log|
  {
    var e := log[i];
    && e.before == Lookup(Replay(files, log[..i]), e.path)
    && (e.op.EditOp? ==> e.read == e.before)
    && Effect(nfkc, e.op, e.read) == Some(e.after)
  }

  ghost predicate LogOk(nfkc: Nfkc, files0: map<Path, Bytes>, log: seq<Commit>) {
    forall i :: 0 <= i < |log| ==> CommitOk(nfkc, files0, log, i)
  }

  /** Different paths have different locks. */
  ghost predicate LockMapOk(locks: map<Path, LockId>, nextLock: LockId) {
    && (forall p :: p in locks ==> locks[p] < nextLock)
    && (forall p, q :: p in locks && q in locks && locks[p] == locks[q] ==> p == q)
  }
}
