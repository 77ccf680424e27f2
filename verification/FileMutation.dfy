/** The lock map and the atomic write as the program runs them (fs/mutation_queue.rs,
    fs/atomic_write.rs). */
module FileMutation {
  import opened Seqs
  import opened Normalizer
  import opened PathResolver
  import opened MutationProtocol

  /** `MutationQueue`: one lock per canonical path, never removed. */
  class MutationQueue {
    var locks: map<Path, LockId>
    var nextLock: LockId

    ghost predicate Valid()
      reads this
    {
      LockMapOk(locks, nextLock)
    }

    constructor ()
      ensures Valid() && locks == map[]
    {
      locks, nextLock := map[], 0;
    }

    /** The lookup in `lock`, before the wait: the protocol's `FindLock` step. */
    method LockOf(path: Path) returns (lock: LockId)
      requires Valid()
      modifies this
      ensures Valid()
      ensures (locks, nextLock, lock) == LockFor(old(locks), old(nextLock), path)
      ensures path in locks && locks[path] == lock
      ensures forall p :: p in old(locks) ==> p in locks && locks[p] == old(locks)[p]
      ensures forall p :: p in locks && p != path ==> locks[p] != lock
    {
      if path !in locks {
        locks := locks[path := nextLock];
        nextLock := nextLock + 1;
      }
      lock := locks[path];
    }
  }

  /** Where an atomic write meets an error, if it does, and whether removing the
      temp file afterwards works. */
  datatype Fault =
    | NoFault
    | CreateFails(removed: bool)
    | WriteFails(written: nat, removed: bool)
    | SyncFails(removed: bool)
    | RenameFails(removed: bool)

  /** What an atomic write leaves: whether it succeeded, and the files. */
  function Written(files: map<Path, Bytes>, path: Path, bytes: Bytes, hex: string, fault: Fault): (bool, map<Path, Bytes>) {
    if !HasFileName(path) then (false, files)
    else
      var tmp := TempPath(path, hex);
      match fault
      case NoFault => (true, files[path := bytes] - {tmp})
      case CreateFails(removed) => (false, if removed then files - {tmp} else files)
      case WriteFails(written, removed) =>
        (false, if removed then files - {tmp}
                else files[tmp := if written <= |bytes| then bytes[..written] else bytes])
      case SyncFails(removed) => (false, if removed then files - {tmp} else files[tmp := bytes])
      case RenameFails(removed) => (false, if removed then files - {tmp} else files[tmp := bytes])
  }

  class Disk {
    var files: map<Path, Bytes>

    constructor (files: map<Path, Bytes>)
      ensures this.files == files
    {
      this.files := files;
    }

    /** `write_atomic`: on success the target holds all the bytes; on any error it
        is what it was. Nothing but the target and the temp file is ever touched,
        and the temp file is gone unless removing it failed too. */
    method WriteAtomic(path: Path, bytes: Bytes, hex: string, fault: Fault) returns (ok: bool)
      requires IsHex(hex)
      modifies this
      ensures ok <==> HasFileName(path) && fault.NoFault?
      ensures ok ==> files == old(files)[path := bytes] - {TempPath(path, hex)}
      ensures !ok && HasFileName(path) ==> files - {TempPath(path, hex)} == old(files) - {TempPath(path, hex)}
      ensures !ok && HasFileName(path) && fault.removed ==> TempPath(path, hex) !in files
      ensures !HasFileName(path) ==> files == old(files)
      ensures (ok, files) == Written(old(files), path, bytes, hex, fault)
    {
      if !HasFileName(path) {
        return false;
      }
      var tmp := TempPath(path, hex);
      TempDiffers(path, hex);
      ok := WriteInner(path, tmp, bytes, fault);
      if !ok && fault.removed {
        files := files - {tmp};
      }
    }

    /** `write_inner`: create, write, sync, rename; the first error ends it. */
    method WriteInner(path: Path, tmp: Path, bytes: Bytes, fault: Fault) returns (ok: bool)
      requires tmp != path
      modifies this
      ensures ok <==> fault.NoFault?
      ensures ok ==> files == old(files)[path := bytes] - {tmp}
      ensures !ok ==> files - {tmp} == old(files) - {tmp}
      ensures fault.CreateFails? ==> files == old(files)
      ensures fault.WriteFails? ==> files == old(files)[tmp := if fault.written <= |bytes| then bytes[..fault.written] else bytes]
      ensures fault.SyncFails? || fault.RenameFails? ==> files == old(files)[tmp := bytes]
    {
      if fault.CreateFails? {
        return false;
      }
      files := files[tmp := []];
      if fault.WriteFails? {
        files := files[tmp := if fault.written <= |bytes| then bytes[..fault.written] else bytes];
        return false;
      }
      files := files[tmp := bytes];
      if fault.SyncFails? || fault.RenameFails? {
        return false;
      }
      files := files[path := files[tmp]] - {tmp};
      return true;
    }
  }

  // ----- the atomic write as steps of the protocol -----

  /** From the sync of the whole temp file on. */
  function SyncSteps(c: CallId, fault: Fault): seq<Step> {
    match fault
    case SyncFails(removed) => [SyncTemp(c, false), RemoveTemp(c, removed)]
    case RenameFails(removed) => [SyncTemp(c, true), Rename(c, false), RemoveTemp(c, removed)]
    case _ => [SyncTemp(c, true), Rename(c, true)]
  }

  /** The steps in which call `c` does the atomic write, once it is ready. */
  function WriteSteps(c: CallId, path: Path, out: Bytes, hex: string, fault: Fault): seq<Step> {
    if !HasFileName(path) then [CreateTemp(c, hex, true)]
    else match fault
      case CreateFails(removed) => [CreateTemp(c, hex, false), RemoveTemp(c, removed)]
      case WriteFails(written, removed) =>
        [CreateTemp(c, hex, true)] +
        [WriteTemp(c, if written <= |out| then written else |out|, false), RemoveTemp(c, removed)]
      case _ => [CreateTemp(c, hex, true)] + ([WriteTemp(c, |out|, true)] + SyncSteps(c, fault))
  }

  lemma {:induction false} Prepend(nfkc: Nfkc, s: State, step: Step, t: State, rest: seq<Step>)
    requires Next(nfkc, s, step) == Some(t)
    ensures Exec(nfkc, s, [step] + rest) == Exec(nfkc, t, rest)
    decreases |rest|
  {
    hide Next;
    var steps := [step] + rest;
    if rest == [] {
      assert steps[..0] == [];
    } else {
      assert steps[..|steps| - 1] == [step] + rest[..|rest| - 1];
      Prepend(nfkc, s, step, t, rest[..|rest| - 1]);
    }
  }

  lemma Two(nfkc: Nfkc, s: State, a: Step, t: State, b: Step, u: State)
    requires Next(nfkc, s, a) == Some(t) && Next(nfkc, t, b) == Some(u)
    ensures Exec(nfkc, s, [a, b]) == Some(u)
  {
    hide Next;
    assert [b][..0] == [];
    assert Exec(nfkc, t, [b]) == Some(u);
    Prepend(nfkc, s, a, t, [b]);
    assert [a] + [b] == [a, b];
  }

  /** The call behind its atomic write. */
  function WrittenState(s: State, c: CallId, hex: string, fault: Fault): State
    requires c in s.calls && s.calls[c].phase.Ready?
  {
    var call := s.calls[c];
    var (ok, files) := Written(s.files, call.path, call.phase.out, hex, fault);
    At(s, c, Leaving(call.phase.lock, ok)).(
      files := files,
      log := if ok then s.log + [Commit(c, call.path, call.op, call.phase.read, Lookup(s.files, call.path), call.phase.out)] else s.log)
  }

  /** The call in a later phase, over other files. */
  function On(s: State, c: CallId, phase: Phase, files: map<Path, Bytes>): State
    requires c in s.calls
  {
    At(s, c, phase).(files := files)
  }

  lemma Create(nfkc: Nfkc, s: State, c: CallId, hex: string, ok: bool)
    requires c in s.calls && s.calls[c].phase.Ready? && HasFileName(s.calls[c].path) && IsHex(hex)
    ensures var phase := s.calls[c].phase;
            Next(nfkc, s, CreateTemp(c, hex, ok)) ==
            Some(if ok then On(s, c, Writing(phase.lock, phase.read, phase.out, hex, 0), s.files[TempPath(s.calls[c].path, hex) := []])
                 else On(s, c, Cleaning(phase.lock, hex), s.files))
  {
    hide TempPath, IsHex, HasFileName;
  }

  lemma Write(nfkc: Nfkc, s: State, c: CallId, phase: Phase, n: nat, ok: bool)
    requires c in s.calls && HasFileName(s.calls[c].path) && phase.Writing? && phase.written == 0 && n <= |phase.out|
    ensures var tmp := TempPath(s.calls[c].path, phase.hex);
            Next(nfkc, On(s, c, phase, s.files[tmp := []]), WriteTemp(c, n, ok)) ==
            Some(On(s, c, if ok then phase.(written := n) else Cleaning(phase.lock, phase.hex), s.files[tmp := phase.out[..n]]))
  {
    hide TempPath, HasFileName;
    var tmp := TempPath(s.calls[c].path, phase.hex);
    assert s.files[tmp := []][tmp := phase.out[..n]] == s.files[tmp := phase.out[..n]];
    assert phase.out[..0] == [] && phase.out[0..n] == phase.out[..n];
    OverlayNext(phase.out, 0, n);
    hide Overlay;
    AtAgain(s, c, phase, if ok then phase.(written := n) else Cleaning(phase.lock, phase.hex));
  }

  lemma AtAgain(s: State, c: CallId, p: Phase, q: Phase)
    requires c in s.calls
    ensures At(At(s, c, p), c, q) == At(s, c, q)
  {
    assert s.calls[c := s.calls[c].(phase := p)][c := s.calls[c].(phase := q)] == s.calls[c := s.calls[c].(phase := q)];
  }

  lemma Sync(nfkc: Nfkc, s: State, c: CallId, phase: Phase, files: map<Path, Bytes>, ok: bool)
    requires c in s.calls && phase.Writing? && phase.written == |phase.out|
    ensures Next(nfkc, On(s, c, phase, files), SyncTemp(c, ok)) ==
            Some(On(s, c, if ok then Synced(phase.lock, phase.read, phase.out, phase.hex) else Cleaning(phase.lock, phase.hex), files))
  {
    AtAgain(s, c, phase, if ok then Synced(phase.lock, phase.read, phase.out, phase.hex) else Cleaning(phase.lock, phase.hex));
  }

  lemma Replace(nfkc: Nfkc, s: State, c: CallId, phase: Phase, ok: bool)
    requires c in s.calls && HasFileName(s.calls[c].path) && phase.Synced?
    ensures var call := s.calls[c];
            var tmp := TempPath(call.path, phase.hex);
            Next(nfkc, On(s, c, phase, s.files[tmp := phase.out]), Rename(c, ok)) ==
            Some(if ok then On(s, c, Leaving(phase.lock, true), s.files[call.path := phase.out] - {tmp}).(
                              log := s.log + [Commit(c, call.path, call.op, phase.read, Lookup(s.files, call.path), phase.out)])
                 else On(s, c, Cleaning(phase.lock, phase.hex), s.files[tmp := phase.out]))
  {
    hide TempPath, HasFileName;
    var call := s.calls[c];
    var tmp := TempPath(call.path, phase.hex);
    TempDiffers(call.path, phase.hex);
    AtAgain(s, c, phase, if ok then Leaving(phase.lock, true) else Cleaning(phase.lock, phase.hex));
    assert s.files[tmp := phase.out][call.path := phase.out] - {tmp} == s.files[call.path := phase.out] - {tmp};
  }

  lemma Clean(nfkc: Nfkc, s: State, c: CallId, phase: Phase, files: map<Path, Bytes>, removed: bool)
    requires c in s.calls && HasFileName(s.calls[c].path) && phase.Cleaning?
    ensures Next(nfkc, On(s, c, phase, files), RemoveTemp(c, removed)) ==
            Some(On(s, c, Leaving(phase.lock, false), if removed then files - {TempPath(s.calls[c].path, phase.hex)} else files))
  {
    hide TempPath, HasFileName;
    AtAgain(s, c, phase, Leaving(phase.lock, false));
  }

  /** The atomic write, whatever fault it meets, is a run of the protocol: the same
      files, the same outcome, and a commit exactly when it succeeds. */
  lemma WriteAtomicIsARun(nfkc: Nfkc, s: State, c: CallId, hex: string, fault: Fault)
    requires c in s.calls && s.calls[c].phase.Ready? && IsHex(hex)
    ensures Exec(nfkc, s, WriteSteps(c, s.calls[c].path, s.calls[c].phase.out, hex, fault)) ==
            Some(WrittenState(s, c, hex, fault))
  {
    if HasFileName(s.calls[c].path) {
      hide *;
      NamedWrite(nfkc, s, c, hex, fault);
    } else {
      hide IsHex, TempPath, Exec, HasFileName, Effect;
      OneStep(nfkc, s, CreateTemp(c, hex, true));
    }
  }

  lemma OneStep(nfkc: Nfkc, s: State, step: Step)
    requires Next(nfkc, s, step).Some?
    ensures Exec(nfkc, s, [step]) == Next(nfkc, s, step)
  {
    hide Next;
    assert [step][..0] == [];
  }

  lemma NamedWrite(nfkc: Nfkc, s: State, c: CallId, hex: string, fault: Fault)
    requires c in s.calls && s.calls[c].phase.Ready? && IsHex(hex) && HasFileName(s.calls[c].path)
    ensures Exec(nfkc, s, WriteSteps(c, s.calls[c].path, s.calls[c].phase.out, hex, fault)) ==
            Some(WrittenState(s, c, hex, fault))
  {
    hide IsHex, TempPath, Exec, HasFileName, Effect, Next;
    var call := s.calls[c];
    var phase, out := call.phase, call.phase.out;
    var tmp := TempPath(call.path, hex);
    var end := WrittenState(s, c, hex, fault);
    var create := CreateTemp(c, hex, !fault.CreateFails?);
    Create(nfkc, s, c, hex, !fault.CreateFails?);
    if fault.CreateFails? {
      var cleaning := Cleaning(phase.lock, hex);
      Clean(nfkc, s, c, cleaning, s.files, fault.removed);
      Two(nfkc, s, create, On(s, c, cleaning, s.files), RemoveTemp(c, fault.removed), end);
    } else {
      var writing := Writing(phase.lock, phase.read, out, hex, 0);
      var t := On(s, c, writing, s.files[tmp := []]);
      if fault.WriteFails? {
        var n := if fault.written <= |out| then fault.written else |out|;
        var cleaning := Cleaning(phase.lock, hex);
        var files := s.files[tmp := out[..n]];
        Write(nfkc, s, c, writing, n, false);
        Clean(nfkc, s, c, cleaning, files, fault.removed);
        assert files - {tmp} == s.files - {tmp};
        assert n == |out| ==> out[..n] == out;
        Two(nfkc, t, WriteTemp(c, n, false), On(s, c, cleaning, files), RemoveTemp(c, fault.removed), end);
        Prepend(nfkc, s, create, t, [WriteTemp(c, n, false), RemoveTemp(c, fault.removed)]);
      } else {
        var written := writing.(written := |out|);
        var u := On(s, c, written, s.files[tmp := out]);
        Write(nfkc, s, c, writing, |out|, true);
        assert out[..|out|] == out;
        var rest := SyncSteps(c, fault);
        FromSync(nfkc, s, c, written, fault);
        Prepend(nfkc, t, WriteTemp(c, |out|, true), u, rest);
        Prepend(nfkc, s, create, t, [WriteTemp(c, |out|, true)] + rest);
      }
    }
  }

  /** From the whole temp file on. */
  lemma FromSync(nfkc: Nfkc, s: State, c: CallId, written: Phase, fault: Fault)
    requires c in s.calls && s.calls[c].phase.Ready? && HasFileName(s.calls[c].path)
    requires fault.NoFault? || fault.SyncFails? || fault.RenameFails?
    requires var phase := s.calls[c].phase;
             written.Writing? && written == Writing(phase.lock, phase.read, phase.out, written.hex, |phase.out|)
    ensures Exec(nfkc, On(s, c, written, s.files[TempPath(s.calls[c].path, written.hex) := written.out]), SyncSteps(c, fault)) ==
            Some(WrittenState(s, c, written.hex, fault))
  {
    hide TempPath, Exec, HasFileName, Effect, Next;
    var hex, lock := written.hex, written.lock;
    var tmp := TempPath(s.calls[c].path, hex);
    var files := s.files[tmp := written.out];
    var u := On(s, c, written, files);
    var end := WrittenState(s, c, hex, fault);
    var cleaning := Cleaning(lock, hex);
    var synced := Synced(lock, written.read, written.out, hex);
    assert files - {tmp} == s.files - {tmp};
    Sync(nfkc, s, c, written, files, !fault.SyncFails?);
    match fault
    case NoFault =>
      Replace(nfkc, s, c, synced, true);
      Two(nfkc, u, SyncTemp(c, true), On(s, c, synced, files), Rename(c, true), end);
    case SyncFails(removed) =>
      Clean(nfkc, s, c, cleaning, files, removed);
      Two(nfkc, u, SyncTemp(c, false), On(s, c, cleaning, files), RemoveTemp(c, removed), end);
    case RenameFails(removed) =>
      Replace(nfkc, s, c, synced, false);
      Clean(nfkc, s, c, cleaning, files, removed);
      Two(nfkc, On(s, c, synced, files), Rename(c, false), On(s, c, cleaning, files), RemoveTemp(c, removed), end);
      Prepend(nfkc, u, SyncTemp(c, true), On(s, c, synced, files), [Rename(c, false), RemoveTemp(c, removed)]);
      assert SyncSteps(c, fault) == [SyncTemp(c, true)] + [Rename(c, false), RemoveTemp(c, removed)];
  }
}
