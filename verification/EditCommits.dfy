/** What edits and writes leave in the files, over runs of the mutation protocol. */
module EditCommits {
  import opened Seqs
  import opened Utf8
  import opened Normalizer
  import opened EditRun
  import opened EditMeaning
  import opened PathResolver
  import opened MutationProtocol
  import opened ProtocolInvariant
  import opened ProtocolTheorems
  import opened ProtocolRuns

  lemma EffectOfEdit(nfkc: Nfkc, edits: seq<EditEntry>, file: Option<Bytes>)
    ensures Effect(nfkc, EditOp(edits), file).Some? <==> Outcome(nfkc, file, edits).Ok?
    ensures Outcome(nfkc, file, edits).Ok? ==> Effect(nfkc, EditOp(edits), file) == Some(Outcome(nfkc, file, edits).value)
  {
    hide Outcome;
  }

  /** Every committed edit has put the simultaneous substitution of all its entries in
      the place of the text it replaced. */
  lemma EditCommitMeaning(nfkc: Nfkc, r: Rules, files0: map<Path, Bytes>, s: State, i: nat) returns (text: string, result: string)
    requires Sound(r) && Reachable(nfkc, r, files0, s) && i < |s.log| && s.log[i].op.EditOp?
    ensures s.log[i].before == Some(Encode(text)) && s.log[i].read == Some(Encode(text))
    ensures s.log[i].after == Encode(result)
    ensures EditsInto(nfkc, text, s.log[i].op.edits, result) && !LooksBinary(Encode(text))
  {
    hide Effect, Reachable, Sound, Encode, EditsInto, Outcome, Replay, LooksBinary;
    NoLostUpdate(nfkc, r, files0, s);
    var e := s.log[i];
    assert CommitOk(nfkc, files0, s.log, i);
    EffectOfEdit(nfkc, e.op.edits, e.read);
    text, result := EditedIsText(nfkc, e.read, e.op.edits);
    OutcomeMeaning(nfkc, text, e.op.edits, result);
  }

  /** Every committed write has put its content there. */
  lemma WriteCommitMeaning(nfkc: Nfkc, r: Rules, files0: map<Path, Bytes>, s: State, i: nat)
    requires Sound(r) && Reachable(nfkc, r, files0, s) && i < |s.log| && s.log[i].op.WriteOp?
    ensures s.log[i].after == s.log[i].op.content
  {
    hide Reachable, Sound, Replay, Outcome;
    NoLostUpdate(nfkc, r, files0, s);
    assert CommitOk(nfkc, files0, s.log, i);
  }

  /** Nobody in the way, an edit of a text puts its result there, and changes nothing
      else. */
  lemma UndisturbedEdit(nfkc: Nfkc, r: Rules, s: State, c: CallId, path: Path, edits: seq<EditEntry>, text: string, result: string, hex: string)
    returns (t: State)
    requires CanBegin(r, s, c, path) && HasFileName(path) && IsHex(hex)
    requires Lookup(s.files, path) == Some(Encode(text)) && !LooksBinary(Encode(text))
    requires EditsInto(nfkc, text, edits, result)
    ensures Goes(nfkc, r, s, t) && t.calls == s.calls[c := Call(path, EditOp(edits), Closed(true))]
    ensures t.files == s.files[path := Encode(result)] - {TempPath(path, hex)}
  {
    hide Effect, Encode, EditsInto, Outcome, LooksBinary, Goes, CanBegin, HasFileName, IsHex, TempPath;
    OutcomeMeaning(nfkc, text, edits, result);
    EffectOfEdit(nfkc, edits, Lookup(s.files, path));
    t := UndisturbedCallCommits(nfkc, r, s, c, path, EditOp(edits), Encode(result), hex);
  }

  /** Nobody in the way, a write puts its content there, and changes nothing else. */
  lemma UndisturbedWrite(nfkc: Nfkc, r: Rules, s: State, c: CallId, path: Path, content: Bytes, hex: string) returns (t: State)
    requires CanBegin(r, s, c, path) && HasFileName(path) && IsHex(hex)
    ensures Goes(nfkc, r, s, t) && t.calls == s.calls[c := Call(path, WriteOp(content), Closed(true))]
    ensures t.files == s.files[path := content] - {TempPath(path, hex)}
  {
    hide Effect, Goes, CanBegin, HasFileName, IsHex, TempPath;
    WriteEffect(nfkc, WriteOp(content));
    t := UndisturbedCallCommits(nfkc, r, s, c, path, WriteOp(content), content, hex);
  }
}
