/** Replacing the agent's attachment of a 1C document: list, upload, then delete the old ones
    (scripts/fix_003900_reattach.py, scripts/attach_letter_to_1c.py). A run may be cut short after any
    call, and other users may attach files of their own in between. */
module Reattach {
  import opened Text
  import opened Seqs

  /** A row of the attachment list: Ref_Key and Description. */
  datatype Item = Item(ref: string, description: string)

  /** The attachments of one document: descriptions by reference. */
  type Remote = map<string, string>

  predicate IsAgentName(doc: string, description: string) {
    Strip(description) == doc
  }

  function RefIfAgent(doc: string, item: Item): seq<string> {
    if Strip(item.ref) != "" && IsAgentName(doc, item.description) then [Strip(item.ref)] else []
  }

  function AgentRefs(doc: string, existing: seq<Item>): seq<string> {
    Collect([], existing, item => RefIfAgent(doc, item))
  }

  /** References of the listed files whose stripped description is the document's number. */
  ghost predicate AreAgentRefs(doc: string, existing: seq<Item>, refs: seq<string>) {
    forall x :: x in refs <==>
      x != "" && exists i :: 0 <= i < |existing| && Strip(existing[i].description) == doc && Strip(existing[i].ref) == x
  }

  lemma AgentRefsMeaning(doc: string, existing: seq<Item>)
    ensures AreAgentRefs(doc, existing, AgentRefs(doc, existing))
  {
    CollectMembers(existing, item => RefIfAgent(doc, item), |existing|);
  }

  /** `agent_attachment_refs`: only the agent's own attachments, known by the document number. */
  method AgentAttachmentRefs(doc: string, existing: seq<Item>) returns (refs: seq<string>)
    ensures refs == AgentRefs(doc, existing) && AreAgentRefs(doc, existing, refs)
  {
    AgentRefsMeaning(doc, existing);
    refs := [];
    for i := 0 to |existing|
      invariant refs == CollectFrom([], existing, item => RefIfAgent(doc, item), i)
    {
      var ref := Strip(existing[i].ref);
      var description := Strip(existing[i].description);
      if ref != "" && description == doc { refs := refs + [ref]; }
    }
  }

  /** References are GUIDs: neither blank nor padded. */
  ghost predicate ProperRefs(remote: Remote) {
    forall r :: r in remote ==> r != "" && Trimmed(r)
  }

  /** A complete listing of the document's attachments, in any order. */
  ghost predicate Lists(existing: seq<Item>, remote: Remote) {
    && (forall i :: 0 <= i < |existing| ==>
          existing[i].ref in remote && remote[existing[i].ref] == existing[i].description)
    && (forall r :: r in remote ==> exists i :: 0 <= i < |existing| && existing[i].ref == r)
  }

  // ---------------------------------------------------------------- the protocol

  datatype Phase = Start | Listed(existing: seq<Item>) | Deleting(uploaded: string, pending: seq<string>)

  datatype State = State(remote: Remote, phase: Phase)

  ghost predicate ListStep(s: State, s': State) {
    s.phase.Start? && s'.phase.Listed? && Lists(s'.phase.existing, s.remote) && s'.remote == s.remote
  }

  function WithoutRef(refs: seq<string>, ref: string): seq<string> {
    Filter(refs, r => r != ref)
  }

  /** The upload creates an attachment under a fresh reference, named after the document. */
  ghost predicate AttachStep(doc: string, s: State, s': State) {
    && s.phase.Listed? && s'.phase.Deleting?
    && s'.phase.uploaded !in s.remote && s'.phase.uploaded != "" && Trimmed(s'.phase.uploaded)
    && s'.remote == s.remote[s'.phase.uploaded := doc]
    && s'.phase.pending == WithoutRef(AgentRefs(doc, s.phase.existing), s'.phase.uploaded)
  }

  ghost predicate DeleteStep(s: State, s': State) {
    && s.phase.Deleting? && s.phase.pending != []
    && s'.remote == s.remote - {s.phase.pending[0]}
    && s'.phase == Deleting(s.phase.uploaded, s.phase.pending[1..])
  }

  /** Someone else attaches a file that does not carry the agent's name. */
  ghost predicate OtherStep(doc: string, s: State, s': State) {
    && s'.phase == s.phase
    && exists r, d :: r !in s.remote && r != "" && Trimmed(r) && !IsAgentName(doc, d) && !IsPending(s, r)
         && s'.remote == s.remote[r := d]
  }

  /** References are never used twice: a new file does not get one that is about to be deleted. */
  ghost predicate IsPending(s: State, r: string) {
    s.phase.Deleting? && (r == s.phase.uploaded || r in s.phase.pending)
  }

  ghost predicate Next(doc: string, s: State, s': State) {
    ListStep(s, s') || AttachStep(doc, s, s') || DeleteStep(s, s') || OtherStep(doc, s, s')
  }

  /** A run from the document as it was, cut short or not. */
  ghost predicate IsRun(doc: string, before: Remote, run: seq<State>) {
    && run != [] && run[0] == State(before, Start) && ProperRefs(before) && Strip(doc) == doc
    && forall i :: 0 <= i < |run| - 1 ==> Next(doc, run[i], run[i + 1])
  }

  lemma RunGoesOn(doc: string, before: Remote, run: seq<State>, s': State)
    requires IsRun(doc, before, run) && Next(doc, run[|run| - 1], s')
    ensures IsRun(doc, before, run + [s'])
  {
    var longer := run + [s'];
    forall i | 0 <= i < |longer| - 1 ensures Next(doc, longer[i], longer[i + 1]) {
      if i < |run| - 1 { assert longer[i] == run[i] && longer[i + 1] == run[i + 1]; }
    }
  }

  // ---------------------------------------------------------------- what every step keeps

  /** Agent-named references of the document. */
  ghost function Agents(doc: string, remote: Remote): set<string> {
    set r | r in remote && IsAgentName(doc, remote[r])
  }

  ghost predicate Inv(doc: string, before: Remote, s: State) {
    && ProperRefs(s.remote)
    // every file that is not the agent's is still there under its name
    && (forall r :: r in before && !IsAgentName(doc, before[r]) ==> r in s.remote && s.remote[r] == before[r])
    && match s.phase
       case Start => Agents(doc, s.remote) == Agents(doc, before)
       case Listed(existing) =>
         && Agents(doc, s.remote) == Agents(doc, before)
         && (forall x :: x in AgentRefs(doc, existing) <==> x in Agents(doc, before))
       case Deleting(uploaded, pending) =>
         && uploaded in Agents(doc, s.remote) && uploaded !in pending
         && (forall x :: x in Agents(doc, s.remote) ==> x == uploaded || x in pending)
         && (forall x :: x in pending ==> x in Agents(doc, before))
  }

  lemma AgentRefsOfListing(doc: string, existing: seq<Item>, remote: Remote)
    requires Lists(existing, remote) && ProperRefs(remote)
    ensures forall x :: x in AgentRefs(doc, existing) <==> x in Agents(doc, remote)
  {
    CollectMembers(existing, item => RefIfAgent(doc, item), |existing|);
    forall i | 0 <= i < |existing| ensures Strip(existing[i].ref) == existing[i].ref {
      assert existing[i].ref in remote;
    }
    forall x | x in Agents(doc, remote) ensures x in AgentRefs(doc, existing) {
      var i :| 0 <= i < |existing| && existing[i].ref == x;
      assert x in RefIfAgent(doc, existing[i]);
    }
  }

  lemma {:induction false} WithoutRefMembers(refs: seq<string>, ref: string, x: string, n: nat)
    requires n <= |refs|
    ensures x in FilterTo(refs, r => r != ref, n) <==> x in refs[..n] && x != ref
  {
    if n > 0 {
      WithoutRefMembers(refs, ref, x, n - 1);
      assert refs[..n] == refs[..n - 1] + [refs[n - 1]];
    }
  }

  lemma WithoutRefMeaning(refs: seq<string>, ref: string)
    ensures forall x :: x in WithoutRef(refs, ref) <==> x in refs && x != ref
  {
    forall x ensures x in WithoutRef(refs, ref) <==> x in refs && x != ref {
      WithoutRefMembers(refs, ref, x, |refs|);
      assert refs[..|refs|] == refs;
    }
  }

  lemma InvHoldsInitially(doc: string, before: Remote)
    requires ProperRefs(before)
    ensures Inv(doc, before, State(before, Start))
  {
  }

  lemma AttachKeepsInv(doc: string, before: Remote, s: State, s': State)
    requires Strip(doc) == doc && Inv(doc, before, s) && AttachStep(doc, s, s')
    ensures Inv(doc, before, s')
  {
    WithoutRefMeaning(AgentRefs(doc, s.phase.existing), s'.phase.uploaded);
  }

  lemma DeleteKeepsInv(doc: string, before: Remote, s: State, s': State)
    requires Inv(doc, before, s) && DeleteStep(s, s')
    ensures Inv(doc, before, s')
  {
    var pending, rest := s.phase.pending, s'.phase.pending;
    assert pending == [pending[0]] + rest;
    forall x | x in Agents(doc, s'.remote) ensures x == s.phase.uploaded || x in rest {
      assert x in Agents(doc, s.remote);
    }
    forall r | r in before && !IsAgentName(doc, before[r]) ensures r in s'.remote && s'.remote[r] == before[r] {
      assert pending[0] in Agents(doc, before);
    }
  }

  lemma OtherKeepsInv(doc: string, before: Remote, s: State, s': State)
    requires Inv(doc, before, s) && OtherStep(doc, s, s')
    ensures Inv(doc, before, s')
  {
    assert Agents(doc, s'.remote) == Agents(doc, s.remote);
  }

  lemma StepKeepsInv(doc: string, before: Remote, s: State, s': State)
    requires Strip(doc) == doc && Inv(doc, before, s) && Next(doc, s, s')
    ensures Inv(doc, before, s')
  {
    if ListStep(s, s') {
      AgentRefsOfListing(doc, s'.phase.existing, s.remote);
    } else if AttachStep(doc, s, s') {
      AttachKeepsInv(doc, before, s, s');
    } else if DeleteStep(s, s') {
      DeleteKeepsInv(doc, before, s, s');
    } else {
      OtherKeepsInv(doc, before, s, s');
    }
  }

  lemma {:induction false} InvAlongRun(doc: string, before: Remote, run: seq<State>, k: nat)
    requires IsRun(doc, before, run) && k < |run|
    ensures Inv(doc, before, run[k])
  {
    if k == 0 {
      InvHoldsInitially(doc, before);
    } else {
      InvAlongRun(doc, before, run, k - 1);
      assert Next(doc, run[k - 1], run[k]);
      StepKeepsInv(doc, before, run[k - 1], run[k]);
    }
  }

  /** Wherever a run stops: every file that is not the agent's is untouched, and the document still
      has an agent's attachment if it had one. */
  lemma NeverWithout(doc: string, before: Remote, run: seq<State>, k: nat)
    requires IsRun(doc, before, run) && k < |run|
    ensures forall r :: r in before && Strip(before[r]) != doc ==> r in run[k].remote && run[k].remote[r] == before[r]
    ensures (exists r :: r in before && Strip(before[r]) == doc) ==>
      exists r :: r in run[k].remote && Strip(run[k].remote[r]) == doc
    ensures run[k].phase.Deleting? || Agents(doc, run[k].remote) == Agents(doc, before)
  {
    InvAlongRun(doc, before, run, k);
    if r :| r in before && Strip(before[r]) == doc { assert r in Agents(doc, before); }
    if x :| x in Agents(doc, run[k].remote) { assert Strip(run[k].remote[x]) == doc; }
  }

  /** A deletion removes only an attachment that was the agent's when the run began, and only once the
      new one is in place. */
  lemma DeletesOnlyReplaced(doc: string, before: Remote, run: seq<State>, k: nat)
    requires IsRun(doc, before, run) && k + 1 < |run| && DeleteStep(run[k], run[k + 1])
    ensures run[k].phase.pending[0] in Agents(doc, before)
    ensures run[k].phase.uploaded in Agents(doc, run[k].remote)
    ensures run[k].phase.uploaded in Agents(doc, run[k + 1].remote)
  {
    InvAlongRun(doc, before, run, k);
    InvAlongRun(doc, before, run, k + 1);
  }

  /** A completed run leaves the new file as the only agent's attachment. */
  lemma CompletedLeavesOne(doc: string, before: Remote, run: seq<State>)
    requires IsRun(doc, before, run)
    requires run[|run| - 1].phase.Deleting? && run[|run| - 1].phase.pending == []
    ensures var last := run[|run| - 1];
      && Agents(doc, last.remote) == {last.phase.uploaded}
      && forall r :: r in last.remote && Strip(last.remote[r]) == doc <==> r == last.phase.uploaded
  {
    var last := run[|run| - 1];
    InvAlongRun(doc, before, run, |run| - 1);
    forall r ensures r in last.remote && Strip(last.remote[r]) == doc <==> r == last.phase.uploaded {
      assert r in Agents(doc, last.remote) <==> r in last.remote && Strip(last.remote[r]) == doc;
    }
  }

  // ---------------------------------------------------------------- the script

  /** The document on the 1C side, with the history of its states. */
  class Document {
    var remote: Remote
    ghost var run: seq<State>

    constructor (remote: Remote)
      ensures this.remote == remote && run == [State(remote, Start)]
    {
      this.remote := remote;
      run := [State(remote, Start)];
    }

    /** The calls of `main`: `existing` is the listing, `uploaded` the reference the upload returns. The
        run they make is one of the protocol and completed. */
    method ReplaceAttachment(doc: string, existing: seq<Item>, uploaded: string)
      requires Strip(doc) == doc && ProperRefs(remote) && run == [State(remote, Start)]
      requires Lists(existing, remote) && uploaded !in remote && uploaded != "" && Trimmed(uploaded)
      modifies this
      ensures IsRun(doc, old(remote), run) && run[|run| - 1] == State(remote, Deleting(uploaded, []))
      ensures Agents(doc, remote) == {uploaded}
    {
      ghost var before := remote;
      ghost var listed := State(remote, Listed(existing));
      assert ListStep(run[0], listed);
      RunGoesOn(doc, before, run, listed);
      remote := remote[uploaded := doc];
      var agent := AgentAttachmentRefs(doc, existing);
      var refs := WithoutRef(agent, uploaded);
      assert AttachStep(doc, listed, State(remote, Deleting(uploaded, refs)));
      RunGoesOn(doc, before, run + [listed], State(remote, Deleting(uploaded, refs)));
      run := run + [listed] + [State(remote, Deleting(uploaded, refs))];
      for i := 0 to |refs|
        invariant IsRun(doc, before, run) && run[|run| - 1] == State(remote, Deleting(uploaded, refs[i..]))
      {
        remote := remote - {refs[i]};
        ghost var next := State(remote, Deleting(uploaded, refs[i + 1..]));
        assert refs[i..][1..] == refs[i + 1..];
        assert DeleteStep(run[|run| - 1], next);
        RunGoesOn(doc, before, run, next);
        run := run + [next];
      }
      CompletedLeavesOne(doc, before, run);
    }
  }
}
