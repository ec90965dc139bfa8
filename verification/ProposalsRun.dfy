/** `propose_improvements` (scripts/analyze_akinina_routing.py). */
module ProposalsRun {
  import opened Dedup
  import opened Sorting
  import opened Proposals
  import opened ProposalsMeaning

  /** `propose_improvements`; `remarks` are the proposals that do not come from a share of letters. */
  method ProposeImprovements(docs: seq<Doc>, remarks: seq<Proposal>)
    returns (evidence: seq<Proposal>, list: seq<Proposal>)
    requires Proper(docs)
    ensures forall p :: p in evidence <==> IsEvidence(docs, p)
    ensures EvidenceInOrder(docs, evidence)
    ensures list == HandedOut(evidence + remarks) && HandedOutTold(evidence + remarks, list)
  {
    var emails := ProposeKind(ExactEmail, docs);
    var domains := ProposeKind(Domain, docs);
    var patterns := ProposeKind(Pattern, docs);
    evidence := emails + domains + patterns;
    forall p ensures p in evidence <==> IsEvidence(docs, p) {
      EvidenceIsWarranted(docs, p);
      assert p in evidence <==>
        Warranted(ExactEmail, docs, p) || Warranted(Domain, docs, p) || Warranted(Pattern, docs, p);
    }
    AllKindsInOrder(docs, emails, domains, patterns);
    var sorted := Sort(evidence + remarks, RankOf);
    var uniq := Dedupe(sorted, KeyOf);
    list := Cut(uniq);
    HandedOutIsTold(evidence + remarks);
  }
}
