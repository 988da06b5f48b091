/** The management edits and the order evaluator together. */
module ApprovalRuns {
  import opened Wrappers
  import opened CostCenters
  import opened Reparenting
  import opened Chains

  /**
  Starting from a well-formed tree, no run of guarded edits can put an order of an active
  center into the evaluator's `cost_center_invalid` branch.
  */
  lemma {:induction false} GuardedEditsKeepEvaluatorSound(chains: seq<Chain>, centers: seq<Center>, edits: seq<Edit>,
                                                          id: string, amount: Option<real>, escalate: bool)
    requires GoodForest(centers) && PlaceholderFree(centers)
    requires forall i :: 0 <= i < |edits| ==> StoredId(edits[i])
    requires ActiveCenter(ById(Run(centers, edits)), id)
    ensures var r := ResolutionOf(chains, ById(Run(centers, edits)), Some(id), amount, escalate);
            r.Unresolved? ==> r.reason != CostCenterInvalid
  {
    RunKeepsForest(centers, edits);
    GoodForestAnswers(chains, Run(centers, edits), id);
  }
}
