/** Who may approve a remediation, and how many approvals it takes. */
module ApprovalMatrix {
  import opened Common

  datatype Action = Block | DualApproval | SingleApproval | AutoApply
  datatype Risk = Low | Medium | High
  datatype Denial = NotHuman | Blocked | RoleNotPermitted | HighRisk | MultiDevice

  const SINGLE_DEVICE_MAX_BLAST_RADIUS: int := 0

  /** The reason an approval is refused; None lets it through. */
  function CheckPermission(role: string, action: Action, risk: Risk, blastRadius: int, actorType: string)
    : (denial: Option<Denial>)
  {
    if actorType != "human" then Some(NotHuman)
    else if action == Block then Some(Blocked)
    else if role == "admin" then None
    else if role != "operator" then Some(RoleNotPermitted)
    else if risk == High then Some(HighRisk)
    else if blastRadius > SINGLE_DEVICE_MAX_BLAST_RADIUS then Some(MultiDevice)
    else None
  }

  predicate DualApprovalSatisfied(action: Action, prior: set<string>, newActor: string) {
    action != DualApproval || |prior + {newActor}| >= 2
  }

  /** A satisfied two-person rule names somebody other than the caller. */
  lemma QuorumNamesAnother(prior: set<string>, newActor: string)
    ensures DualApprovalSatisfied(DualApproval, prior, newActor) <==> exists a :: a in prior && a != newActor
  {
    if a :| a in prior && a != newActor {
      assert {a, newActor} <= prior + {newActor};
      assert |{a, newActor}| == 2;
      SubsetCardinality({a, newActor}, prior + {newActor});
    } else {
      assert prior + {newActor} == {newActor};
    }
  }
}
