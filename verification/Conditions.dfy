/** Status conditions: a list with one entry per type, updated in place, that remembers when
    each entry last changed its status. */
module Conditions {
  import opened Deployments

  /** The condition types of a Deployment and of a DeploymentCluster. */
  datatype Kind = Ready | GitSynced | GitReposUpdated | NotStalled

  datatype CondStatus = ConditionTrue | ConditionFalse | ConditionUnknown

  /** `since` is the last transition time in seconds. */
  datatype Condition = Condition(kind: Kind, status: CondStatus, reason: string, message: string, since: int)

  function Find(conds: seq<Condition>, kind: Kind): Option<Condition> {
    if conds == [] then None
    else if conds[0].kind == kind then Some(conds[0])
    else Find(conds[1..], kind)
  }

  lemma {:induction false} FindGivesAMember(conds: seq<Condition>, kind: Kind)
    ensures Find(conds, kind).Some? ==> Find(conds, kind).value in conds && Find(conds, kind).value.kind == kind
    ensures Find(conds, kind).None? <==> forall c | c in conds :: c.kind != kind
  {
    if conds != [] {
      FindGivesAMember(conds[1..], kind);
      assert conds == [conds[0]] + conds[1..];
    }
  }

  predicate HasStatus(conds: seq<Condition>, kind: Kind, status: CondStatus) {
    Find(conds, kind).Some? && Find(conds, kind).value.status == status
  }

  ghost predicate OnePerKind(conds: seq<Condition>) {
    forall i, j | 0 <= i < j < |conds| :: conds[i].kind != conds[j].kind
  }

  /** The entry that an update leaves for its type. */
  function NewCondition(conds: seq<Condition>, kind: Kind, status: CondStatus, reason: string, message: string, now: int): Condition {
    Condition(kind, status, reason, message,
              if HasStatus(conds, kind, status) then Find(conds, kind).value.since else now)
  }

  method UpdateStatusCondition(conds: seq<Condition>, kind: Kind, status: CondStatus, reason: string, message: string, now: int)
    returns (result: seq<Condition>)
    ensures Find(result, kind) == Some(NewCondition(conds, kind, status, reason, message, now))
    ensures Find(result, kind).Some? && Find(result, kind).value.(since := now) == Condition(kind, status, reason, message, now)
    ensures forall k | k != kind :: Find(result, k) == Find(conds, k)
    ensures OnePerKind(conds) ==> OnePerKind(result)
    ensures forall c | c in result :: c.kind == kind || c in conds
    ensures forall c | c in conds :: c.kind == kind || c in result
  {
    var condition := Condition(kind, status, reason, message, now);
    for i := 0 to |conds|
      invariant forall j | 0 <= j < i :: conds[j].kind != kind
      invariant Find(conds, kind) == Find(conds[i..], kind)
      invariant condition == Condition(kind, status, reason, message, now)
    {
      assert conds[i..][1..] == conds[i + 1..];
      if conds[i].kind == kind {
        assert Find(conds, kind) == Some(conds[i]);
        if conds[i].status == status {
          condition := condition.(since := conds[i].since);
        }
        result := conds[i := condition];
        OverwriteFinds(conds, i, condition);
        OverwriteKeeps(conds, i, condition);
        return;
      }
    }
    AppendFinds(conds, condition);
    return conds + [condition];
  }

  lemma {:induction false} OverwriteFinds(conds: seq<Condition>, i: nat, c: Condition)
    requires i < |conds| && c.kind == conds[i].kind
    requires forall j | 0 <= j < i :: conds[j].kind != c.kind
    ensures Find(conds[i := c], c.kind) == Some(c)
    ensures forall k | k != c.kind :: Find(conds[i := c], k) == Find(conds, k)
  {
    if i > 0 {
      OverwriteFinds(conds[1..], i - 1, c);
      assert conds[i := c][1..] == conds[1..][i - 1 := c];
    } else {
      assert conds[i := c][1..] == conds[1..];
    }
  }

  lemma OverwriteKeeps(conds: seq<Condition>, i: nat, c: Condition)
    requires i < |conds| && c.kind == conds[i].kind
    ensures OnePerKind(conds) ==> OnePerKind(conds[i := c])
    ensures forall x | x in conds[i := c] :: x.kind == c.kind || x in conds
    ensures forall x | x in conds :: x.kind == c.kind || x in conds[i := c]
  {
    forall x | x in conds && x.kind != c.kind ensures x in conds[i := c] {
      var j :| 0 <= j < |conds| && conds[j] == x;
      assert conds[i := c][j] == x;
    }
  }

  lemma {:induction false} AppendFinds(conds: seq<Condition>, c: Condition)
    requires forall x | x in conds :: x.kind != c.kind
    ensures Find(conds + [c], c.kind) == Some(c)
    ensures forall k | k != c.kind :: Find(conds + [c], k) == Find(conds, k)
  {
    if conds != [] {
      AppendFinds(conds[1..], c);
      assert (conds + [c])[1..] == conds[1..] + [c];
    }
  }

  // ---------------------------------------------------------------------------
  // Transition times
  // ---------------------------------------------------------------------------

  /** One status that was recorded for a type, and when. */
  datatype Sample = Sample(status: CondStatus, at: int)

  /** Where the last stretch of equal statuses begins. */
  ghost function StretchStart(history: seq<Sample>): (k: nat)
    requires history != []
    ensures k < |history|
  {
    var n := |history|;
    if n > 1 && history[n - 2].status == history[n - 1].status then StretchStart(history[..n - 1]) else n - 1
  }

  ghost predicate RecordedBy(conds: seq<Condition>, kind: Kind, history: seq<Sample>) {
    if history == [] then Find(conds, kind) == None
    else
      && Find(conds, kind).Some?
      && Find(conds, kind).value.status == history[|history| - 1].status
      && Find(conds, kind).value.since == history[StretchStart(history)].at
  }

  /** An update keeps the transition time at the start of the present stretch. */
  lemma UpdateRecords(conds: seq<Condition>, result: seq<Condition>, kind: Kind, status: CondStatus,
                      reason: string, message: string, now: int, history: seq<Sample>)
    requires RecordedBy(conds, kind, history)
    requires Find(result, kind) == Some(NewCondition(conds, kind, status, reason, message, now))
    ensures RecordedBy(result, kind, history + [Sample(status, now)])
  {
    assert (history + [Sample(status, now)])[..|history|] == history;
  }

  /** The present status was the recorded one throughout the stretch, and not just before it. */
  lemma {:induction false} StretchIsUniform(history: seq<Sample>)
    requires history != []
    ensures forall i | StretchStart(history) <= i < |history| :: history[i].status == history[|history| - 1].status
    ensures forall i | 0 <= i && i + 1 == StretchStart(history) :: history[i].status != history[|history| - 1].status
  {
    var n := |history|;
    if n > 1 && history[n - 2].status == history[n - 1].status {
      StretchIsUniform(history[..n - 1]);
    }
  }
}
