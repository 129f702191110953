/** Sequences of requests against the task table, and what they guarantee
    together: the ids handed out by creates only grow, so no id is issued
    twice, not even after its task was deleted, and no create ever writes
    over an existing task. */
module TaskHistory {
  import opened TaskKeys
  import opened TaskModel

  /** A request that changes the table. */
  datatype Request =
    | CreateRequest(title: Option<string>, description: Option<string>, now: string)
    | EditRequest(id: nat, field: Option<string>, value: Option<string>)
    | DeleteRequest(id: nat)

  /** The table after one request, and the id it issued, if any. */
  function Apply(s: Store, req: Request): (Store, Option<nat>)
  {
    match req
    case CreateRequest(title, description, now) =>
      var (t, out) := CreateStep(s, title, description, now);
      (t, if out.Created? then Some(out.id) else None)
    case EditRequest(id, field, value) => (EditStep(s, id, field, value).0, None)
    case DeleteRequest(id) => (DeleteStep(s, id).0, None)
  }

  /** The table after the requests in order, and the ids they issued. */
  function Run(s: Store, reqs: seq<Request>): (Store, seq<nat>)
    decreases |reqs|
  {
    if reqs == [] then (s, [])
    else
      var (t, issued) := Apply(s, reqs[0]);
      var (u, ids) := Run(t, reqs[1..]);
      (u, (if issued.Some? then [issued.value] else []) + ids)
  }

  ghost predicate StrictlyIncreasing(ids: seq<nat>) {
    forall i, j :: 0 <= i < j < |ids| ==> ids[i] < ids[j]
  }

  /** One request never lowers the counter; an id it issues is the counter
      plus one, and becomes the counter. */
  lemma ApplyCounter(s: Store, req: Request)
    ensures var (t, issued) := Apply(s, req);
      && s.counter <= t.counter
      && (issued.Some? ==> issued.value == s.counter + 1 == t.counter)
      && (issued.None? ==> t.counter == s.counter)
  {
  }

  /** Putting the id one step issued, if any, in front of the ids issued
      after it keeps them strictly increasing and within the counters. */
  lemma PrependIssued(lo: nat, mid: nat, hi: nat, issued: Option<nat>, ids: seq<nat>)
    requires issued.Some? ==> issued.value == lo + 1 == mid
    requires issued.None? ==> mid == lo
    requires StrictlyIncreasing(ids)
    requires forall i :: 0 <= i < |ids| ==> mid < ids[i] <= hi
    requires mid <= hi
    ensures var all := (if issued.Some? then [issued.value] else []) + ids;
      && StrictlyIncreasing(all)
      && (forall i :: 0 <= i < |all| ==> lo < all[i] <= hi)
  {
    var all := (if issued.Some? then [issued.value] else []) + ids;
    if issued.Some? {
      forall i, j | 0 <= i < j < |all|
        ensures all[i] < all[j]
      {
        assert all[j] == ids[j - 1];
        if i > 0 {
          assert all[i] == ids[i - 1];
        }
      }
    } else {
      assert all == ids;
    }
  }

  /** The ids a run issues are strictly increasing and lie above the counter
      it started from and at or below the counter it ends with; deletes in
      between make no difference. */
  lemma {:induction false} IssuedIdsIncrease(s: Store, reqs: seq<Request>)
    ensures var (u, ids) := Run(s, reqs);
      && s.counter <= u.counter
      && StrictlyIncreasing(ids)
      && (forall i :: 0 <= i < |ids| ==> s.counter < ids[i] <= u.counter)
    decreases |reqs|
  {
    if reqs != [] {
      var step := Apply(s, reqs[0]);
      ApplyCounter(s, reqs[0]);
      IssuedIdsIncrease(step.0, reqs[1..]);
      var tail := Run(step.0, reqs[1..]);
      PrependIssued(s.counter, step.0.counter, tail.0.counter, step.1, tail.1);
    }
  }

  /** No id is issued twice in a run, and no issued id names a task that
      existed, or had existed, before the run: the counter is independent of
      the keys present. */
  lemma IdsNeverReused(s: Store, reqs: seq<Request>)
    requires IdsIssued(s)
    ensures var (u, ids) := Run(s, reqs);
      && (forall i, j :: 0 <= i < j < |ids| ==> KeyOf(ids[i]) != KeyOf(ids[j]))
      && (forall i :: 0 <= i < |ids| ==> KeyOf(ids[i]) !in s.records)
  {
    var (u, ids) := Run(s, reqs);
    IssuedIdsIncrease(s, reqs);
    forall i, j | 0 <= i < j < |ids|
      ensures KeyOf(ids[i]) != KeyOf(ids[j])
    {
      if KeyOf(ids[i]) == KeyOf(ids[j]) {
        KeyOfInjective(ids[i], ids[j]);
      }
    }
  }

  /** Every request keeps the table valid, so a run from a valid table ends
      in one: in particular every stored status stays in `STATUS_VALIDOS`. */
  lemma {:induction false} RunPreservesValid(s: Store, reqs: seq<Request>)
    requires Valid(s)
    ensures Valid(Run(s, reqs).0)
    decreases |reqs|
  {
    if reqs != [] {
      match reqs[0] {
        case CreateRequest(title, description, now) => CreatePreservesValid(s, title, description, now);
        case EditRequest(id, field, value) => EditPreservesValid(s, id, field, value);
        case DeleteRequest(id) => DeletePreservesValid(s, id);
      }
      RunPreservesValid(Apply(s, reqs[0]).0, reqs[1..]);
    }
  }

  /** Starting from an empty table, the scenario create, set the status to
      `Em Progresso`, delete: the task gets id 1 and status `Pendente`, the
      edit succeeds, and afterwards the task is gone while the counter stays
      at 1. */
  lemma Scenario(title: string, description: string, now: string)
    requires title != "" && description != ""
    ensures var s0 := Store(map[], 0);
      var (s1, c) := CreateStep(s0, Some(title), Some(description), now);
      var (s2, e) := EditStep(s1, 1, Some(StatusField), Some("Em Progresso"));
      var (s3, d) := DeleteStep(s2, 1);
      && c == Created(1) && s1.records[KeyOf(1)][StatusField] == Pending
      && e == Updated && s2.records[KeyOf(1)][StatusField] == "Em Progresso"
      && d == Deleted && s3.records == map[] && s3.counter == 1
  {
    var s0 := Store(map[], 0);
    CreateWritesFreshRecord(s0, Some(title), Some(description), now);
    var (s1, c) := CreateStep(s0, Some(title), Some(description), now);
    AnyStatusReachable(s1, 1, "Em Progresso");
    var (s2, e) := EditStep(s1, 1, Some(StatusField), Some("Em Progresso"));
    EditFrame(s1, 1, Some(StatusField), Some("Em Progresso"));
    DeleteOutcomes(s2, 1);
  }
}
