/** The expiration poller: each cycle finds the policies whose end date is the
    threshold day, logs the ones not seen before and remembers their ids. */
module PolicyExpiration {
  import opened Wrappers
  import opened Seqs
  import opened Models

  /** A log line of the poller. */
  datatype LogLine =
    | ExpiredWarning(policyId: int, carVin: string, expiryDate: Date)  // one per newly expired policy
    | CycleError                                                       // a cycle whose query failed

  /** A policy loaded together with its car. */
  datatype PolicyWithCar = PolicyWithCar(policy: Policy, car: Car)

  /** The seen-id set after a cycle and the lines the cycle logged. */
  datatype CycleOutcome = CycleOutcome(seen: set<int>, logs: seq<LogLine>)

  /** One cycle's inputs: the threshold day ("one hour ago", date only) and the
      store, or `None` when the storage query fails. */
  datatype CycleInput = CycleInput(threshold: Date, snapshot: Option<Store>)

  /** `p` ends on `threshold` and has not been logged yet. */
  predicate Due(p: Policy, seen: set<int>, threshold: Date)
  {
    p.endDate == threshold && p.id !in seen
  }

  function Warning(e: PolicyWithCar): LogLine
  {
    ExpiredWarning(e.policy.id, e.car.vin, e.policy.endDate)
  }

  /** The set of policy ids in `es`. */
  function IdsOf(es: seq<PolicyWithCar>): set<int>
  {
    set i | 0 <= i < |es| :: es[i].policy.id
  }

  /** The due policies among `ps`, each joined to its car (an inner join: a
      policy whose car is missing yields no row), in store order. */
  function DuePolicies(ps: seq<Policy>, s: Store, seen: set<int>, threshold: Date): (r: seq<PolicyWithCar>)
    ensures |r| <= |ps|
    ensures forall i :: 0 <= i < |r| ==>
              r[i].policy in ps && Due(r[i].policy, seen, threshold)
              && r[i].car in s.cars && r[i].car.id == r[i].policy.carId
  {
    if |ps| == 0 then []
    else
      var p := ps[0];
      var rest := DuePolicies(ps[1..], s, seen, threshold);
      if Due(p, seen, threshold) then
        match FindCar(s, p.carId)
        case None => rest
        case Some(car) => [PolicyWithCar(p, car)] + rest
      else rest
  }

  /** Every due policy of `ps` whose car exists is in the query's answer. */
  lemma {:induction false} DuePoliciesComplete(ps: seq<Policy>, s: Store, seen: set<int>, threshold: Date)
    ensures forall p :: p in ps && Due(p, seen, threshold) && HasCar(s, p.carId) ==>
              Selected(DuePolicies(ps, s, seen, threshold), p)
  {
    if |ps| > 0 {
      var head := ps[0];
      var rest := DuePolicies(ps[1..], s, seen, threshold);
      var r := DuePolicies(ps, s, seen, threshold);
      DuePoliciesComplete(ps[1..], s, seen, threshold);
      var found := FindCar(s, head.carId);
      assert r == if Due(head, seen, threshold) && found.Some? then [PolicyWithCar(head, found.value)] + rest else rest;
      forall q | q in ps && Due(q, seen, threshold) && HasCar(s, q.carId)
        ensures Selected(r, q)
      {
        if q == head {
          assert r[0].policy == q;
        } else {
          assert q in ps[1..];
          var i :| 0 <= i < |rest| && rest[i].policy == q;
          if r == rest {
            assert r[i].policy == q;
          } else {
            assert r[i + 1].policy == q;
          }
        }
      }
    }
  }

  /** Some row of `es` is policy `p`. */
  ghost predicate Selected(es: seq<PolicyWithCar>, p: Policy)
  {
    exists i :: 0 <= i < |es| && es[i].policy == p
  }

  /** The policies of the queried rows, in order. */
  function PoliciesOf(es: seq<PolicyWithCar>): seq<Policy>
  {
    MapSeq(es, (e: PolicyWithCar) => e.policy)
  }

  /** With unique policy ids in the store, the query returns each id at most once. */
  lemma {:induction false} DuePoliciesUnique(ps: seq<Policy>, s: Store, seen: set<int>, threshold: Date)
    requires UniquePolicyIds(ps)
    ensures UniquePolicyIds(PoliciesOf(DuePolicies(ps, s, seen, threshold)))
  {
    if |ps| > 0 {
      var p := ps[0];
      var rest := DuePolicies(ps[1..], s, seen, threshold);
      DuePoliciesUnique(ps[1..], s, seen, threshold);
      if Due(p, seen, threshold) && FindCar(s, p.carId).Some? {
        var e := PolicyWithCar(p, FindCar(s, p.carId).value);
        assert DuePolicies(ps, s, seen, threshold) == [e] + rest;
        assert forall k :: 0 <= k < |rest| ==> rest[k].policy in ps[1..];
      } else {
        assert DuePolicies(ps, s, seen, threshold) == rest;
      }
    }
  }

  /** The storage query of one cycle: the due policies of the store with their cars. */
  function ExpiredPolicies(s: Store, seen: set<int>, threshold: Date): (r: seq<PolicyWithCar>)
  {
    DuePolicies(s.policies, s, seen, threshold)
  }

  /** Logs a warning per queried policy and adds its id to the seen set, in order. */
  function LogAndMark(es: seq<PolicyWithCar>, seen: set<int>): (r: CycleOutcome)
    ensures r.seen == seen + IdsOf(es)
    ensures |r.logs| == |es|
    ensures forall i :: 0 <= i < |es| ==> r.logs[i] == Warning(es[i])
  {
    if |es| == 0 then CycleOutcome(seen, [])
    else
      var rest := LogAndMark(es[1..], seen + {es[0].policy.id});
      assert IdsOf(es) == {es[0].policy.id} + IdsOf(es[1..]) by {
        forall x | x in IdsOf(es) ensures x in {es[0].policy.id} + IdsOf(es[1..]) {
          var i :| 0 <= i < |es| && es[i].policy.id == x;
          if i > 0 { assert es[1..][i - 1] == es[i]; }
        }
        forall x | x in IdsOf(es[1..]) ensures x in IdsOf(es) {
          var i :| 0 <= i < |es[1..]| && es[1..][i].policy.id == x;
          assert es[i + 1] == es[1..][i];
        }
      }
      CycleOutcome(rest.seen, [Warning(es[0])] + rest.logs)
  }

  /** `line` is the warning for a policy of `s` that was due against `seen`,
      naming that policy's id, its car's VIN and its end date. */
  ghost predicate WarnsAbout(line: LogLine, s: Store, seen: set<int>, threshold: Date)
  {
    exists p, c :: p in s.policies && c in s.cars && c.id == p.carId && Due(p, seen, threshold)
                   && line == ExpiredWarning(p.id, c.vin, p.endDate)
  }

  /** Some line of `logs` is a warning about policy `id`. */
  ghost predicate Logged(logs: seq<LogLine>, id: int)
  {
    exists k :: 0 <= k < |logs| && logs[k].ExpiredWarning? && logs[k].policyId == id
  }

  /** No policy id is warned about twice in `logs`. */
  ghost predicate LoggedAtMostOnce(logs: seq<LogLine>)
  {
    forall i, j :: 0 <= i < j < |logs| && logs[i].ExpiredWarning? && logs[j].ExpiredWarning? ==>
      logs[i].policyId != logs[j].policyId
  }

  /** A cycle whose query succeeded: query the due policies, then log and mark them. */
  function Scan(s: Store, seen: set<int>, threshold: Date): (r: CycleOutcome)
    ensures seen <= r.seen
    ensures forall k :: 0 <= k < |r.logs| ==> WarnsAbout(r.logs[k], s, seen, threshold)
    ensures forall p :: p in s.policies && Due(p, seen, threshold) && HasCar(s, p.carId) ==>
              p.id in r.seen && Logged(r.logs, p.id)
    ensures forall id :: id in r.seen ==> id in seen || Logged(r.logs, id)
  {
    var es := ExpiredPolicies(s, seen, threshold);
    var r := LogAndMark(es, seen);
    ScanCovers(s, seen, threshold);
    r
  }

  /** Every due policy with a car is logged and remembered by the scan. */
  lemma ScanCovers(s: Store, seen: set<int>, threshold: Date)
    ensures var r := LogAndMark(ExpiredPolicies(s, seen, threshold), seen);
            forall p :: p in s.policies && Due(p, seen, threshold) && HasCar(s, p.carId) ==>
              p.id in r.seen && Logged(r.logs, p.id)
  {
    var es := ExpiredPolicies(s, seen, threshold);
    var r := LogAndMark(es, seen);
    DuePoliciesComplete(s.policies, s, seen, threshold);
    forall p | p in s.policies && Due(p, seen, threshold) && HasCar(s, p.carId)
      ensures p.id in r.seen && Logged(r.logs, p.id)
    {
      var i :| 0 <= i < |es| && es[i].policy == p;
      assert r.logs[i] == Warning(es[i]);
    }
  }

  /** One iteration of the polling loop. A failed query is caught: it logs one
      error and leaves the seen set as it was. */
  function Cycle(seen: set<int>, input: CycleInput): (r: CycleOutcome)
    ensures seen <= r.seen
    ensures input.snapshot.None? ==> r.seen == seen && r.logs == [CycleError]
    ensures input.snapshot.Some? ==> r == Scan(input.snapshot.value, seen, input.threshold)
  {
    match input.snapshot
    case None => CycleOutcome(seen, [CycleError])
    case Some(s) => Scan(s, seen, input.threshold)
  }

  /** Consecutive iterations of the polling loop: the final seen set and every
      line logged, in order. Ids only ever join the seen set. */
  function Run(seen: set<int>, inputs: seq<CycleInput>): (r: CycleOutcome)
    ensures seen <= r.seen
    decreases |inputs|
  {
    if |inputs| == 0 then CycleOutcome(seen, [])
    else
      var first := Cycle(seen, inputs[0]);
      var rest := Run(first.seen, inputs[1..]);
      CycleOutcome(rest.seen, first.logs + rest.logs)
  }

  // ------------------------------------------------------------- properties

  /** Repeating a successful cycle with the same threshold and store logs
      nothing and adds nothing. */
  lemma CycleIdempotent(seen: set<int>, input: CycleInput)
    requires input.snapshot.Some?
    ensures var first := Cycle(seen, input);
            Cycle(first.seen, input) == CycleOutcome(first.seen, [])
  {
  }

  /** Every warning in `logs` names an id outside `before` and inside `after`. */
  ghost predicate FreshAndKept(logs: seq<LogLine>, before: set<int>, after: set<int>)
  {
    forall k :: 0 <= k < |logs| && logs[k].ExpiredWarning? ==>
      logs[k].policyId !in before && logs[k].policyId in after
  }

  /** A cycle over a store with unique policy ids logs only ids that were not
      seen before, each once, and remembers all of them. */
  lemma CycleLogsFresh(seen: set<int>, input: CycleInput)
    requires input.snapshot.Some? ==> UniquePolicyIds(input.snapshot.value.policies)
    ensures var r := Cycle(seen, input);
            LoggedAtMostOnce(r.logs) && FreshAndKept(r.logs, seen, r.seen)
  {
    if input.snapshot.Some? {
      var s := input.snapshot.value;
      var es := ExpiredPolicies(s, seen, input.threshold);
      DuePoliciesUnique(s.policies, s, seen, input.threshold);
      var r := LogAndMark(es, seen);
      forall k | 0 <= k < |r.logs| ensures r.logs[k].policyId in r.seen {
        assert r.logs[k] == Warning(es[k]);
      }
    }
  }

  /** Over any run of cycles whose stores have unique policy ids, every policy
      id is logged at most once, never one seen before the run, and every
      logged id is remembered at the end. */
  lemma {:induction false} RunLogsEachIdOnce(seen: set<int>, inputs: seq<CycleInput>)
    requires forall i :: 0 <= i < |inputs| && inputs[i].snapshot.Some? ==>
               UniquePolicyIds(inputs[i].snapshot.value.policies)
    ensures var r := Run(seen, inputs);
            LoggedAtMostOnce(r.logs) && FreshAndKept(r.logs, seen, r.seen)
    decreases |inputs|
  {
    if |inputs| > 0 {
      var first := Cycle(seen, inputs[0]);
      var rest := Run(first.seen, inputs[1..]);
      CycleLogsFresh(seen, inputs[0]);
      RunLogsEachIdOnce(first.seen, inputs[1..]);
      assert Run(seen, inputs) == CycleOutcome(rest.seen, first.logs + rest.logs);
    }
  }

  /** A cycle whose query fails logs one error and the loop carries on with
      the seen set untouched. */
  lemma FailedCycleIsSkipped(seen: set<int>, threshold: Date, inputs: seq<CycleInput>)
    ensures var r := Run(seen, [CycleInput(threshold, None)] + inputs);
            var rest := Run(seen, inputs);
            r.seen == rest.seen && r.logs == [CycleError] + rest.logs
  {
  }

  /** The ids of the policies of `s` ending on `threshold` and not in `seen`. */
  ghost function DueIds(s: Store, seen: set<int>, threshold: Date): set<int>
  {
    set p | p in s.policies && Due(p, seen, threshold) :: p.id
  }

  /** In a store whose every policy has its car, a successful cycle adds to
      the seen set exactly the ids of the policies ending on the threshold day
      that were not seen before. */
  lemma ScanSelectsExactlyDue(s: Store, seen: set<int>, threshold: Date)
    requires PoliciesHaveCars(s)
    ensures Scan(s, seen, threshold).seen == seen + DueIds(s, seen, threshold)
  {
  }

}
