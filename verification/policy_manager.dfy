/** The policy manager: an index-keyed collection of loaded policies and the
    process-wide set of events some policy has registered for.

    Every operation is a pure function from the manager it is given to a `Step`:
    the manager afterwards, the outcome (a raised condition stands in for a C++
    exception), the calls made to the firmware event-registration interface,
    and the error messages written to the log. */
module PolicyManager {
  import opened Outcomes
  import opened IndexSets

  type PolicyIndex = nat
  type PolicyEvent = nat

  /** One loaded policy: the name its module reports and the events it is
      registered for. */
  datatype Policy = Policy(name: string, events: set<PolicyEvent>)

  /** A map entry holds a shared pointer, which the code checks for null. */
  datatype Slot = Null | Live(policy: Policy)

  datatype Manager = Manager(policies: map<PolicyIndex, Slot>, registeredEvents: set<PolicyEvent>)

  /** The conditions the manager raises or re-raises. */
  datatype Failure =
    | PolicyIndexInvalid
    | PolicyLoadFailed(reason: string)
    | NoPoliciesLoaded

  datatype Outcome = Done | Raised(failure: Failure)

  /** Calls made to the firmware event-registration interface. */
  datatype FirmwareCall = RegisterWithFirmware(event: PolicyEvent) | UnregisterWithFirmware(event: PolicyEvent)

  /** Error messages the manager writes instead of propagating a failure. */
  datatype LogEntry =
    | TeardownFailed(index: PolicyIndex)
    | DestroyEnqueueFailed(index: PolicyIndex)
    | CreateFailed(fileName: string)
    | CreateAllEnqueueFailed

  datatype Step = Step(next: Manager, outcome: Outcome, firmware: seq<FirmwareCall>, errors: seq<LogEntry>)

  /** What loading a policy module from a file comes to. */
  datatype LoadOutcome = Loaded(name: string) | NotInSupportedList | LoadFailed(reason: string)

  /** One file offered to `createPolicy`, with what loading it comes to and
      whether the teardown of the half-created policy throws if it is rolled back. */
  datatype Candidate = Candidate(fileName: string, load: LoadOutcome, rollbackTeardownThrows: bool)

  /** A freshly constructed manager. */
  const Empty := Manager(map[], {})

  predicate IsLive(m: Manager, i: PolicyIndex)
  {
    i in m.policies && m.policies[i].Live?
  }

  /** The indexes holding a non-null policy. */
  function LiveIndexes(m: Manager): set<PolicyIndex>
  {
    set i | i in m.policies && m.policies[i].Live?
  }

  /** `getPolicyListCount`: the raw number of map entries. */
  function PolicyListCount(m: Manager): (r: nat)
    ensures PolicyCount(m) <= r
    ensures r == 0 <==> m.policies == map[]
  {
    SubsetNoLarger(LiveIndexes(m), m.policies.Keys);
    assert m.policies != map[] ==> exists i :: i in m.policies;
    |m.policies|
  }

  /** `getPolicyCount`, as a reference definition: the number of non-null entries. */
  function PolicyCount(m: Manager): nat
  {
    |LiveIndexes(m)|
  }

  predicate RegisteredAt(m: Manager, i: PolicyIndex, e: PolicyEvent)
  {
    i in m.policies && m.policies[i].Live? && e in m.policies[i].policy.events
  }

  /** Some live policy is registered for `e`. */
  predicate AnyPolicyRegistered(m: Manager, e: PolicyEvent)
  {
    exists i | i in m.policies :: RegisteredAt(m, i, e)
  }

  /** No entry of the map is a null pointer. */
  predicate NoNulls(m: Manager)
  {
    forall i :: i in m.policies ==> m.policies[i].Live?
  }

  /** Every event a live policy is registered for has its bit set. */
  predicate EventsCovered(m: Manager)
  {
    forall i | i in m.policies && m.policies[i].Live? :: m.policies[i].policy.events <= m.registeredEvents
  }

  /** The invariant every operation of the manager keeps. */
  predicate Valid(m: Manager)
  {
    NoNulls(m) && EventsCovered(m)
  }

  /** `getPolicyPtr`: the single lookup every caller goes through. */
  function GetPolicyPtr(m: Manager, index: PolicyIndex): (r: Result<Policy, Failure>)
    ensures r.Failure? <==> !IsLive(m, index)
    ensures r.Failure? ==> r.error == PolicyIndexInvalid
    ensures r.Success? ==> index in m.policies && m.policies[index] == Live(r.value)
  {
    if index in m.policies && m.policies[index].Live? then Success(m.policies[index].policy)
    else Failure(PolicyIndexInvalid)
  }

  /** `getPolicyCount`: a scan counting the non-null entries. */
  method GetPolicyCount(m: Manager) returns (count: nat)
    ensures count == |LiveIndexes(m)|
    ensures count <= PolicyListCount(m)
  {
    count := 0;
    var todo := m.policies.Keys;
    while todo != {}
      invariant todo <= m.policies.Keys
      invariant count == |LiveIndexes(m) - todo|
      decreases todo
    {
      var i :| i in todo;
      if m.policies[i].Live? {
        assert LiveIndexes(m) - (todo - {i}) == (LiveIndexes(m) - todo) + {i};
        count := count + 1;
      } else {
        assert LiveIndexes(m) - (todo - {i}) == LiveIndexes(m) - todo;
      }
      todo := todo - {i};
    }
    assert LiveIndexes(m) - todo == LiveIndexes(m);
    SubsetNoLarger(LiveIndexes(m), m.policies.Keys);
  }

  /** `isAnyPolicyRegisteredForEvent`: a scan that stops at the first live
      policy registered for `e`. */
  method IsAnyPolicyRegisteredForEvent(m: Manager, e: PolicyEvent) returns (registered: bool)
    ensures registered <==> exists i :: i in m.policies && m.policies[i].Live? && e in m.policies[i].policy.events
  {
    var todo := m.policies.Keys;
    while todo != {}
      invariant todo <= m.policies.Keys
      invariant forall i :: i in m.policies && i !in todo ==> !RegisteredAt(m, i, e)
      decreases todo
    {
      var i :| i in todo;
      if m.policies[i].Live? && e in m.policies[i].policy.events {
        return true;
      }
      todo := todo - {i};
    }
    return false;
  }

  /** `destroyPolicy`: tear down the policy at `index`, log a teardown failure
      instead of propagating it, and erase the entry whether or not teardown
      succeeded. An absent or null entry is left alone. */
  function DestroyPolicy(m: Manager, index: PolicyIndex, teardownThrows: bool): (r: Step)
    ensures r.outcome == Done && r.firmware == []
    ensures r.next.registeredEvents == m.registeredEvents
    ensures IsLive(m, index) ==> r.next.policies.Keys == m.policies.Keys - {index}
    ensures !IsLive(m, index) ==> r.next == m
    ensures forall j :: j in r.next.policies ==> j in m.policies && r.next.policies[j] == m.policies[j]
    ensures index !in r.next.policies || r.next.policies[index].Null?
    ensures r.errors == (if IsLive(m, index) && teardownThrows then [TeardownFailed(index)] else [])
    ensures Valid(m) ==> Valid(r.next)
  {
    if index in m.policies && m.policies[index].Live? then
      Step(m.(policies := m.policies - {index}), Done, [],
           if teardownThrows then [TeardownFailed(index)] else [])
    else
      Step(m, Done, [], [])
  }

  /** `createPolicy`: put a new policy at the first available index and load
      the module into it. A module not in the supported list is rolled back
      silently; any other load failure is rolled back and re-raised. */
  function CreatePolicy(m: Manager, c: Candidate): (r: Step)
    ensures r.firmware == []
    ensures r.next.registeredEvents == m.registeredEvents
    ensures c.load.Loaded? ==>
      var index := FirstAvailableIndex(m.policies.Keys);
      && index !in m.policies
      && r.outcome == Done
      && r.next.policies.Keys == m.policies.Keys + {index}
      && r.next.policies[index] == Live(Policy(c.load.name, {}))
      && (forall j :: j in m.policies ==> r.next.policies[j] == m.policies[j])
      && r.errors == []
    ensures c.load.NotInSupportedList? ==> r.outcome == Done && r.next == m
    ensures c.load.LoadFailed? ==> r.outcome == Raised(PolicyLoadFailed(c.load.reason)) && r.next == m
    ensures r.errors != [] <==> !c.load.Loaded? && c.rollbackTeardownThrows
    ensures PolicyCount(r.next) == PolicyCount(m) + (if c.load.Loaded? then 1 else 0)
    ensures Valid(m) ==> Valid(r.next)
  {
    var index := FirstAvailableIndex(m.policies.Keys);
    match c.load
    case Loaded(name) =>
      AddPolicyCount(m, index, Policy(name, {}));
      assert Valid(m) ==> Valid(AddPolicy(m, index, Policy(name, {}))) by {
        if Valid(m) {
          AddPolicyValid(m, index, Policy(name, {}));
        }
      }
      Step(AddPolicy(m, index, Policy(name, {})), Done, [], [])
    case NotInSupportedList =>
      var rollback := RollBack(m, index, c.rollbackTeardownThrows);
      Step(rollback.next, Done, [], rollback.errors)
    case LoadFailed(reason) =>
      var rollback := RollBack(m, index, c.rollbackTeardownThrows);
      Step(rollback.next, Raised(PolicyLoadFailed(reason)), [], rollback.errors)
  }

  /** Put `p` at the unused `index`, leaving every other entry alone. */
  function AddPolicy(m: Manager, index: PolicyIndex, p: Policy): (next: Manager)
    requires index !in m.policies
    ensures next.registeredEvents == m.registeredEvents
    ensures next.policies.Keys == m.policies.Keys + {index}
    ensures next.policies[index] == Live(p)
    ensures forall j :: j in m.policies ==> next.policies[j] == m.policies[j]
  {
    m.(policies := m.policies[index := Live(p)])
  }

  /** Adding a policy at an unused index adds one live policy. */
  lemma AddPolicyCount(m: Manager, index: PolicyIndex, p: Policy)
    requires index !in m.policies
    ensures PolicyCount(AddPolicy(m, index, p)) == PolicyCount(m) + 1
  {
    var next := AddPolicy(m, index, p);
    assert LiveIndexes(next) == LiveIndexes(m) + {index} by {
      forall i
        ensures i in LiveIndexes(next) <==> i in LiveIndexes(m) + {index}
      {
        if i != index {
          assert i in next.policies <==> i in m.policies;
        }
      }
    }
    assert index !in LiveIndexes(m);
  }

  /** Adding a policy whose events all have their bit set keeps the invariant. */
  lemma AddPolicyValid(m: Manager, index: PolicyIndex, p: Policy)
    requires index !in m.policies
    requires Valid(m) && p.events <= m.registeredEvents
    ensures Valid(AddPolicy(m, index, p))
  {
    var next := AddPolicy(m, index, p);
    forall i | i in next.policies
      ensures next.policies[i].Live? && next.policies[i].policy.events <= next.registeredEvents
    {
      if i != index {
        assert next.policies[i] == m.policies[i];
      }
    }
  }

  /** Destroying the half-created policy at a fresh index restores the manager
      the creation started from. */
  function RollBack(m: Manager, index: PolicyIndex, teardownThrows: bool): (r: Step)
    requires index !in m.policies
    ensures r.next == m
    ensures r.errors == (if teardownThrows then [TeardownFailed(index)] else [])
  {
    var halfCreated := m.(policies := m.policies[index := Live(Policy("", {}))]);
    var d := DestroyPolicy(halfCreated, index, teardownThrows);
    assert d.next.policies == m.policies;
    d
  }

  /** The number of candidates whose module loads. */
  function LoadedCount(candidates: seq<Candidate>): nat
  {
    if candidates == [] then 0
    else (if candidates[0].load.Loaded? then 1 else 0) + LoadedCount(candidates[1..])
  }

  /** The create-all work item: try every candidate in turn, logging a
      re-raised failure and carrying on with the next one. */
  function CreateEach(m: Manager, candidates: seq<Candidate>): (r: Step)
    ensures r.outcome == Done && r.firmware == []
    ensures r.next.registeredEvents == m.registeredEvents
    ensures PolicyCount(r.next) == PolicyCount(m) + LoadedCount(candidates)
    ensures forall j :: j in m.policies ==> j in r.next.policies && r.next.policies[j] == m.policies[j]
    ensures Valid(m) ==> Valid(r.next)
    decreases |candidates|
  {
    if candidates == [] then Step(m, Done, [], [])
    else
      var first := CreatePolicy(m, candidates[0]);
      var rest := CreateEach(first.next, candidates[1..]);
      var failed := if first.outcome.Raised? then [CreateFailed(candidates[0].fileName)] else [];
      Step(rest.next, Done, [], first.errors + failed + rest.errors)
  }

  /** `createAllPolicies`: run the create-all work item (or fail to enqueue
      it, which is logged and swallowed), then raise the fatal condition
      exactly when no policy is loaded. */
  function CreateAllPolicies(m: Manager, candidates: seq<Candidate>, enqueueThrows: bool): (r: Step)
    ensures r.outcome == Done || r.outcome == Raised(NoPoliciesLoaded)
    ensures r.outcome == Raised(NoPoliciesLoaded) <==> PolicyCount(r.next) == 0
    ensures r.firmware == []
    ensures enqueueThrows ==> r.next == m && r.errors == [CreateAllEnqueueFailed]
    ensures !enqueueThrows ==> PolicyCount(r.next) == PolicyCount(m) + LoadedCount(candidates)
    ensures forall j :: j in m.policies ==> j in r.next.policies && r.next.policies[j] == m.policies[j]
    ensures r.next.registeredEvents == m.registeredEvents
    ensures Valid(m) ==> Valid(r.next)
  {
    var ran := if enqueueThrows then Step(m, Done, [], [CreateAllEnqueueFailed]) else CreateEach(m, candidates);
    Step(ran.next, if PolicyCount(ran.next) == 0 then Raised(NoPoliciesLoaded) else Done, [], ran.errors)
  }

  /** One iteration of `destroyAllPolicies`: the entry at `index` is
      destroyed when it is non-null and its destroy item could be submitted. */
  function DestroyOne(m: Manager, index: PolicyIndex, enqueueThrows: bool, teardownThrows: bool): (r: Step)
    ensures r.outcome == Done && r.firmware == []
    ensures r.next.registeredEvents == m.registeredEvents
    ensures IsLive(m, index) && !enqueueThrows ==> r.next.policies == m.policies - {index}
    ensures !(IsLive(m, index) && !enqueueThrows) ==> r.next == m
    ensures r.errors ==
      if !IsLive(m, index) then []
      else if enqueueThrows then [DestroyEnqueueFailed(index)]
      else if teardownThrows then [TeardownFailed(index)]
      else []
  {
    if !IsLive(m, index) then Step(m, Done, [], [])
    else if enqueueThrows then Step(m, Done, [], [DestroyEnqueueFailed(index)])
    else DestroyPolicy(m, index, teardownThrows)
  }

  /** `destroyAllPolicies`: for every index present when the call starts, in
      ascending order, submit a destroy for a non-null entry; a failure to
      submit is logged and the remaining indexes are still processed. */
  method DestroyAllPolicies(m: Manager, enqueueThrows: set<PolicyIndex>, teardownThrows: set<PolicyIndex>)
    returns (r: Step)
    ensures r.outcome == Done && r.firmware == []
    ensures r.next.registeredEvents == m.registeredEvents
    ensures forall i :: i in r.next.policies <==> i in m.policies && (m.policies[i].Null? || i in enqueueThrows)
    ensures forall i :: i in r.next.policies ==> r.next.policies[i] == m.policies[i]
    ensures forall i :: DestroyEnqueueFailed(i) in r.errors <==> IsLive(m, i) && i in enqueueThrows
    ensures forall i :: TeardownFailed(i) in r.errors <==> IsLive(m, i) && i !in enqueueThrows && i in teardownThrows
    ensures Valid(m) ==> Valid(r.next)
    ensures NoNulls(m) && enqueueThrows == {} ==> r.next.policies == map[]
  {
    var todo := m.policies.Keys;
    var current := m;
    var errors: seq<LogEntry> := [];
    while todo != {}
      invariant todo <= m.policies.Keys
      invariant current.registeredEvents == m.registeredEvents
      invariant forall i :: i in current.policies <==>
        i in m.policies && (i in todo || m.policies[i].Null? || i in enqueueThrows)
      invariant forall i :: i in current.policies ==> current.policies[i] == m.policies[i]
      invariant forall i :: DestroyEnqueueFailed(i) in errors <==> IsLive(m, i) && i in enqueueThrows && i !in todo
      invariant forall i :: TeardownFailed(i) in errors <==>
        IsLive(m, i) && i !in enqueueThrows && i in teardownThrows && i !in todo
      invariant forall x :: x in errors ==> x.DestroyEnqueueFailed? || x.TeardownFailed?
      decreases todo
    {
      var index := Least(todo);
      var d := DestroyOne(current, index, index in enqueueThrows, index in teardownThrows);
      current := d.next;
      errors := errors + d.errors;
      todo := todo - {index};
    }
    r := Step(current, Done, [], errors);
  }

  /** `registerEvent`: tell the firmware the first time any policy registers
      for an event that needs it, set the event's bit, then register the event
      with the policy at `index`. The bit and the firmware call come before the
      lookup, so an invalid index leaves both in place and raises. */
  function RegisterEvent(m: Manager, index: PolicyIndex, e: PolicyEvent, firmwareEvents: set<PolicyEvent>): (r: Step)
    ensures r.next.registeredEvents == m.registeredEvents + {e}
    ensures |r.firmware| <= 1
    ensures r.firmware != [] <==> e !in m.registeredEvents && e in firmwareEvents
    ensures forall call :: call in r.firmware ==> call == RegisterWithFirmware(e)
    ensures r.outcome == Done <==> IsLive(m, index)
    ensures r.outcome != Done ==> r.outcome == Raised(PolicyIndexInvalid) && r.next.policies == m.policies
    ensures r.next.policies.Keys == m.policies.Keys
    ensures forall j :: j in m.policies && j != index ==> r.next.policies[j] == m.policies[j]
    ensures IsLive(m, index) ==>
      && IsLive(r.next, index)
      && r.next.policies[index].policy.name == m.policies[index].policy.name
      && r.next.policies[index].policy.events == m.policies[index].policy.events + {e}
    ensures r.errors == []
    ensures Valid(m) ==> Valid(r.next)
  {
    var firmware := if e !in m.registeredEvents && e in firmwareEvents then [RegisterWithFirmware(e)] else [];
    var flagged := m.(registeredEvents := m.registeredEvents + {e});
    match GetPolicyPtr(m, index)
    case Failure(failure) => Step(flagged, Raised(failure), firmware, [])
    case Success(p) =>
      Step(flagged.(policies := m.policies[index := Live(p.(events := p.events + {e}))]), Done, firmware, [])
  }

  /** `unregisterEvent`: a no-op unless some live policy is registered for the
      event; otherwise unregister it from the policy at `index`, recompute the
      event's bit, and tell the firmware when no policy is left registered. */
  function UnregisterEvent(m: Manager, index: PolicyIndex, e: PolicyEvent, firmwareEvents: set<PolicyEvent>): (r: Step)
    ensures !AnyPolicyRegistered(m, e) ==> r == Step(m, Done, [], [])
    ensures AnyPolicyRegistered(m, e) && !IsLive(m, index) ==> r == Step(m, Raised(PolicyIndexInvalid), [], [])
    ensures r.outcome == Done || r.outcome == Raised(PolicyIndexInvalid)
    ensures r.outcome == Done <==> !AnyPolicyRegistered(m, e) || IsLive(m, index)
    ensures r.next.policies.Keys == m.policies.Keys
    ensures forall j :: j in m.policies && j != index ==> r.next.policies[j] == m.policies[j]
    ensures r.outcome == Done && AnyPolicyRegistered(m, e) ==>
      && IsLive(r.next, index)
      && r.next.policies[index].policy.name == m.policies[index].policy.name
      && r.next.policies[index].policy.events == m.policies[index].policy.events - {e}
      && r.next.registeredEvents - {e} == m.registeredEvents - {e}
      && (e in r.next.registeredEvents <==> AnyPolicyRegistered(r.next, e))
    ensures |r.firmware| <= 1
    ensures forall call :: call in r.firmware ==> call == UnregisterWithFirmware(e)
    ensures r.firmware != [] <==>
      AnyPolicyRegistered(m, e) && IsLive(m, index) && !AnyPolicyRegistered(r.next, e) && e in firmwareEvents
    ensures r.errors == []
    ensures Valid(m) ==> Valid(r.next)
  {
    if !AnyPolicyRegistered(m, e) then Step(m, Done, [], [])
    else
      match GetPolicyPtr(m, index)
      case Failure(failure) => Step(m, Raised(failure), [], [])
      case Success(p) =>
        var unregistered := m.(policies := m.policies[index := Live(p.(events := p.events - {e}))]);
        var still := AnyPolicyRegistered(unregistered, e);
        var next := unregistered.(registeredEvents :=
          if still then m.registeredEvents + {e} else m.registeredEvents - {e});
        var firmware := if !still && e in firmwareEvents then [UnregisterWithFirmware(e)] else [];
        Step(next, Done, firmware, [])
  }
}
