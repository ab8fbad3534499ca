/** Properties of the policy manager that relate several operations: index
    reuse, lookups after destroy, the fan-in of firmware event registration,
    and the fatal start-up check. */
module PolicyManagerProperties {
  import opened Outcomes
  import opened IndexSets
  import opened PolicyManager

  /** Without null entries the raw map size and the live count agree, so
      `getPolicyListCount` and `getPolicyCount` report the same number. */
  lemma NoNullsCountsAgree(m: Manager)
    requires NoNulls(m)
    ensures PolicyCount(m) == PolicyListCount(m)
  {
    assert LiveIndexes(m) == m.policies.Keys;
  }

  /** A freshly constructed manager has no policy at any index. */
  lemma LookupOnEmptyFails(index: PolicyIndex)
    ensures GetPolicyPtr(Empty, index) == Failure(PolicyIndexInvalid)
  {
  }

  /** After `destroyPolicy`, however its teardown went, the index is invalid. */
  lemma LookupAfterDestroyFails(m: Manager, index: PolicyIndex, teardownThrows: bool)
    ensures GetPolicyPtr(DestroyPolicy(m, index, teardownThrows).next, index) == Failure(PolicyIndexInvalid)
  {
  }

  /** The outcome of a policy's own teardown changes nothing but the log. */
  lemma DestroyIgnoresTeardown(m: Manager, index: PolicyIndex)
    ensures DestroyPolicy(m, index, true).next == DestroyPolicy(m, index, false).next
    ensures DestroyPolicy(m, index, true).outcome == DestroyPolicy(m, index, false).outcome == Done
  {
  }

  /** Destroying a live policy whose lower indexes are all occupied and then
      creating a new one gives the new policy that same index. */
  lemma IndexReuse(m: Manager, index: PolicyIndex, teardownThrows: bool, c: Candidate)
    requires IsLive(m, index)
    requires forall j: PolicyIndex :: j < index ==> j in m.policies
    requires c.load.Loaded?
    ensures
      var created := CreatePolicy(DestroyPolicy(m, index, teardownThrows).next, c);
      && created.outcome == Done
      && GetPolicyPtr(created.next, index) == Success(Policy(c.load.name, {}))
  {
    var destroyed := DestroyPolicy(m, index, teardownThrows).next;
    assert forall j: PolicyIndex :: j < index ==> j in destroyed.policies;
    var first := FirstAvailableIndex(destroyed.policies.Keys);
    assert first == index;
  }

  /** A module rejected by the supported list leaves the live count, and the
      whole manager, as they were. */
  lemma RejectedModuleChangesNothing(m: Manager, fileName: string, teardownThrows: bool)
    ensures
      var r := CreatePolicy(m, Candidate(fileName, NotInSupportedList, teardownThrows));
      r.outcome == Done && r.next == m && PolicyCount(r.next) == PolicyCount(m)
  {
  }

  /** A second registration for the same event, by any policy, never calls
      the firmware again. */
  lemma SecondRegistrationSkipsFirmware(m: Manager, first: PolicyIndex, second: PolicyIndex, e: PolicyEvent,
                                         firmwareEvents: set<PolicyEvent>)
    ensures RegisterEvent(RegisterEvent(m, first, e, firmwareEvents).next, second, e, firmwareEvents).firmware == []
  {
  }

  /** Two policies register for an event no policy had; then both unregister.
      The firmware is told once, on the first registration, and released
      once, on the second unregistration. */
  lemma TwoPoliciesShareFirmwareRegistration(m: Manager, a: PolicyIndex, b: PolicyIndex, e: PolicyEvent,
                                             firmwareEvents: set<PolicyEvent>)
    requires Valid(m)
    requires IsLive(m, a) && IsLive(m, b) && a != b
    requires e !in m.registeredEvents && e in firmwareEvents
    ensures
      var r1 := RegisterEvent(m, a, e, firmwareEvents);
      var r2 := RegisterEvent(r1.next, b, e, firmwareEvents);
      var u1 := UnregisterEvent(r2.next, a, e, firmwareEvents);
      var u2 := UnregisterEvent(u1.next, b, e, firmwareEvents);
      && r1.firmware == [RegisterWithFirmware(e)]
      && r2.firmware == []
      && u1.firmware == []
      && u2.firmware == [UnregisterWithFirmware(e)]
      && e !in u2.next.registeredEvents
  {
    var r1 := RegisterEvent(m, a, e, firmwareEvents);
    var r2 := RegisterEvent(r1.next, b, e, firmwareEvents);
    assert RegisteredAt(r2.next, a, e);
    var u1 := UnregisterEvent(r2.next, a, e, firmwareEvents);
    assert RegisteredAt(u1.next, b, e);
    var u2 := UnregisterEvent(u1.next, b, e, firmwareEvents);
    forall i | i in u2.next.policies
      ensures !RegisteredAt(u2.next, i, e)
    {
      if i != a && i != b {
        assert u2.next.policies[i] == m.policies[i];
      }
    }
    assert !AnyPolicyRegistered(u2.next, e);
  }

  lemma {:induction false} NoneLoadedCountsZero(candidates: seq<Candidate>)
    requires forall k :: 0 <= k < |candidates| ==> !candidates[k].load.Loaded?
    ensures LoadedCount(candidates) == 0
    decreases |candidates|
  {
    if candidates != [] {
      NoneLoadedCountsZero(candidates[1..]);
    }
  }

  lemma {:induction false} SomeLoadedCountsPositive(candidates: seq<Candidate>, k: nat)
    requires k < |candidates| && candidates[k].load.Loaded?
    ensures LoadedCount(candidates) > 0
    decreases k
  {
    if k > 0 {
      SomeLoadedCountsPositive(candidates[1..], k - 1);
    }
  }

  /** Start-up with no policy loaded and no loadable module raises the fatal
      condition, whether or not the create-all item could be submitted. */
  lemma NothingLoadableIsFatal(m: Manager, candidates: seq<Candidate>, enqueueThrows: bool)
    requires PolicyCount(m) == 0
    requires forall k :: 0 <= k < |candidates| ==> !candidates[k].load.Loaded?
    ensures CreateAllPolicies(m, candidates, enqueueThrows).outcome == Raised(NoPoliciesLoaded)
  {
    NoneLoadedCountsZero(candidates);
  }

  /** One loadable module is enough for start-up to succeed once the
      create-all item runs, whatever the other candidates do. */
  lemma OneLoadableSuffices(m: Manager, candidates: seq<Candidate>, k: nat)
    requires k < |candidates| && candidates[k].load.Loaded?
    ensures CreateAllPolicies(m, candidates, false).outcome == Done
  {
    SomeLoadedCountsPositive(candidates, k);
  }

  /** Two policies created in an empty manager go to indexes 0 and 1. */
  lemma TwoCreatedFillZeroAndOne()
    ensures
      var created := CreatePolicy(Empty, Candidate("first", Loaded("first"), false)).next;
      CreatePolicy(created, Candidate("second", Loaded("second"), false)).next
        == Manager(map[0 := Live(Policy("first", {})), 1 := Live(Policy("second", {}))], {})
  {
    var created := CreatePolicy(Empty, Candidate("first", Loaded("first"), false)).next;
    assert FirstAvailableIndex({}) == 0;
    assert created == Manager(map[0 := Live(Policy("first", {}))], {});
    assert FirstAvailableIndex({0}) == 1;
  }

  /** `destroyPolicy` keeps every event bit. Once the only policy registered
      for an event is destroyed, the bit stays set and any later unregistration
      of that event is a no-op, so the firmware is not released by the manager. */
  lemma DestroyKeepsEventRegistered(m: Manager, index: PolicyIndex, teardownThrows: bool, e: PolicyEvent,
                                    other: PolicyIndex, firmwareEvents: set<PolicyEvent>)
    requires e in m.registeredEvents
    requires forall j :: RegisteredAt(m, j, e) ==> j == index
    ensures var d := DestroyPolicy(m, index, teardownThrows).next;
      && e in d.registeredEvents
      && UnregisterEvent(d, other, e, firmwareEvents) == Step(d, Done, [], [])
  {
    var d := DestroyPolicy(m, index, teardownThrows).next;
    forall j | j in d.policies
      ensures !RegisteredAt(d, j, e)
    {
      assert d.policies[j] == m.policies[j];
      if j != index {
        assert !RegisteredAt(m, j, e);
      }
    }
    assert !AnyPolicyRegistered(d, e);
  }
}
