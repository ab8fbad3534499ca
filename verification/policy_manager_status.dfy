/** The shape of the manager's status report: the global event list, then one
    entry per readable live policy, in index order, with its name and its
    registration status for every event. Only which children appear, and in
    what order, is modelled; the node construction itself is not. */
module ManagerStatus {
  import opened IndexSets
  import opened PolicyManager

  datatype EventValue = EventValue(event: PolicyEvent, registered: bool)

  /** One `policy_status` child. The index is not printed; it is kept so the
      report can be related to the map it was read from. */
  datatype PolicyStatus = PolicyStatus(index: PolicyIndex, name: string, eventValues: seq<EventValue>)

  datatype StatusReport = StatusReport(events: seq<PolicyEvent>, policies: seq<PolicyStatus>)

  predicate IndexesIncreasing(r: seq<PolicyStatus>)
  {
    forall i, j :: 0 <= i < j < |r| ==> r[i].index < r[j].index
  }

  /** The event types listed: every one below `eventCount` except the
      invalid event type 0, in ascending order. */
  function ListedEvents(eventCount: nat): (r: seq<PolicyEvent>)
    ensures forall e :: e in r <==> 0 < e < eventCount
    ensures StrictlyIncreasing(r)
  {
    if eventCount <= 1 then []
    else
      var r := seq(eventCount - 1, k => k + 1);
      forall e | 0 < e < eventCount
        ensures e in r
      {
        assert r[e - 1] == e;
      }
      r
  }

  /** `getEventsXmlForPolicy`: one value per listed event. */
  function EventValues(p: Policy, events: seq<PolicyEvent>): (r: seq<EventValue>)
    ensures |r| == |events|
    ensures forall k :: 0 <= k < |r| ==> r[k].event == events[k] && (r[k].registered <==> events[k] in p.events)
  {
    seq(|events|, k requires 0 <= k < |events| => EventValue(events[k], events[k] in p.events))
  }

  /** `s` is the status child the live, readable policy at `s.index` yields. */
  predicate Reports(m: Manager, s: PolicyStatus, events: seq<PolicyEvent>, unreadable: set<PolicyIndex>)
  {
    && IsLive(m, s.index)
    && s.index !in unreadable
    && s.name == m.policies[s.index].policy.name
    && s.eventValues == EventValues(m.policies[s.index].policy, events)
  }

  /** The `policy_status` children for the entries at `keys`, in that order;
      a null entry or one whose status cannot be read is left out. */
  function PolicyStatuses(m: Manager, keys: seq<PolicyIndex>, events: seq<PolicyEvent>, unreadable: set<PolicyIndex>)
    : (r: seq<PolicyStatus>)
    ensures |r| <= |keys|
    decreases |keys|
  {
    if keys == [] then []
    else
      var rest := PolicyStatuses(m, keys[1..], events, unreadable);
      var i := keys[0];
      if IsLive(m, i) && i !in unreadable then
        var p := m.policies[i].policy;
        [PolicyStatus(i, p.name, EventValues(p, events))] + rest
      else
        rest
  }

  /** Every child in `r` reports a live, readable policy found at one of `keys`. */
  predicate AllReport(m: Manager, r: seq<PolicyStatus>, keys: seq<PolicyIndex>, events: seq<PolicyEvent>,
                      unreadable: set<PolicyIndex>)
  {
    forall k :: 0 <= k < |r| ==> Reports(m, r[k], events, unreadable) && r[k].index in keys
  }

  /** Every child reports a live, readable policy found at one of the keys. */
  lemma {:induction false} PolicyStatusesSound(m: Manager, keys: seq<PolicyIndex>, events: seq<PolicyEvent>,
                                               unreadable: set<PolicyIndex>)
    ensures AllReport(m, PolicyStatuses(m, keys, events, unreadable), keys, events, unreadable)
    decreases |keys|
  {
    if keys != [] {
      var rest := PolicyStatuses(m, keys[1..], events, unreadable);
      PolicyStatusesSound(m, keys[1..], events, unreadable);
      var r := PolicyStatuses(m, keys, events, unreadable);
      var i := keys[0];
      if IsLive(m, i) && i !in unreadable {
        var p := m.policies[i].policy;
        assert r == [PolicyStatus(i, p.name, EventValues(p, events))] + rest;
      } else {
        assert r == rest;
      }
      forall k | 0 <= k < |r|
        ensures Reports(m, r[k], events, unreadable) && r[k].index in keys
      {
        if IsLive(m, keys[0]) && keys[0] !in unreadable {
          if k > 0 {
            assert r[k] == rest[k - 1];
          }
        } else {
          assert r[k] == rest[k];
        }
      }
    }
  }

  /** Every live, readable policy at one of `keys` has a child in `r`. */
  predicate AllCovered(m: Manager, r: seq<PolicyStatus>, keys: seq<PolicyIndex>, unreadable: set<PolicyIndex>)
  {
    forall i :: i in keys && IsLive(m, i) && i !in unreadable ==> exists k :: 0 <= k < |r| && r[k].index == i
  }

  /** Every live, readable policy at one of the keys gets a child. */
  lemma {:induction false} PolicyStatusesComplete(m: Manager, keys: seq<PolicyIndex>, events: seq<PolicyEvent>,
                                                  unreadable: set<PolicyIndex>)
    ensures AllCovered(m, PolicyStatuses(m, keys, events, unreadable), keys, unreadable)
    decreases |keys|
  {
    if keys != [] {
      var rest := PolicyStatuses(m, keys[1..], events, unreadable);
      PolicyStatusesComplete(m, keys[1..], events, unreadable);
      var r := PolicyStatuses(m, keys, events, unreadable);
      forall i | i in keys && IsLive(m, i) && i !in unreadable
        ensures exists k :: 0 <= k < |r| && r[k].index == i
      {
        if i == keys[0] {
          assert r[0].index == i;
        } else {
          assert i in keys[1..] by {
            var n :| 0 <= n < |keys| && keys[n] == i;
            assert keys[1..][n - 1] == i;
          }
          var k :| 0 <= k < |rest| && rest[k].index == i;
          if IsLive(m, keys[0]) && keys[0] !in unreadable {
            assert r[k + 1].index == i;
          } else {
            assert r[k].index == i;
          }
        }
      }
    }
  }

  /** Visiting the keys in ascending order gives the children in ascending
      index order. */
  lemma {:induction false} PolicyStatusesInKeyOrder(m: Manager, keys: seq<PolicyIndex>, events: seq<PolicyEvent>,
                                                    unreadable: set<PolicyIndex>)
    requires StrictlyIncreasing(keys)
    ensures IndexesIncreasing(PolicyStatuses(m, keys, events, unreadable))
    decreases |keys|
  {
    if keys != [] {
      var rest := PolicyStatuses(m, keys[1..], events, unreadable);
      PolicyStatusesInKeyOrder(m, keys[1..], events, unreadable);
      PolicyStatusesSound(m, keys[1..], events, unreadable);
      forall k | 0 <= k < |rest|
        ensures keys[0] < rest[k].index
      {
        var j :| 0 <= j < |keys[1..]| && keys[1..][j] == rest[k].index;
        assert keys[0] < keys[j + 1];
      }
      var r := PolicyStatuses(m, keys, events, unreadable);
      if IsLive(m, keys[0]) && keys[0] !in unreadable {
        assert r[1..] == rest && r[0].index == keys[0];
        forall a, b | 0 <= a < b < |r|
          ensures r[a].index < r[b].index
        {
          assert r[b] == rest[b - 1];
          if a > 0 {
            assert r[a] == rest[a - 1];
          }
        }
      } else {
        assert r == rest;
      }
    }
  }

  /** `getStatusAsXml`: never fails; a policy whose status cannot be read is
      silently omitted. */
  function GetStatusAsXml(m: Manager, eventCount: nat, unreadable: set<PolicyIndex>): (r: StatusReport)
    ensures forall e :: e in r.events <==> 0 < e < eventCount
    ensures StrictlyIncreasing(r.events)
    ensures forall k :: 0 <= k < |r.policies| ==>
      && IsLive(m, r.policies[k].index)
      && r.policies[k].index !in unreadable
      && r.policies[k].name == m.policies[r.policies[k].index].policy.name
      && |r.policies[k].eventValues| == |r.events|
      && forall n :: 0 <= n < |r.events| ==>
           r.policies[k].eventValues[n].event == r.events[n]
           && (r.policies[k].eventValues[n].registered <==> RegisteredAt(m, r.policies[k].index, r.events[n]))
    ensures forall i :: IsLive(m, i) && i !in unreadable ==> exists k :: 0 <= k < |r.policies| && r.policies[k].index == i
    ensures IndexesIncreasing(r.policies)
  {
    var events := ListedEvents(eventCount);
    var keys := Ascending(m.policies.Keys);
    PolicyStatusesSound(m, keys, events, unreadable);
    PolicyStatusesComplete(m, keys, events, unreadable);
    PolicyStatusesInKeyOrder(m, keys, events, unreadable);
    StatusReport(events, PolicyStatuses(m, keys, events, unreadable))
  }
}
