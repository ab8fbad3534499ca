/** The work item that delivers "passive table changed" to every policy.
    `ExecuteAsWritten` follows the code: it samples the number of map entries
    once and visits indexes 0 up to that count. `Execute` is the corrected
    delivery, which visits the keys present instead, so that a live policy
    above a gap left by an earlier destroy is still reached. */
module PassiveTableChanged {
  import opened IndexSets
  import opened PolicyManager
  import opened PolicyManagerProperties

  /** What one policy's handler comes to. An invalid-index condition raised
      by the handler is caught by the same clause as a failed lookup. */
  datatype HandlerOutcome = Handled | RaisedIndexInvalid | RaisedException

  /** What a run of the work item did: the indexes whose handler was called,
      in call order, and the indexes for which an error was logged. The
      manager is only read, so none is returned. */
  datatype Delivery = Delivery(invoked: seq<PolicyIndex>, logged: seq<PolicyIndex>)

  /** Visit `indexes` in order: look each one up, skip an invalid index
      without logging, call the handler of a live policy, and log a handler
      that raises and carry on with the next index. */
  function Dispatch(m: Manager, indexes: seq<PolicyIndex>, handler: PolicyIndex -> HandlerOutcome): (d: Delivery)
    ensures forall i: PolicyIndex :: i in d.invoked <==> i in indexes && IsLive(m, i)
    ensures forall i: PolicyIndex :: i in d.logged <==> i in d.invoked && handler(i) == RaisedException
    decreases |indexes|
  {
    if indexes == [] then Delivery([], [])
    else
      var rest := Dispatch(m, indexes[1..], handler);
      var i := indexes[0];
      assert forall j :: j in indexes <==> j == i || j in indexes[1..];
      match GetPolicyPtr(m, i)
      case Failure(_) => rest
      case Success(_) =>
        var logged := if handler(i) == RaisedException then [i] + rest.logged else rest.logged;
        Delivery([i] + rest.invoked, logged)
  }

  /** Visiting indexes in ascending order calls the handlers, and logs the
      failures, in ascending order, each index at most once. */
  lemma {:induction false} DispatchInOrder(m: Manager, indexes: seq<PolicyIndex>, handler: PolicyIndex -> HandlerOutcome)
    requires StrictlyIncreasing(indexes)
    ensures StrictlyIncreasing(Dispatch(m, indexes, handler).invoked)
    ensures StrictlyIncreasing(Dispatch(m, indexes, handler).logged)
    decreases |indexes|
  {
    if indexes != [] {
      var rest := Dispatch(m, indexes[1..], handler);
      DispatchInOrder(m, indexes[1..], handler);
      forall j | j in indexes[1..]
        ensures indexes[0] < j
      {
        var k :| 0 <= k < |indexes[1..]| && indexes[1..][k] == j;
        assert indexes[k + 1] == j;
      }
      forall k | 0 <= k < |rest.invoked|
        ensures indexes[0] < rest.invoked[k]
      {
        assert rest.invoked[k] in rest.invoked;
      }
      forall k | 0 <= k < |rest.logged|
        ensures indexes[0] < rest.logged[k]
      {
        assert rest.logged[k] in rest.logged;
      }
    }
  }

  /** The indexes 0 up to `count`, in order. */
  function Below(count: nat): (r: seq<PolicyIndex>)
    ensures |r| == count
    ensures forall k :: 0 <= k < count ==> r[k] == k
    ensures StrictlyIncreasing(r)
  {
    seq(count, k => k)
  }

  /** `execute` as written: the loop bound is the map size read once before
      the loop, so only live indexes below that size are reached. */
  function ExecuteAsWritten(m: Manager, handler: PolicyIndex -> HandlerOutcome): (d: Delivery)
    ensures forall i: PolicyIndex :: i in d.invoked <==> IsLive(m, i) && i < PolicyListCount(m)
    ensures forall i: PolicyIndex :: IsLive(m, i) && i >= PolicyListCount(m) ==> i !in d.invoked
    ensures forall i: PolicyIndex :: i in d.logged <==> i in d.invoked && handler(i) == RaisedException
    ensures StrictlyIncreasing(d.invoked) && StrictlyIncreasing(d.logged)
  {
    var indexes := Below(PolicyListCount(m));
    forall i: PolicyIndex | i < PolicyListCount(m)
      ensures i in indexes
    {
      assert indexes[i] == i;
    }
    DispatchInOrder(m, indexes, handler);
    Dispatch(m, indexes, handler)
  }

  /** The corrected `execute`: visit every key present when the item starts,
      in ascending order, so every live policy is reached exactly once. */
  function Execute(m: Manager, handler: PolicyIndex -> HandlerOutcome): (d: Delivery)
    ensures forall i: PolicyIndex :: i in d.invoked <==> IsLive(m, i)
    ensures forall i: PolicyIndex :: i in d.logged <==> IsLive(m, i) && handler(i) == RaisedException
    ensures StrictlyIncreasing(d.invoked) && StrictlyIncreasing(d.logged)
  {
    var keys := Ascending(m.policies.Keys);
    DispatchInOrder(m, keys, handler);
    Dispatch(m, keys, handler)
  }

  /** When no entry is null and the keys are exactly 0 up to the count, the
      code as written reaches every live policy, like the corrected item. */
  lemma AsWrittenAgreesWithoutGaps(m: Manager, handler: PolicyIndex -> HandlerOutcome)
    requires NoNulls(m)
    requires forall i: PolicyIndex :: i in m.policies ==> i < PolicyListCount(m)
    ensures ExecuteAsWritten(m, handler) == Execute(m, handler)
  {
    var a := ExecuteAsWritten(m, handler);
    var c := Execute(m, handler);
    forall x: nat
      ensures x in a.invoked <==> x in c.invoked
    {
      assert IsLive(m, x) ==> x < PolicyListCount(m);
    }
    StrictlyIncreasingSameElements(a.invoked, c.invoked);
    StrictlyIncreasingSameElements(a.logged, c.logged);
  }

  /** The tail of a strictly increasing sequence holds every element but the first. */
  lemma TailElements(a: seq<nat>)
    requires StrictlyIncreasing(a) && a != []
    ensures forall x :: x in a[1..] <==> x in a && x != a[0]
  {
    forall x | x in a[1..]
      ensures x != a[0]
    {
      var k :| 0 <= k < |a[1..]| && a[1..][k] == x;
      assert a[0] < a[k + 1];
    }
    assert a == [a[0]] + a[1..];
  }

  /** Two strictly increasing sequences with the same elements are equal. */
  lemma {:induction false} StrictlyIncreasingSameElements(a: seq<nat>, b: seq<nat>)
    requires StrictlyIncreasing(a) && StrictlyIncreasing(b)
    requires forall x :: x in a <==> x in b
    ensures a == b
    decreases |a|
  {
    assert a != [] ==> a[0] in a;
    assert b != [] ==> b[0] in b;
    if a != [] && b != [] {
      assert a[0] == b[0] by {
        assert a[0] in a && b[0] in b;
        var j :| 0 <= j < |b| && b[j] == a[0];
        var k :| 0 <= k < |a| && a[k] == b[0];
        assert a[0] <= a[k];
        assert b[0] <= b[j];
      }
      TailElements(a);
      TailElements(b);
      StrictlyIncreasingSameElements(a[1..], b[1..]);
      assert a == [a[0]] + a[1..];
      assert b == [b[0]] + b[1..];
    }
  }

  /** Two policies are created at indexes 0 and 1 and the one at 0 is
      destroyed: the map holds one entry, at key 1. The item as written
      visits only index 0 and never reaches the live policy; the corrected
      item delivers to it. */
  lemma AsWrittenMissesPolicyAboveGap()
    ensures
      var created := CreatePolicy(Empty, Candidate("first", Loaded("first"), false)).next;
      var both := CreatePolicy(created, Candidate("second", Loaded("second"), false)).next;
      var gap := DestroyPolicy(both, 0, false).next;
      var handler := (i: PolicyIndex) => Handled;
      && Valid(gap)
      && IsLive(gap, 1)
      && PolicyListCount(gap) == 1
      && ExecuteAsWritten(gap, handler).invoked == []
      && Execute(gap, handler).invoked == [1]
  {
    TwoCreatedFillZeroAndOne();
    var both := Manager(map[0 := Live(Policy("first", {})), 1 := Live(Policy("second", {}))], {});
    var gap := DestroyPolicy(both, 0, false).next;
    assert gap == Manager(map[1 := Live(Policy("second", {}))], {});
    SingleEntryAboveCount(gap, Policy("second", {}), (i: PolicyIndex) => Handled);
  }

  /** A manager whose only entry is a live policy at index 1: the item as
      written visits index 0 alone, the corrected item reaches index 1. */
  lemma SingleEntryAboveCount(m: Manager, p: Policy, handler: PolicyIndex -> HandlerOutcome)
    requires m.policies == map[1 := Live(p)]
    ensures ExecuteAsWritten(m, handler).invoked == []
    ensures Execute(m, handler).invoked == [1]
  {
    assert IsLive(m, 1) && |m.policies| == 1;
    StrictlyIncreasingSameElements(ExecuteAsWritten(m, handler).invoked, []);
    StrictlyIncreasingSameElements(Execute(m, handler).invoked, [1]);
  }
}
