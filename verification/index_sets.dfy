/** Facts about finite sets of policy indexes: the first free index, the least
    element, and the ascending order in which an ordered map visits its keys. */
module IndexSets {

  /** Every element is strictly smaller than every element after it. */
  predicate StrictlyIncreasing(r: seq<nat>)
  {
    forall i, j :: 0 <= i < j < |r| ==> r[i] < r[j]
  }

  /** The smallest index at or above `from` that `used` does not contain. */
  function FirstFreeFrom(used: set<nat>, from: nat): (r: nat)
    ensures from <= r
    ensures r !in used
    ensures forall j :: from <= j < r ==> j in used
    decreases used
  {
    if from !in used then from
    else FirstFreeFrom(used - {from}, from + 1)
  }

  /** The index a new policy is given: one not in use, and the lowest such. */
  function FirstAvailableIndex(used: set<nat>): (r: nat)
    ensures r !in used
    ensures forall j :: 0 <= j < r ==> j in used
  {
    FirstFreeFrom(used, 0)
  }

  /** A subset is no larger than the set that contains it. */
  lemma {:induction false} SubsetNoLarger(a: set<nat>, b: set<nat>)
    requires a <= b
    ensures |a| <= |b|
    decreases b
  {
    if b != {} {
      var x :| x in b;
      SubsetNoLarger(a - {x}, b - {x});
    }
  }

  /** `m` is in `s` and no element of `s` is smaller. */
  predicate IsLeast(m: nat, s: set<nat>)
  {
    m in s && forall x :: x in s ==> m <= x
  }

  lemma {:induction false} LeastExists(s: set<nat>)
    requires s != {}
    ensures exists m :: IsLeast(m, s)
    decreases s
  {
    var y :| y in s;
    var rest := s - {y};
    if rest == {} {
      assert s == {y};
      assert IsLeast(y, s);
    } else {
      LeastExists(rest);
      var m :| IsLeast(m, rest);
      var least := if y < m then y else m;
      assert IsLeast(least, s) by {
        forall x | x in s
          ensures least <= x
        {
          if x != y {
            assert x in rest;
          }
        }
      }
    }
  }

  /** The least element of a non-empty set of indexes. */
  function Least(s: set<nat>): (m: nat)
    requires s != {}
    ensures m in s
    ensures forall x :: x in s ==> m <= x
  {
    LeastExists(s);
    var m :| IsLeast(m, s);
    m
  }

  /** `r` lists the elements of `s` in ascending order, each once. */
  predicate Enumerates(r: seq<nat>, s: set<nat>)
  {
    && |r| == |s|
    && (forall k :: 0 <= k < |r| ==> r[k] in s)
    && (forall x :: x in s ==> x in r)
    && StrictlyIncreasing(r)
  }

  /** Putting the least element in front of an enumeration of the others
      enumerates the whole set. */
  lemma PrependLeast(m: nat, rest: seq<nat>, s: set<nat>)
    requires IsLeast(m, s)
    requires Enumerates(rest, s - {m})
    ensures Enumerates([m] + rest, s)
  {
    var r := [m] + rest;
    forall k | 0 <= k < |rest|
      ensures m < rest[k]
    {
      assert rest[k] in s - {m};
    }
    forall x | x in s
      ensures x in r
    {
      if x != m {
        assert x in s - {m};
      }
    }
    forall i, j | 0 <= i < j < |r|
      ensures r[i] < r[j]
    {
      assert r[j] == rest[j - 1];
      if i > 0 {
        assert r[i] == rest[i - 1];
      }
    }
  }

  /** The elements of `s` in ascending order, each once: the order in which an
      ordered map's iteration visits its keys. */
  function Ascending(s: set<nat>): (r: seq<nat>)
    ensures Enumerates(r, s)
    decreases s
  {
    if s == {} then []
    else
      var m := Least(s);
      var rest := Ascending(s - {m});
      PrependLeast(m, rest, s);
      [m] + rest
  }
}
