// Lists without repeats, and counts of sets that differ in one member.
module Lists {

  ghost predicate Distinct<T>(s: seq<T>) {
    forall i, j :: 0 <= i < j < |s| ==> s[i] != s[j]
  }

  lemma Apart<T>(s: seq<T>, i: nat, j: nat)
    requires Distinct(s) && i < |s| && j < |s|
    ensures i != j ==> s[i] != s[j]
  {
  }

  lemma DistinctAdded<T>(s: seq<T>, x: T)
    requires Distinct(s)
    ensures x !in s ==> Distinct(s + [x])
  {
  }

  lemma DistinctInserted<T>(s: seq<T>, k: nat, x: T)
    requires Distinct(s) && k <= |s| && x !in s
    ensures Distinct(s[..k] + [x] + s[k..])
  {
    var r := s[..k] + [x] + s[k..];
    forall i, j | 0 <= i < j < |r|
      ensures r[i] != r[j]
    {
      if i != k && j != k {
        Apart(s, if i < k then i else i - 1, if j < k then j else j - 1);
      }
    }
  }

  lemma DistinctUpdated<T>(s: seq<T>, k: nat, x: T)
    requires Distinct(s) && k < |s| && x !in s
    ensures Distinct(s[k := x])
  {
  }

  lemma DistinctRemoved<T>(s: seq<T>, k: nat)
    requires Distinct(s) && k < |s|
    ensures Distinct(s[..k] + s[k + 1..])
  {
    var r := s[..k] + s[k + 1..];
    forall i, j | 0 <= i < j < |r|
      ensures r[i] != r[j]
    {
      Apart(s, if i < k then i else i + 1, if j < k then j else j + 1);
    }
  }

  // A member away from place i is neither the one there nor its neighbours, unless it stands next to it.
  lemma Neighbours<T>(s: seq<T>, i: nat, k: nat)
    requires Distinct(s) && i < |s| && k < |s|
    ensures k != i ==> s[k] != s[i]
    ensures i > 0 && k != i - 1 ==> s[k] != s[i - 1]
    ensures i + 1 < |s| && k != i + 1 ==> s[k] != s[i + 1]
  {
  }

  function RemoveFirst(lockers: seq<nat>, t: nat): seq<nat> {
    if lockers == [] then []
    else if lockers[0] == t then lockers[1..]
    else [lockers[0]] + RemoveFirst(lockers[1..], t)
  }

  lemma {:induction false} RemoveFirstIs(lockers: seq<nat>, t: nat)
    requires Distinct(lockers)
    ensures Distinct(RemoveFirst(lockers, t))
    ensures forall u :: u in RemoveFirst(lockers, t) <==> u in lockers && u != t
  {
    if lockers != [] && lockers[0] != t {
      RemoveFirstIs(lockers[1..], t);
      var rest := RemoveFirst(lockers[1..], t);
      assert forall u :: u in lockers <==> u == lockers[0] || u in lockers[1..];
      assert lockers[0] !in lockers[1..];
    } else if lockers != [] {
      assert lockers[0] !in lockers[1..];
      assert forall u :: u in lockers <==> u == lockers[0] || u in lockers[1..];
    }
  }

  lemma Without(a: set<nat>, t: nat)
    ensures |a - {t}| == |a| - (if t in a then 1 else 0)
  {
    if t in a {
      assert a == (a - {t}) + {t};
    } else {
      assert a == a - {t};
    }
  }

  lemma CountsDiffer(a: set<nat>, b: set<nat>, t: nat)
    requires forall u :: u != t ==> (u in a <==> u in b)
    ensures |a| - (if t in a then 1 else 0) == |b| - (if t in b then 1 else 0)
  {
    assert a - {t} == b - {t};
    Without(a, t);
    Without(b, t);
  }

  function Unit(b: bool): int {
    if b then 1 else 0
  }
}
