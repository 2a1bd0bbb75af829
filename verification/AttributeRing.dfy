// The attributes of an element: a ring through a sentinel.
module AttributeRing {
  import opened Lists

  class TiXmlAttribute {
    var name: string
    var value: string
    var prev: TiXmlAttribute?
    var next: TiXmlAttribute?

    constructor ()
      ensures name == "" && value == "" && prev == null && next == null
    {
      name, value, prev, next := "", "", null, null;
    }
  }

  // The place behind place k in a ring of n.
  function Follow(k: nat, n: nat): nat
    requires k < n
  {
    if k + 1 == n then 0 else k + 1
  }

  class TiXmlAttributeSet {
    const sentinel: TiXmlAttribute
    ghost var items: seq<TiXmlAttribute>

    // The sentinel and the attributes, in order.
    ghost function Ring(): seq<TiXmlAttribute>
      reads this
    {
      [sentinel] + items
    }

    ghost predicate LinkedAt(i: nat)
      requires i < |Ring()|
      reads this, Ring()
    {
      var r := Ring();
      r[i].next == r[Follow(i, |r|)] && r[i].prev == r[if i == 0 then |r| - 1 else i - 1]
    }

    // Both chains run around the ring, and no attribute occurs twice.
    ghost predicate Linked()
      reads this, Ring()
    {
      && Distinct(Ring())
      && forall i :: 0 <= i < |Ring()| ==> LinkedAt(i)
    }

    ghost predicate UniqueNames()
      reads this, items
    {
      forall i, j :: 0 <= i < j < |items| ==> items[i].name != items[j].name
    }

    constructor ()
      ensures Linked() && items == [] && fresh(sentinel)
    {
      var s := new TiXmlAttribute();
      sentinel := s;
      items := [];
      new;
      sentinel.next := sentinel;
      sentinel.prev := sentinel;
    }

    // Walks along next until it is back at the sentinel.
    method Find(name: string) returns (node: TiXmlAttribute?)
      requires Linked()
      ensures node == null <==> forall i :: 0 <= i < |items| ==> items[i].name != name
      ensures node != null ==> node in items && node.name == name
    {
      assert LinkedAt(0);
      node := sentinel.next;
      ghost var at := 1;
      while node != sentinel
        invariant 1 <= at <= |Ring()| && node == (if at == |Ring()| then sentinel else Ring()[at])
        invariant forall i :: 0 <= i < at - 1 ==> items[i].name != name
        decreases |Ring()| - at
      {
        assert LinkedAt(at);
        if node.name == name {
          return;
        }
        node, at := node.next, at + 1;
      }
      node := null;
    }

    method Add(addMe: TiXmlAttribute)
      requires Linked() && addMe !in Ring()
      modifies this, addMe, Ring()
      ensures Linked() && items == old(items) + [addMe]
      ensures forall a :: a in Ring() ==> a.name == old(a.name) && a.value == old(a.value)
    {
      assert LinkedAt(0) && LinkedAt(|Ring()| - 1);
      ghost var last := |Ring()| - 1;
      addMe.next := sentinel;
      addMe.prev := sentinel.prev;
      sentinel.prev.next := addMe;
      sentinel.prev := addMe;
      DistinctAdded(Ring(), addMe);
      assert [sentinel] + (items + [addMe]) == Ring() + [addMe];
      items := items + [addMe];
      forall i | 0 <= i < |Ring()|
        ensures LinkedAt(i)
      {
        assert i <= last ==> old(LinkedAt(i));
      }
    }

    // What taking out the attribute at place k of the ring does to the pointers of the others.
    static twostate predicate ClosedAt(ring: seq<TiXmlAttribute>, k: nat, new before: TiXmlAttribute,
                                       new after: TiXmlAttribute, i: nat)
      requires i < |ring| && k < |ring|
      reads ring
    {
      && ring[i].next == (if i == k - 1 then after else old(ring[i].next))
      && ring[i].prev == (if i == Follow(k, |ring|) then before else old(ring[i].prev))
    }

    twostate lemma Removed(k: nat, new before: TiXmlAttribute, new after: TiXmlAttribute)
      requires old(Linked()) && 1 <= k < |old(Ring())|
      requires Ring() == old(Ring())[..k] + old(Ring())[k + 1..]
      requires before == old(Ring())[k - 1] && after == old(Ring())[Follow(k, |old(Ring())|)]
      requires forall i :: 0 <= i < |old(Ring())| && i != k ==> ClosedAt(old(Ring()), k, before, after, i)
      ensures Linked()
    {
      DistinctRemoved(old(Ring()), k);
      hide Distinct;
      forall i | 0 <= i < |Ring()|
        ensures LinkedAt(i)
      {
        var j := if i < k then i else i + 1;
        assert old(LinkedAt(j)) && ClosedAt(old(Ring()), k, before, after, j);
      }
    }

    method Unlink(node: TiXmlAttribute, ghost at: nat)
      requires Linked() && 1 <= at < |Ring()| && node == Ring()[at]
      modifies this, Ring()
      ensures Linked() && items == old(items)[..at - 1] + old(items)[at..] && node.next == null && node.prev == null
      ensures forall a :: a in old(Ring()) ==> a.name == old(a.name) && a.value == old(a.value)
    {
      hide Distinct;
      ghost var ring := Ring();
      assert LinkedAt(at);
      ghost var last, follow := at - 1, Follow(at, |ring|);
      ghost var before := ring[last];
      ghost var after := ring[follow];
      Apart(ring, at, last);
      Apart(ring, at, follow);
      node.prev.next := node.next;
      node.next.prev := node.prev;
      node.next := null;
      node.prev := null;
      items := items[..at - 1] + items[at..];
      assert Ring() == ring[..at] + ring[at + 1..];
      forall i | 0 <= i < |ring| && i != at
        ensures ClosedAt(ring, at, before, after, i)
      {
        Apart(ring, at, i);
        Apart(ring, last, i);
        Apart(ring, follow, i);
      }
      Removed(at, before, after);
    }

    // Unlinks an attribute that is in the ring; any other is left alone.
    method Remove(removeMe: TiXmlAttribute)
      requires Linked() && removeMe != sentinel
      modifies this, Ring()
      ensures Linked()
      ensures removeMe !in old(items) ==> items == old(items)
      ensures forall i :: 0 <= i < |old(items)| && old(items)[i] == removeMe ==>
        items == old(items)[..i] + old(items)[i + 1..] && removeMe.next == null && removeMe.prev == null
      ensures forall a :: a in old(Ring()) ==> a.name == old(a.name) && a.value == old(a.value)
    {
      assert LinkedAt(0);
      var node := sentinel.next;
      ghost var at := 1;
      while node != sentinel
        invariant 1 <= at <= |Ring()| && node == (if at == |Ring()| then sentinel else Ring()[at])
        invariant forall i :: 0 <= i < at - 1 ==> items[i] != removeMe
        modifies {}
        decreases |Ring()| - at
      {
        assert LinkedAt(at);
        if node == removeMe {
          break;
        }
        node, at := node.next, at + 1;
      }
      if node != sentinel {
        ghost var ring := Ring();
        forall i | 0 <= i < |items| && items[i] == removeMe
          ensures i == at - 1
        {
          assert ring[i + 1] == ring[at];
        }
        Unlink(node, at);
      }
    }

    // The attribute of that name, made and added when there is none: names stay unique.
    method FindOrCreate(name: string) returns (attrib: TiXmlAttribute)
      requires Linked() && UniqueNames()
      modifies this, Ring()
      ensures Linked() && UniqueNames() && attrib in items && attrib.name == name
      ensures if exists i :: 0 <= i < |old(items)| && old(items[i].name) == name
        then items == old(items)
        else items == old(items) + [attrib] && fresh(attrib) && attrib.value == ""
      ensures forall a :: a in old(items) ==> a.name == old(a.name) && a.value == old(a.value)
    {
      var found := Find(name);
      if found != null {
        return found;
      }
      attrib := new TiXmlAttribute();
      Add(attrib);
      label Added:
      attrib.name := name;
      forall i | 0 <= i < |Ring()|
        ensures LinkedAt(i)
      {
        assert old@Added(LinkedAt(i));
      }
    }
  }
}
