// Child lists of document nodes: linked in both directions, edited in place.
module DomList {
  import opened Lists

  datatype NodeKind = DocumentNode | ElementNode | TextNode

  class TiXmlNode {
    const kind: NodeKind
    var value: string
    var parent: TiXmlNode?
    var firstChild: TiXmlNode?
    var lastChild: TiXmlNode?
    var prev: TiXmlNode?
    var next: TiXmlNode?
    ghost var children: seq<TiXmlNode>

    constructor (kind: NodeKind, value: string)
      ensures this.kind == kind && this.value == value && parent == null && children == [] && Linked()
    {
      this.kind := kind;
      this.value := value;
      parent, firstChild, lastChild, prev, next := null, null, null, null, null;
      children := [];
    }

    // The chains from firstChild along next and from lastChild along prev both run over the children.
    ghost predicate Linked()
      reads this, children
    {
      && this !in children
      && Distinct(children)
      && firstChild == (if children == [] then null else children[0])
      && lastChild == (if children == [] then null else children[|children| - 1])
      && forall i :: 0 <= i < |children| ==> LinkedAt(i)
    }

    ghost predicate LinkedAt(i: nat)
      requires i < |children|
      reads this, children
    {
      && children[i].parent == this
      && children[i].prev == (if i == 0 then null else children[i - 1])
      && children[i].next == (if i + 1 == |children| then null else children[i + 1])
    }

    // Where a child stands.
    ghost function IndexOf(child: TiXmlNode): (i: nat)
      requires child in children
      reads this
      ensures i < |children| && children[i] == child
    {
      var i :| 0 <= i < |children| && children[i] == child;
      i
    }

    // What an insertion does to the pointers of the old children: those on either side of the gap point to node.
    static twostate predicate InsertedAt(kids: seq<TiXmlNode>, i: nat, new node: TiXmlNode, j: nat)
      requires j < |kids|
      reads kids
    {
      var kid := kids[j];
      && kid.parent == old(kid.parent)
      && kid.next == (if j + 1 == i then node else old(kid.next))
      && kid.prev == (if j == i then node else old(kid.prev))
    }

    twostate lemma Inserted(i: nat, new node: TiXmlNode)
      requires old(Linked()) && i <= |old(children)| && node !in old(children) && node != this
      requires children == old(children[..i]) + [node] + old(children[i..])
      requires forall j :: 0 <= j < |old(children)| ==> InsertedAt(old(children), i, node, j)
      requires node.parent == this
      requires node.prev == (if i == 0 then null else old(children)[i - 1])
      requires node.next == (if i == |old(children)| then null else old(children)[i])
      requires firstChild == children[0] && lastChild == children[|children| - 1]
      ensures Linked()
    {
      DistinctInserted(old(children), i, node);
      hide Distinct;
      forall k | 0 <= k < |children|
        ensures LinkedAt(k)
      {
        if k != i {
          var j := if k < i then k else k - 1;
          assert old(LinkedAt(j)) && InsertedAt(old(children), i, node, j);
        }
      }
    }

    // What taking child i out, for node or for nothing, does to the pointers of the other old children.
    static twostate predicate ClosedAt(kids: seq<TiXmlNode>, i: nat, new before: TiXmlNode?, new after: TiXmlNode?,
                                       j: nat)
      requires j < |kids|
      reads kids
    {
      var kid := kids[j];
      && kid.parent == old(kid.parent)
      && kid.next == (if j + 1 == i then after else old(kid.next))
      && kid.prev == (if j == i + 1 then before else old(kid.prev))
    }

    twostate lemma Replaced(i: nat, new node: TiXmlNode)
      requires old(Linked()) && i < |old(children)| && node !in old(children) && node != this
      requires children == old(children)[i := node]
      requires forall j :: 0 <= j < |old(children)| && j != i ==> ClosedAt(old(children), i, node, node, j)
      requires node.parent == this
      requires node.prev == (if i == 0 then null else old(children)[i - 1])
      requires node.next == (if i + 1 == |old(children)| then null else old(children)[i + 1])
      requires firstChild == children[0] && lastChild == children[|children| - 1]
      ensures Linked()
    {
      DistinctUpdated(old(children), i, node);
      hide Distinct;
      forall k | 0 <= k < |children|
        ensures LinkedAt(k)
      {
        if k != i {
          assert old(LinkedAt(k)) && ClosedAt(old(children), i, node, node, k);
        }
      }
    }

    twostate lemma Removed(i: nat)
      requires old(Linked()) && i < |old(children)|
      requires children == old(children[..i]) + old(children[i + 1..])
      requires var before := if i == 0 then null else old(children)[i - 1];
        var after := if i + 1 == |old(children)| then null else old(children)[i + 1];
        && (forall j :: 0 <= j < |old(children)| && j != i ==> ClosedAt(old(children), i, before, after, j))
        && firstChild == (if i == 0 then after else old(firstChild))
        && lastChild == (if i + 1 == |old(children)| then before else old(lastChild))
      ensures Linked()
    {
      DistinctRemoved(old(children), i);
      hide Distinct;
      var before := if i == 0 then null else old(children)[i - 1];
      var after := if i + 1 == |old(children)| then null else old(children)[i + 1];
      forall k | 0 <= k < |children|
        ensures LinkedAt(k)
      {
        var j := if k < i then k else k + 1;
        assert old(LinkedAt(j)) && ClosedAt(old(children), i, before, after, j);
      }
    }

    // Nothing but the links among the children changes: this node keeps its value and its own place, and the nodes
    // keep their values and their own lists.
    twostate predicate InsidesKept(nodes: seq<TiXmlNode>)
      reads this, nodes
    {
      && value == old(value) && parent == old(parent) && prev == old(prev) && next == old(next)
      && forall c :: c in nodes ==>
        c.value == old(c.value) && c.children == old(c.children)
        && c.firstChild == old(c.firstChild) && c.lastChild == old(c.lastChild)
    }

    // No child of this node is top or stands in its list.
    ghost predicate Clear(top: TiXmlNode)
      reads this, top
    {
      forall g :: g in children ==> g != top && g !in top.children
    }

    // An edit of this list leaves the lists one level down as they were.
    twostate lemma BelowStays(nodes: seq<TiXmlNode>)
      requires InsidesKept(nodes)
      requires forall c, g :: c in nodes && old(c.Clear(this)) && c.Clear(this) && g in c.children ==>
        g.parent == old(g.parent) && g.prev == old(g.prev) && g.next == old(g.next)
      ensures forall c :: c in nodes && old(c.Linked() && c.Clear(this)) && c.Clear(this) ==> c.Linked()
    {
      hide Distinct;
      forall c | c in nodes && old(c.Linked() && c.Clear(this)) && c.Clear(this)
        ensures c.Linked()
      {
        forall i | 0 <= i < |c.children|
          ensures c.LinkedAt(i)
        {
          assert old(c.LinkedAt(i)) && c.children[i] in c.children;
        }
      }
    }

    method LinkEndChild(node: TiXmlNode) returns (r: TiXmlNode?)
      requires Linked() && node != this && node !in children
      modifies this, node, children
      ensures Linked()
      ensures node.kind == DocumentNode ==> r == null && children == old(children)
      ensures node.kind != DocumentNode ==> r == node && children == old(children) + [node]
      ensures InsidesKept(old(children))
      ensures forall c :: c in old(children) + [node] && old(c.Linked() && c.Clear(this)) && node !in c.children ==>
        c.Linked() && c.Clear(this)
      ensures node.value == old(node.value) && node.children == old(node.children)
      ensures node.firstChild == old(node.firstChild) && node.lastChild == old(node.lastChild)
    {
      if node.kind == DocumentNode {
        return null;
      }
      hide Distinct;
      ghost var kids := children;
      assert kids != [] ==> LinkedAt(|kids| - 1);
      node.parent := this;
      node.prev := lastChild;
      node.next := null;
      if lastChild != null {
        lastChild.next := node;
      } else {
        firstChild := node;
      }
      lastChild := node;
      children := children + [node];
      assert Linked() by {
        forall j | 0 <= j < |kids|
          ensures InsertedAt(kids, |kids|, node, j)
        {
          if j + 1 != |kids| {
            Apart(kids, j, |kids| - 1);
          }
        }
        assert children == kids[..|kids|] + [node] + kids[|kids|..];
        Inserted(|kids|, node);
      }
      BelowStays(kids + [node]);
      r := node;
    }

    method LinkBefore(ghost i: nat, beforeThis: TiXmlNode, node: TiXmlNode)
      requires Linked() && i < |children| && children[i] == beforeThis && node !in children && node != this
      modifies this, node, children
      ensures Linked() && children == old(children[..i]) + [node] + old(children[i..])
      ensures InsidesKept(old(children + [node]))
    {
      hide Distinct;
      ghost var kids := children;
      assert LinkedAt(i);
      node.parent := this;
      node.next := beforeThis;
      node.prev := beforeThis.prev;
      if beforeThis.prev != null {
        beforeThis.prev.next := node;
      } else {
        firstChild := node;
      }
      beforeThis.prev := node;
      children := children[..i] + [node] + children[i..];
      forall j | 0 <= j < |kids|
        ensures InsertedAt(kids, i, node, j)
      {
        Neighbours(kids, i, j);
      }
      Inserted(i, node);
    }

    // A copy of addThis goes in front of a child; its own children are copied with it and are not looked at here.
    method InsertBeforeChild(beforeThis: TiXmlNode?, addThis: TiXmlNode) returns (r: TiXmlNode?)
      requires Linked() && (beforeThis != null && beforeThis.parent == this ==> beforeThis in children)
      modifies this, children
      ensures Linked()
      ensures beforeThis == null || old(beforeThis.parent) != this || addThis.kind == DocumentNode ==>
        r == null && children == old(children)
      ensures beforeThis != null && old(beforeThis.parent) == this && addThis.kind != DocumentNode ==>
        r != null && fresh(r) && r.kind == addThis.kind && r.value == old(addThis.value)
        && var i := old(IndexOf(beforeThis)); children == old(children[..i]) + [r] + old(children[i..])
      ensures InsidesKept(old(children))
      ensures forall c :: c in old(children) && old(c.Linked() && c.Clear(this)) ==> c.Linked() && c.Clear(this)
    {
      if beforeThis == null || beforeThis.parent != this || addThis.kind == DocumentNode {
        return null;
      }
      ghost var kids := children;
      hide Distinct, Linked, LinkedAt;
      var node := new TiXmlNode(addThis.kind, addThis.value);
      LinkBefore(IndexOf(beforeThis), beforeThis, node);
      BelowStays(kids);
      r := node;
    }

    method LinkAfter(ghost i: nat, afterThis: TiXmlNode, node: TiXmlNode)
      requires Linked() && i < |children| && children[i] == afterThis && node !in children && node != this
      modifies this, node, children
      ensures Linked() && children == old(children[..i + 1]) + [node] + old(children[i + 1..])
      ensures InsidesKept(old(children + [node]))
    {
      hide Distinct;
      ghost var kids, gap := children, i + 1;
      assert LinkedAt(i);
      node.parent := this;
      node.prev := afterThis;
      node.next := afterThis.next;
      if afterThis.next != null {
        afterThis.next.prev := node;
      } else {
        lastChild := node;
      }
      afterThis.next := node;
      children := children[..i + 1] + [node] + children[i + 1..];
      forall j | 0 <= j < |kids|
        ensures InsertedAt(kids, gap, node, j)
      {
        Neighbours(kids, i, j);
      }
      Inserted(gap, node);
    }

    method InsertAfterChild(afterThis: TiXmlNode?, addThis: TiXmlNode) returns (r: TiXmlNode?)
      requires Linked() && (afterThis != null && afterThis.parent == this ==> afterThis in children)
      modifies this, children
      ensures Linked()
      ensures afterThis == null || old(afterThis.parent) != this || addThis.kind == DocumentNode ==>
        r == null && children == old(children)
      ensures afterThis != null && old(afterThis.parent) == this && addThis.kind != DocumentNode ==>
        r != null && fresh(r) && r.kind == addThis.kind && r.value == old(addThis.value)
        && var i := old(IndexOf(afterThis)); children == old(children[..i + 1]) + [r] + old(children[i + 1..])
      ensures InsidesKept(old(children))
      ensures forall c :: c in old(children) && old(c.Linked() && c.Clear(this)) ==> c.Linked() && c.Clear(this)
    {
      if afterThis == null || afterThis.parent != this || addThis.kind == DocumentNode {
        return null;
      }
      ghost var kids := children;
      hide Distinct, Linked, LinkedAt;
      var node := new TiXmlNode(addThis.kind, addThis.value);
      LinkAfter(IndexOf(afterThis), afterThis, node);
      BelowStays(kids);
      r := node;
    }

    method LinkInstead(ghost i: nat, replaceThis: TiXmlNode, node: TiXmlNode)
      requires Linked() && i < |children| && children[i] == replaceThis && node !in children && node != this
      modifies this, node, children
      ensures Linked() && children == old(children)[i := node]
      ensures InsidesKept(old(children + [node]))
    {
      hide Distinct;
      ghost var kids := children;
      assert LinkedAt(i);
      assert i + 1 < |kids| ==> kids[i + 1] != replaceThis && (i > 0 ==> kids[i + 1] != kids[i - 1]) by {
        Neighbours(kids, i, if i + 1 < |kids| then i + 1 else i);
      }
      node.next := replaceThis.next;
      node.prev := replaceThis.prev;
      if replaceThis.next != null {
        replaceThis.next.prev := node;
      } else {
        lastChild := node;
      }
      if replaceThis.prev != null {
        replaceThis.prev.next := node;
      } else {
        firstChild := node;
      }
      node.parent := this;
      children := children[i := node];
      forall j | 0 <= j < |kids| && j != i
        ensures ClosedAt(kids, i, node, node, j)
      {
        Neighbours(kids, i, j);
      }
      Replaced(i, node);
    }

    method ReplaceChild(replaceThis: TiXmlNode?, withThis: TiXmlNode) returns (r: TiXmlNode?)
      requires Linked() && (replaceThis != null && replaceThis.parent == this ==> replaceThis in children)
      modifies this, children
      ensures Linked()
      ensures replaceThis == null || old(replaceThis.parent) != this || withThis.kind == DocumentNode ==>
        r == null && children == old(children)
      ensures replaceThis != null && old(replaceThis.parent) == this && withThis.kind != DocumentNode ==>
        r != null && fresh(r) && r.kind == withThis.kind && r.value == old(withThis.value)
        && children == old(children)[old(IndexOf(replaceThis)) := r]
      ensures InsidesKept(old(children))
      ensures forall c :: c in old(children) && old(c.Linked() && c.Clear(this)) ==> c.Linked() && c.Clear(this)
    {
      if replaceThis == null || replaceThis.parent != this || withThis.kind == DocumentNode {
        return null;
      }
      ghost var kids := children;
      hide Distinct, Linked, LinkedAt;
      var node := new TiXmlNode(withThis.kind, withThis.value);
      LinkInstead(IndexOf(replaceThis), replaceThis, node);
      BelowStays(kids);
      r := node;
    }

    // The removed node is freed.
    method RemoveChild(removeThis: TiXmlNode?) returns (ok: bool)
      requires Linked() && (removeThis != null && removeThis.parent == this ==> removeThis in children)
      modifies this, children
      ensures Linked()
      ensures ok <==> removeThis != null && old(removeThis.parent) == this
      ensures !ok ==> children == old(children)
      ensures ok ==> var i := old(IndexOf(removeThis)); children == old(children[..i]) + old(children[i + 1..])
      ensures InsidesKept(old(children))
      ensures forall c :: c in old(children) && old(c.Linked() && c.Clear(this)) ==> c.Linked() && c.Clear(this)
    {
      if removeThis == null {
        return false;
      }
      if removeThis.parent != this {
        return false;
      }
      hide Distinct;
      ghost var i, kids := IndexOf(removeThis), children;
      assert LinkedAt(i);
      if removeThis.next != null {
        removeThis.next.prev := removeThis.prev;
      } else {
        lastChild := removeThis.prev;
      }
      if removeThis.prev != null {
        removeThis.prev.next := removeThis.next;
      } else {
        firstChild := removeThis.next;
      }
      children := children[..i] + children[i + 1..];
      ghost var before := if i == 0 then null else kids[i - 1];
      ghost var after := if i + 1 == |kids| then null else kids[i + 1];
      assert Linked() by {
        forall j | 0 <= j < |kids| && j != i
          ensures ClosedAt(kids, i, before, after, j)
        {
          Neighbours(kids, i, j);
        }
        Removed(i);
      }
      BelowStays(kids);
      ok := true;
    }

    // The first child of that value, along next.
    method FirstChild(value: string) returns (r: TiXmlNode?)
      requires Linked()
      ensures r == null ==> forall i :: 0 <= i < |children| ==> children[i].value != value
      ensures r != null ==> r in children && r.value == value
      ensures r != null ==> forall i :: 0 <= i < IndexOf(r) ==> children[i].value != value
    {
      r := firstChild;
      ghost var at := 0;
      while r != null
        invariant 0 <= at <= |children| && r == if at == |children| then null else children[at]
        invariant forall i :: 0 <= i < at ==> children[i].value != value
        decreases |children| - at
      {
        assert LinkedAt(at);
        if r.value == value {
          return;
        }
        r, at := r.next, at + 1;
      }
    }

    // The last child of that value, along prev.
    method LastChild(value: string) returns (r: TiXmlNode?)
      requires Linked()
      ensures r == null ==> forall i :: 0 <= i < |children| ==> children[i].value != value
      ensures r != null ==> r in children && r.value == value
      ensures r != null ==> forall i :: IndexOf(r) < i < |children| ==> children[i].value != value
    {
      r := lastChild;
      ghost var at := |children|;
      while r != null
        invariant 0 <= at <= |children| && r == if at == 0 then null else children[at - 1]
        invariant forall i :: at <= i < |children| ==> children[i].value != value
        decreases at
      {
        assert LinkedAt(at - 1);
        if r.value == value {
          return;
        }
        r, at := r.prev, at - 1;
      }
    }
  }
}
