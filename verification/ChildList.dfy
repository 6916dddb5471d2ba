/**
 The doubly linked list of children of a TinyXML node.
 */
module ChildList {
  import opened Sequences

  class XmlNode {
    const isDocument: bool
    var parent: XmlNode?
    var firstChild: XmlNode?
    var lastChild: XmlNode?
    var prev: XmlNode?
    var next: XmlNode?
    /** The children in order. */
    ghost var children: seq<XmlNode>

    constructor (isDocument: bool)
      ensures this.isDocument == isDocument && parent == null && prev == null && next == null
      ensures firstChild == null && lastChild == null && children == []
    {
      this.isDocument := isDocument;
      parent, firstChild, lastChild, prev, next := null, null, null, null, null;
      children := [];
    }

    /**
     The forward chain from `firstChild` is `children`, the backward chain from `lastChild` is
     its reverse, and every child has this node as its parent.
     */
    ghost predicate Valid()
      reads this, children
    {
      && NoDup(children) && this !in children
      && firstChild == At(children, 0) && lastChild == At(children, |children| - 1)
      && forall i :: 0 <= i < |children| ==> Linked(i)
    }

    ghost predicate Linked(i: nat)
      requires i < |children|
      reads this, children
    {
      var c := children[i];
      c.parent == this && c.prev == At(children, i - 1) && c.next == At(children, i + 1)
    }

    lemma Position(c: XmlNode) returns (i: nat)
      requires Valid() && c in children
      ensures i < |children| && children[i] == c && Linked(i)
    {
      i :| 0 <= i < |children| && children[i] == c;
    }

    lemma Orphan(c: XmlNode)
      requires Valid() && c.parent != this
      ensures c !in children
    {
      if c in children {
        var i := Position(c);
      }
    }

    /** LinkEndChild: a document is refused. */
    method LinkEndChild(node: XmlNode) returns (r: XmlNode?)
      requires Valid() && node != this && node !in children && (node.parent == null || node.parent == this)
      modifies this`firstChild, this`lastChild, this`children, children`next, node`parent, node`prev, node`next
      ensures Valid()
      ensures r == if node.isDocument then null else node
      ensures children == if node.isDocument then old(children) else old(children) + [node]
    {
      if node.isDocument {
        return null;
      }
      node.parent := this;
      node.prev := lastChild;
      node.next := null;
      if lastChild != null {
        lastChild.next := node;
      } else {
        firstChild := node;
      }
      lastChild := node;
      children := children + [node];
      forall j | 0 <= j < |children| ensures Linked(j) {
        assert j < |children| - 1 ==> old(Linked(j));
      }
      r := node;
    }

    /** A node spliced in between its neighbours leaves the list well formed. */
    twostate lemma InsertedIsValid(i: nat, new node: XmlNode)
      requires old(Valid()) && i <= |old(children)| && node !in old(children) && node != this
      requires children == Inserted(old(children), i, node)
      requires node.parent == this && node.prev == At(old(children), i - 1) && node.next == At(old(children), i)
      requires firstChild == (if i == 0 then node else old(firstChild))
      requires lastChild == (if i == |old(children)| then node else old(lastChild))
      requires forall c <- old(children) ::
        && c.parent == old(c.parent)
        && c.prev == (if c == At(old(children), i) then node else old(c.prev))
        && c.next == (if c == At(old(children), i - 1) then node else old(c.next))
      ensures Valid()
    {
      var was := old(children);
      DistinctInsert(was, i, node);
      forall j | 0 <= j < |children| ensures Linked(j) {
        if j < i {
          assert old(Linked(j)) && was[j] in was;
        } else if j > i {
          assert old(Linked(j - 1)) && was[j - 1] in was;
        }
        InsertedAt(was, i, node, j - 1);
        InsertedAt(was, i, node, j);
        InsertedAt(was, i, node, j + 1);
      }
    }

    /** InsertBeforeChild of a clone. */
    method InsertBeforeChild(beforeThis: XmlNode?, isDocument: bool) returns (r: XmlNode?)
      requires Valid() && (beforeThis != null && beforeThis.parent == this ==> beforeThis in children)
      modifies this`firstChild, this`children, children`prev, children`next
      ensures Valid()
      ensures r == null <==> beforeThis == null || beforeThis !in old(children) || isDocument
      ensures r == null ==> children == old(children)
      ensures r != null ==> fresh(r) && beforeThis != null
      ensures r != null ==> exists i :: 0 <= i < |old(children)| && old(children)[i] == beforeThis
                                        && children == Inserted(old(children), i, r)
    {
      if beforeThis == null || beforeThis.parent != this {
        if beforeThis != null {
          Orphan(beforeThis);
        }
        return null;
      }
      if isDocument {
        return null;
      }
      ghost var i := Position(beforeThis);
      var node := new XmlNode(isDocument);
      node.parent := this;
      node.next := beforeThis;
      node.prev := beforeThis.prev;
      if beforeThis.prev != null {
        beforeThis.prev.next := node;
      } else {
        firstChild := node;
      }
      beforeThis.prev := node;
      children := Inserted(children, i, node);
      InsertedIsValid(i, node);
      r := node;
    }

    /** InsertAfterChild of a clone. */
    method InsertAfterChild(afterThis: XmlNode?, isDocument: bool) returns (r: XmlNode?)
      requires Valid() && (afterThis != null && afterThis.parent == this ==> afterThis in children)
      modifies this`lastChild, this`children, children`prev, children`next
      ensures Valid()
      ensures r == null <==> afterThis == null || afterThis !in old(children) || isDocument
      ensures r == null ==> children == old(children)
      ensures r != null ==> fresh(r) && afterThis != null
      ensures r != null ==> exists i :: 0 <= i < |old(children)| && old(children)[i] == afterThis
                                        && children == Inserted(old(children), i + 1, r)
    {
      if afterThis == null || afterThis.parent != this {
        if afterThis != null {
          Orphan(afterThis);
        }
        return null;
      }
      if isDocument {
        return null;
      }
      ghost var i := Position(afterThis);
      var node := new XmlNode(isDocument);
      node.parent := this;
      node.prev := afterThis;
      node.next := afterThis.next;
      if afterThis.next != null {
        afterThis.next.prev := node;
      } else {
        lastChild := node;
      }
      afterThis.next := node;
      children := Inserted(children, i + 1, node);
      InsertedIsValid(i + 1, node);
      r := node;
    }

    /** ReplaceChild with a clone. */
    method ReplaceChild(replaceThis: XmlNode, isDocument: bool) returns (r: XmlNode?)
      requires Valid() && (replaceThis.parent == this ==> replaceThis in children)
      modifies this`firstChild, this`lastChild, this`children, children`prev, children`next
      ensures Valid()
      ensures r == null <==> replaceThis !in old(children)
      ensures r == null ==> children == old(children)
      ensures r != null ==> fresh(r)
      ensures r != null ==> exists i :: 0 <= i < |old(children)| && old(children)[i] == replaceThis && children == old(children)[i := r]
    {
      if replaceThis.parent != this {
        Orphan(replaceThis);
        return null;
      }
      ghost var i := Position(replaceThis);
      var node := new XmlNode(isDocument);
      node.next := replaceThis.next;
      node.prev := replaceThis.prev;
      if replaceThis.next != null {
        replaceThis.next.prev := node;
      } else {
        lastChild := node;
      }
      if replaceThis.prev != null {
        replaceThis.prev.next := node;
      } else {
        firstChild := node;
      }
      node.parent := this;
      children := children[i := node];
      forall j | 0 <= j < |children| ensures Linked(j) {
        assert j != i ==> old(Linked(j));
      }
      r := node;
    }

    /** RemoveChild; the deletion of the node itself is not modelled. */
    method RemoveChild(removeThis: XmlNode) returns (ok: bool)
      requires Valid() && (removeThis.parent == this ==> removeThis in children)
      modifies this`firstChild, this`lastChild, this`children, children`prev, children`next
      ensures Valid()
      ensures ok <==> removeThis in old(children)
      ensures !ok ==> children == old(children)
      ensures ok ==> exists i :: 0 <= i < |old(children)| && old(children)[i] == removeThis
                                 && children == old(children)[..i] + old(children)[i + 1..]
    {
      if removeThis.parent != this {
        Orphan(removeThis);
        return false;
      }
      ghost var i := Position(removeThis);
      DistinctRemove(children, i);
      if removeThis.next != null {
        removeThis.next.prev := removeThis.prev;
      } else {
        lastChild := removeThis.prev;
      }
      if removeThis.prev != null {
        removeThis.prev.next := removeThis.next;
      } else {
        firstChild := removeThis.next;
      }
      children := children[..i] + children[i + 1..];
      forall j | 0 <= j < |children| ensures Linked(j) {
        assert j < i ==> old(Linked(j));
        assert j >= i ==> old(Linked(j + 1));
      }
      ok := true;
    }

    /** Walking from the first child along `next`. */
    method Forward() returns (list: seq<XmlNode>)
      requires Valid()
      ensures list == children
    {
      list := [];
      var node := firstChild;
      while node != null
        invariant |list| <= |children| && list == children[..|list|] && node == At(children, |list|)
        decreases |children| - |list|
      {
        assert Linked(|list|);
        list := list + [node];
        node := node.next;
      }
    }

    /** Walking from the last child along `prev`. */
    method Backward() returns (list: seq<XmlNode>)
      requires Valid()
      ensures |list| == |children| && forall i :: 0 <= i < |list| ==> list[i] == children[|children| - 1 - i]
    {
      list := [];
      var node := lastChild;
      while node != null
        invariant |list| <= |children| && node == At(children, |children| - 1 - |list|)
        invariant forall i :: 0 <= i < |list| ==> list[i] == children[|children| - 1 - i]
        decreases |children| - |list|
      {
        assert Linked(|children| - 1 - |list|);
        list := list + [node];
        node := node.prev;
      }
    }
  }

  lemma DistinctInsert(s: seq<XmlNode>, i: nat, x: XmlNode)
    requires NoDup(s) && x !in s && i <= |s|
    ensures NoDup(Inserted(s, i, x))
    ensures forall c :: c in Inserted(s, i, x) <==> c in s || c == x
  {
    assert s == s[..i] + s[i..];
  }

  function Inserted(s: seq<XmlNode>, i: nat, x: XmlNode): (r: seq<XmlNode>)
    requires i <= |s|
    ensures |r| == |s| + 1
  {
    s[..i] + [x] + s[i..]
  }

  lemma InsertedAt(s: seq<XmlNode>, i: nat, x: XmlNode, j: int)
    requires i <= |s|
    ensures At(Inserted(s, i, x), j) == if j < i then At(s, j) else if j == i then x else At(s, j - 1)
  {
  }

  lemma DistinctRemove(s: seq<XmlNode>, i: nat)
    requires NoDup(s) && i < |s|
    ensures NoDup(s[..i] + s[i + 1..])
    ensures forall c :: c in s[..i] + s[i + 1..] <==> c in s && c != s[i]
  {
    var r := s[..i] + s[i + 1..];
    forall c ensures c in r <==> c in s && c != s[i] {
      if c in s && c != s[i] {
        var j :| 0 <= j < |s| && s[j] == c;
        assert r[if j < i then j else j - 1] == c;
      }
      if c in r {
        var j :| 0 <= j < |r| && r[j] == c;
        assert s[if j < i then j else j + 1] == c;
      }
    }
  }

  /** The node at a position, or null outside the list. */
  ghost function At(s: seq<XmlNode>, i: int): XmlNode?
  {
    if 0 <= i < |s| then s[i] else null
  }
}
