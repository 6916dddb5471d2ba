/**
 The attributes of a TinyXML element: a circular doubly linked list through a sentinel, which
 behaves as a map that remembers the order of insertion.
 */
module AttributeSet {
  import opened Sequences

  class XmlAttribute {
    const name: string
    var value: string
    var prev: XmlAttribute?
    var next: XmlAttribute?

    constructor (name: string, value: string)
      ensures this.name == name && this.value == value && prev == null && next == null
    {
      this.name, this.value := name, value;
      prev, next := null, null;
    }
  }

  /** The member of the ring at a position, the sentinel being at both ends. */
  ghost function Around(sentinel: XmlAttribute, items: seq<XmlAttribute>, i: int): XmlAttribute
  {
    if 0 <= i < |items| then items[i] else sentinel
  }

  ghost predicate DistinctNames(items: seq<XmlAttribute>)
  {
    forall i, j :: 0 <= i < j < |items| ==> items[i].name != items[j].name
  }

  /** Names and values in order. */
  ghost function Pairs(items: seq<XmlAttribute>): seq<(string, string)>
    reads items
  {
    seq(|items|, i requires 0 <= i < |items| reads items => (items[i].name, items[i].value))
  }

  class XmlAttributeSet {
    const sentinel: XmlAttribute
    /** The attributes in order. */
    ghost var items: seq<XmlAttribute>

    constructor ()
      ensures Valid() && fresh(sentinel) && items == []
    {
      sentinel := new XmlAttribute("", "");
      items := [];
      new;
      sentinel.next := sentinel;
      sentinel.prev := sentinel;
    }

    /** A ring through the sentinel, in both directions, of attributes with distinct names. */
    ghost predicate Valid()
      reads this, sentinel, items
    {
      && sentinel !in items && NoDup(items) && DistinctNames(items)
      && forall i :: -1 <= i < |items| ==> Linked(i)
    }

    ghost predicate Linked(i: int)
      requires -1 <= i < |items|
      reads this, sentinel, items
    {
      var a, b := Around(sentinel, items, i), Around(sentinel, items, i + 1);
      a.next == b && b.prev == a
    }

    ghost function Contents(): seq<(string, string)>
      reads this, items
    {
      Pairs(items)
    }

    lemma Position(a: XmlAttribute) returns (i: nat)
      requires Valid() && a in items
      ensures i < |items| && items[i] == a && Linked(i) && Linked(i - 1)
    {
      i :| 0 <= i < |items| && items[i] == a;
    }

    /** Add: the name must be new. */
    method Add(addMe: XmlAttribute)
      requires Valid() && addMe != sentinel && addMe !in items && forall a <- items :: a.name != addMe.name
      modifies this, sentinel, items`next, items`prev, addMe`next, addMe`prev
      ensures Valid() && items == old(items) + [addMe]
      ensures addMe.value == old(addMe.value) && Contents() == old(Contents()) + [(addMe.name, addMe.value)]
    {
      assert Linked(|items| - 1);
      addMe.next := sentinel;
      addMe.prev := sentinel.prev;
      sentinel.prev.next := addMe;
      sentinel.prev := addMe;
      items := items + [addMe];
      forall i | -1 <= i < |items| ensures Linked(i) {
        assert i < |items| - 2 ==> old(Linked(i));
        assert i == |items| - 2 ==> old(Linked(i));
      }
      assert Contents() == old(Contents()) + [(addMe.name, addMe.value)];
    }

    /** Find. */
    method Find(name: string) returns (r: XmlAttribute?)
      requires Valid()
      ensures r == null <==> forall a <- items :: a.name != name
      ensures r != null ==> r in items && r.name == name
    {
      assert Linked(-1);
      var node := sentinel.next;
      ghost var i := 0;
      while node != sentinel
        invariant 0 <= i <= |items| && node == Around(sentinel, items, i)
        invariant forall j :: 0 <= j < i ==> items[j].name != name
        decreases |items| - i
      {
        if node.name == name {
          return node;
        }
        assert Linked(i);
        i := i + 1;
        node := node.next;
      }
      r := null;
    }

    /** Remove: unlinks an attribute of the set. */
    method Remove(removeMe: XmlAttribute)
      requires Valid() && removeMe in items
      modifies this, sentinel, items`next, items`prev
      ensures Valid() && exists i :: 0 <= i < |old(items)| && old(items)[i] == removeMe && items == Without(old(items), i)
    {
      assert Linked(-1);
      var node := sentinel.next;
      ghost var i := 0;
      while node != sentinel
        invariant 0 <= i <= |items| && node == Around(sentinel, items, i)
        invariant forall j :: 0 <= j < i ==> items[j] != removeMe
        decreases |items| - i
      {
        assert Linked(i) && Linked(i - 1);
        if node == removeMe {
          node.prev.next := node.next;
          node.next.prev := node.prev;
          node.next := null;
          node.prev := null;
          items := Without(items, i);
          WithoutDistinct(old(items), i);
          forall j | -1 <= j < |items| ensures Linked(j) {
            assert old(Linked(if j < i then j else j + 1));
            assert j == i - 1 ==> old(Linked(i));
          }
          return;
        }
        i := i + 1;
        node := node.next;
      }
    }

    /** SetAttribute: a new value in place, or a new attribute at the end. */
    method SetAttribute(name: string, value: string)
      requires Valid()
      modifies this, sentinel, items
      ensures Valid()
      ensures Contents() == Updated(old(Contents()), name, value)
    {
      var node := Find(name);
      if node != null {
        ghost var k := Position(node);
        UpdatedInPlace(items, k, value);
        node.value := value;
        forall i | -1 <= i < |items| ensures Linked(i) {
          assert old(Linked(i));
        }
        assert Contents() == old(Contents())[k := (name, value)];
        return;
      }
      var attrib := new XmlAttribute(name, value);
      UpdatedAtEnd(items, name, value);
      Add(attrib);
    }
  }

  ghost function Without(s: seq<XmlAttribute>, i: nat): (r: seq<XmlAttribute>)
    requires i < |s|
    ensures |r| == |s| - 1 && forall j :: 0 <= j < |r| ==> r[j] == s[if j < i then j else j + 1]
  {
    s[..i] + s[i + 1..]
  }

  lemma WithoutDistinct(s: seq<XmlAttribute>, i: nat)
    requires i < |s| && NoDup(s) && DistinctNames(s)
    ensures NoDup(Without(s, i)) && DistinctNames(Without(s, i))
    ensures forall c <- Without(s, i) :: c in s && c != s[i]
  {
  }

  /** A map that remembers the order of insertion: the value of a name replaced where it is, or added at the end. */
  ghost function Updated(pairs: seq<(string, string)>, name: string, value: string): seq<(string, string)>
  {
    if pairs == [] then [(name, value)]
    else if pairs[0].0 == name then [(name, value)] + pairs[1..]
    else [pairs[0]] + Updated(pairs[1..], name, value)
  }

  lemma {:induction false} UpdatedAt(pairs: seq<(string, string)>, k: nat, name: string, value: string)
    requires k <= |pairs| && (forall i :: 0 <= i < k ==> pairs[i].0 != name) && (k < |pairs| ==> pairs[k].0 == name)
    ensures Updated(pairs, name, value) == if k < |pairs| then pairs[k := (name, value)] else pairs + [(name, value)]
  {
    if pairs != [] && k > 0 {
      assert forall i :: 0 <= i < k - 1 ==> pairs[1..][i] == pairs[i + 1];
      UpdatedAt(pairs[1..], k - 1, name, value);
    }
  }

  lemma UpdatedInPlace(items: seq<XmlAttribute>, k: nat, value: string)
    requires k < |items| && DistinctNames(items)
    ensures Updated(Pairs(items), items[k].name, value) == Pairs(items)[k := (items[k].name, value)]
  {
    UpdatedAt(Pairs(items), k, items[k].name, value);
  }

  lemma UpdatedAtEnd(items: seq<XmlAttribute>, name: string, value: string)
    requires forall a <- items :: a.name != name
    ensures Updated(Pairs(items), name, value) == Pairs(items) + [(name, value)]
  {
    forall i | 0 <= i < |items| ensures items[i].name != name {
      assert items[i] in items;
    }
    UpdatedAt(Pairs(items), |items|, name, value);
  }

  /** What the ordered map holds after an update: the new value for the name, everything else as before. */
  lemma {:induction false} UpdateLookup(pairs: seq<(string, string)>, name: string, value: string)
    ensures (name, value) in Updated(pairs, name, value)
    ensures forall p: (string, string) :: p.0 != name ==> (p in Updated(pairs, name, value) <==> p in pairs)
  {
    if pairs != [] && pairs[0].0 != name {
      UpdateLookup(pairs[1..], name, value);
      assert pairs == [pairs[0]] + pairs[1..];
    } else if pairs != [] {
      assert pairs == [pairs[0]] + pairs[1..];
    }
  }
}
