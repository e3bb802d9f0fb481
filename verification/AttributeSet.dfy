/** The attribute ring: attributes linked both ways through a sentinel. */
module AttributeSet {
  import opened Bytes
  import opened Xml
  import opened AttributeSpec

  class TiXmlAttribute {
    var name: bytes
    var value: bytes
    var prev: TiXmlAttribute?
    var next: TiXmlAttribute?
    /** The set the attribute is linked into. */
    ghost var home: TiXmlAttributeSet?

    constructor ()
      ensures name == [] && value == [] && prev == null && next == null
    {
      name, value, prev, next := [], [], null, null;
    }

    /** The next attribute; one with an empty name and an empty value passes for the sentinel. */
    method Next() returns (r: TiXmlAttribute?)
      requires next != null
      ensures r == if next.value == [] && next.name == [] then null else next
    {
      if next.value == [] && next.name == [] {
        return null;
      }
      return next;
    }

    method SetName(n: bytes)
      modifies this`name
      ensures name == n
    {
      name := n;
    }

    method SetValue(v: bytes)
      modifies this`value
      ensures value == v
    {
      value := v;
    }
  }

  ghost function EntriesOf(items: seq<TiXmlAttribute>): (r: seq<Attr>)
    reads items
    ensures |r| == |items|
  {
    seq(|items|, i requires 0 <= i < |items| reads items => Attr(items[i].name, items[i].value))
  }

  /** Neighbours point at each other. */
  ghost predicate Linked(ring: seq<TiXmlAttribute>)
    reads ring`next, ring`prev
  {
    (forall i {:trigger ring[i].next} :: 0 <= i < |ring| - 1 ==> ring[i].next == ring[i + 1]) &&
    (forall i {:trigger ring[i].prev} :: 0 < i < |ring| ==> ring[i].prev == ring[i - 1])
  }

  /** The links of a ring with a node less in it. */
  lemma StillLinked(ring: seq<TiXmlAttribute>, m: nat, rest: seq<TiXmlAttribute>)
    requires 0 < m < |ring| - 1 && rest == ring[..m] + ring[m + 1..]
    requires forall i {:trigger ring[i].next} :: 0 <= i < |ring| - 1 && i != m ==>
               ring[i].next == ring[if i + 1 == m then m + 1 else i + 1]
    requires forall i {:trigger ring[i].prev} :: 0 < i < |ring| && i != m ==>
               ring[i].prev == ring[if i - 1 == m then m - 1 else i - 1]
    ensures Linked(rest)
  {
    assert forall i {:trigger rest[i]} :: 0 <= i < |rest| ==> rest[i] == ring[if i < m then i else i + 1];
  }

  class TiXmlAttributeSet {
    const sentinel: TiXmlAttribute
    ghost var items: seq<TiXmlAttribute>
    /** The element the set is part of. */
    ghost var owner: object?

    /** The ring opened at the sentinel, which stands at both ends. */
    ghost function Ring(): seq<TiXmlAttribute>
      reads this
    {
      [sentinel] + items + [sentinel]
    }

    ghost predicate Valid()
      reads this, sentinel, items
    {
      sentinel !in items && sentinel.name == [] && sentinel.value == [] && sentinel.home == this &&
      AtHome(items) &&
      (forall i, j :: 0 <= i < j < |items| ==> items[i] != items[j]) &&
      Linked(Ring())
    }

    ghost predicate AtHome(attrs: seq<TiXmlAttribute>)
      reads attrs`home
    {
      forall i {:trigger attrs[i]} :: 0 <= i < |attrs| ==> attrs[i].home == this
    }

    ghost function Entries(): (r: seq<Attr>)
      reads this, items
      ensures |r| == |items|
    {
      EntriesOf(items)
    }

    /** Everything the set is made of. */
    ghost function Repr(): set<object>
      reads this
    {
      {this, sentinel} + (set a | a in items)
    }

    constructor ()
      ensures Valid() && items == [] && fresh(Repr())
    {
      sentinel := new TiXmlAttribute();
      items := [];
      new;
      sentinel.home := this;
      sentinel.next := sentinel;
      sentinel.prev := sentinel;
    }

    method First() returns (r: TiXmlAttribute?)
      requires Valid()
      ensures r == if items == [] then null else items[0]
    {
      assert Ring()[0].next == Ring()[1];
      r := if sentinel.next == sentinel then null else sentinel.next;
    }

    method Last() returns (r: TiXmlAttribute?)
      requires Valid()
      ensures r == if items == [] then null else items[|items| - 1]
    {
      assert Ring()[|items| + 1].prev == Ring()[|items|];
      r := if sentinel.prev == sentinel then null else sentinel.prev;
    }

    /** Links the attribute in at the end of the ring. */
    method Add(addMe: TiXmlAttribute)
      requires Valid() && addMe != sentinel && addMe !in items
      modifies this`items, sentinel`next, sentinel`prev, items`next, items`prev, addMe`next, addMe`prev
      modifies addMe`home
      ensures Valid() && items == old(items) + [addMe]
      ensures Entries() == old(Entries()) + [Attr(addMe.name, addMe.value)]
    {
      ghost var n := |items|;
      assert Ring()[n + 1].prev == Ring()[n];
      var last := sentinel.prev;
      addMe.home := this;
      addMe.next := sentinel;
      addMe.prev := last;
      last.next := addMe;
      sentinel.prev := addMe;
      items := items + [addMe];
      assert forall i :: 0 <= i <= n ==> Ring()[i] == old(Ring()[i]);
    }

    /** Only the sentinel stands in two places of the opened ring, its ends. */
    lemma RingNodesDiffer()
      requires Valid()
      ensures forall i, j :: 0 <= i < j < |Ring()| && (i != 0 || j != |items| + 1) ==> Ring()[i] != Ring()[j]
    {
      assert forall j {:trigger Ring()[j]} :: 1 <= j <= |items| ==> Ring()[j] == items[j - 1];
    }

    /** Takes the k-th attribute out of the ring. */
    method Unlink(node: TiXmlAttribute, ghost k: nat)
      requires Valid() && k < |items| && items[k] == node
      modifies this`items, sentinel`next, sentinel`prev, items`next, items`prev
      ensures Valid() && items == old(items[..k] + items[k + 1..])
      ensures node.next == null && node.prev == null
    {
      hide AtHome;
      ghost var ring, n, rest := Ring(), |items|, items[..k] + items[k + 1..];
      StillAtHome(items, k);
      assert ring[k + 1] == items[k] && ring[k + 1].prev == ring[k] && ring[k + 1].next == ring[k + 2];
      RingNodesDiffer();
      var before, after := node.prev, node.next;
      before.next := after;
      after.prev := before;
      node.next := null;
      node.prev := null;
      items := rest;
      assert Ring() == ring[..k + 1] + ring[k + 2..];
      StillLinked(ring, k + 1, Ring());
    }

    lemma StillAtHome(attrs: seq<TiXmlAttribute>, k: nat)
      requires AtHome(attrs) && k < |attrs|
      ensures AtHome(attrs[..k] + attrs[k + 1..])
    {
    }

    /** Unlinks the attribute if it is in the ring. */
    method Remove(removeMe: TiXmlAttribute, ghost k: nat)
      requires Valid() && k < |items| && items[k] == removeMe
      modifies this`items, sentinel`next, sentinel`prev, items`next, items`prev
      ensures Valid() && items == old(items[..k] + items[k + 1..])
      ensures Entries() == old(Entries()[..k] + Entries()[k + 1..])
      ensures removeMe.next == null && removeMe.prev == null
    {
      ghost var i := 0;
      assert Ring()[0].next == Ring()[1];
      var node := sentinel.next;
      while node != sentinel
        invariant i <= k && node == items[i]
        decreases k - i
      {
        if node == removeMe {
          break;
        }
        assert Ring()[i + 1].next == Ring()[i + 2];
        node := node.next;
        i := i + 1;
      }
      Unlink(node, k);
    }

    /** The first attribute called name, by a walk of the ring up to the sentinel. */
    method Find(name: bytes) returns (r: TiXmlAttribute?, ghost k: nat)
      requires Valid()
      ensures k == Lookup(Entries(), name)
      ensures r == if Lookup(Entries(), name) < |items| then items[Lookup(Entries(), name)] else null
    {
      ghost var entries := Entries();
      k := 0;
      assert Ring()[0].next == Ring()[1];
      var node := sentinel.next;
      while node != sentinel
        invariant k <= |items| && node == Ring()[k + 1]
        invariant forall j :: 0 <= j < k ==> entries[j].name != name
        decreases |items| - k
      {
        if node.name == name {
          LookupIs(entries, name, k);
          return node, k;
        }
        assert Ring()[k + 1].next == Ring()[k + 2];
        node := node.next;
        k := k + 1;
      }
      r := null;
      LookupIs(entries, name, k);
    }

    method FindOrCreate(name: bytes) returns (r: TiXmlAttribute, ghost k: nat)
      requires Valid()
      modifies this`items, sentinel`next, sentinel`prev, items`next, items`prev
      ensures Valid() && k < |items| && items[k] == r && r.name == name
      ensures k == old(Lookup(Entries(), name))
      ensures k < |old(items)| ==> items == old(items) && Entries() == old(Entries())
      ensures k >= |old(items)| ==>
                fresh(r) && items == old(items) + [r] && Entries() == old(Entries()) + [Attr(name, [])]
    {
      hide Linked, AtHome, Ring;
      var found;
      found, k := Find(name);
      if found == null {
        r := new TiXmlAttribute();
        Add(r);
        ghost var ring := Ring();
        assert Linked(ring);
        r.SetName(name);
      } else {
        r := found;
      }
    }

    /** `TiXmlElement::SetAttribute` on the set it owns. */
    method SetAttribute(name: bytes, value: bytes)
      requires Valid()
      modifies Repr()
      ensures Valid() && Entries() == Set(old(Entries()), name, value)
      ensures fresh(Repr() - old(Repr())) && owner == old(owner)
    {
      hide Linked, AtHome, Ring;
      var attrib, k := FindOrCreate(name);
      ghost var ring := Ring();
      assert Linked(ring);
      attrib.SetValue(value);
    }

    /** `TiXmlElement::RemoveAttribute` on the set it owns. */
    method RemoveAttribute(name: bytes)
      requires Valid()
      modifies this`items, sentinel`next, sentinel`prev, items`next, items`prev
      ensures Valid() && Entries() == AttributeSpec.Remove(old(Entries()), name)
    {
      ghost var before := Entries();
      var node, k := Find(name);
      if node != null {
        Remove(node, k);
        assert AttributeSpec.Remove(before, name) == before[..k] + before[k + 1..];
      }
    }

    /** The attribute loop of `TiXmlElement::CopyTo`, from this set into the other. */
    method CopyTo(target: TiXmlAttributeSet)
      requires Valid() && target.Valid() && target != this
      modifies target.Repr()
      ensures Valid() && Entries() == old(Entries())
      ensures target.Valid() && target.Entries() == CopyAttrs(Reached(Entries()), old(target.Entries()))
      ensures fresh(target.Repr() - old(target.Repr())) && target.owner == old(target.owner)
    {
      SetsApart(this, target);
      ghost var all, todo, i := Entries(), Reached(Entries()), 0;
      var attribute := First();
      assert all[0..] == all && Reached([]) == [];
      hide Valid, EntriesOf, Reached, Set, CopyAttrs;
      while attribute != null
        invariant Valid() && target.Valid() && Entries() == all && items == old(items)
        invariant attribute != null ==> i < |items| && attribute == items[i] && todo == Reached(all[i..])
        invariant attribute == null ==> todo == []
        invariant Repr() !! target.Repr() && fresh(target.Repr() - old(target.Repr()))
        invariant target.owner == old(target.owner)
        invariant CopyAttrs(todo, target.Entries()) == CopyAttrs(Reached(all), old(target.Entries()))
        decreases if attribute == null then 0 else |items| - i + 1
      {
        WalkOn(all, i, target.Entries());
        attribute := CopyOne(target, attribute, i);
        i := i + 1;
        todo := if attribute == null then [] else Reached(all[i..]);
      }
      CopyNone(target.Entries());
    }

    /** One round of it: copies the i-th attribute and moves on. */
    method CopyOne(target: TiXmlAttributeSet, attribute: TiXmlAttribute, ghost i: nat) returns (r: TiXmlAttribute?)
      requires Valid() && target.Valid() && Repr() !! target.Repr() && i < |items| && items[i] == attribute
      modifies target.Repr()
      ensures Valid() && Entries() == old(Entries()) && items == old(items)
      ensures target.Valid() && fresh(target.Repr() - old(target.Repr())) && target.owner == old(target.owner)
      ensures target.Entries() == Set(old(target.Entries()), CStr(Entries()[i].name), CStr(Entries()[i].value))
      ensures r == if i + 1 < |items| && Entries()[i + 1] != Attr([], []) then items[i + 1] else null
    {
      hide Valid, EntriesOf, Set;
      EntryAt(i);
      target.SetAttribute(CStr(attribute.name), CStr(attribute.value));
      r := After(attribute, i);
    }

    lemma EntryAt(i: nat)
      requires i < |items|
      ensures Entries()[i] == Attr(items[i].name, items[i].value)
    {
    }

    /** Where `attribute->Next()` leads from the i-th attribute. */
    method After(attribute: TiXmlAttribute, ghost i: nat) returns (r: TiXmlAttribute?)
      requires Valid() && i < |items| && items[i] == attribute
      ensures r == if i + 1 < |items| && Entries()[i + 1] != Attr([], []) then items[i + 1] else null
    {
      assert Ring()[i + 1].next == Ring()[i + 2];
      r := attribute.Next();
    }

    /** `TiXmlElement::Attribute`. */
    method Attribute(name: bytes) returns (found: bool, value: bytes)
      requires Valid()
      ensures var k := Lookup(Entries(), name);
              (found <==> k < |Entries()|) && (found ==> value == Entries()[k].value)
    {
      var node, k := Find(name);
      if node == null {
        return false, [];
      }
      return true, node.value;
    }
  }

  /** Two sets share nothing. */
  lemma SetsApart(s: TiXmlAttributeSet, t: TiXmlAttributeSet)
    requires s.Valid() && t.Valid() && s != t
    ensures s.Repr() !! t.Repr()
  {
    assert forall a {:trigger a in s.items} :: a in s.items ==> a.home == s;
    assert forall a {:trigger a in t.items} :: a in t.items ==> a.home == t;
  }
}
