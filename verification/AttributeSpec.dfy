/** An element's attributes as an insertion-ordered map from names to values. */
module AttributeSpec {
  import opened Bytes
  import opened Xml

  /** Index of the first attribute called name, |attrs| when there is none. */
  function Lookup(attrs: seq<Attr>, name: bytes): (i: nat)
    ensures i <= |attrs|
    ensures i < |attrs| ==> attrs[i].name == name
    ensures forall j :: 0 <= j < i ==> attrs[j].name != name
  {
    if attrs == [] || attrs[0].name == name then 0 else 1 + Lookup(attrs[1..], name)
  }

  /** `SetAttribute`: the value is replaced in place, or the attribute goes to the end. */
  function Set(attrs: seq<Attr>, name: bytes, value: bytes): seq<Attr> {
    var i := Lookup(attrs, name);
    if i < |attrs| then attrs[i := Attr(name, value)] else attrs + [Attr(name, value)]
  }

  /** `RemoveAttribute`. */
  function Remove(attrs: seq<Attr>, name: bytes): seq<Attr> {
    var i := Lookup(attrs, name);
    if i < |attrs| then attrs[..i] + attrs[i + 1..] else attrs
  }

  function ToMap(attrs: seq<Attr>): map<bytes, bytes> {
    if attrs == [] then map[] else ToMap(attrs[..|attrs| - 1])[attrs[|attrs| - 1].name := attrs[|attrs| - 1].value]
  }

  lemma {:induction false} ToMapIs(attrs: seq<Attr>, name: bytes)
    requires DistinctNames(attrs)
    ensures var i := Lookup(attrs, name);
            name in ToMap(attrs) <==> i < |attrs|
    ensures var i := Lookup(attrs, name);
            i < |attrs| ==> ToMap(attrs)[name] == attrs[i].value
  {
    if attrs == [] {
    } else {
      var init, last := attrs[..|attrs| - 1], attrs[|attrs| - 1];
      ToMapIs(init, name);
      var i, k := Lookup(attrs, name), Lookup(init, name);
      assert k < |init| ==> attrs[k].name == name;
      assert i < |init| ==> init[i].name == name;
    }
  }

  lemma SetKeepsNamesDistinct(attrs: seq<Attr>, name: bytes, value: bytes)
    requires DistinctNames(attrs)
    ensures DistinctNames(Set(attrs, name, value))
  {
  }

  lemma RemoveKeepsNamesDistinct(attrs: seq<Attr>, name: bytes)
    requires DistinctNames(attrs)
    ensures DistinctNames(Remove(attrs, name))
  {
    var i := Lookup(attrs, name);
    if i < |attrs| {
      OneLessIsDistinct(attrs, i);
    }
    hide Lookup;
  }

  lemma OneLessIsDistinct(attrs: seq<Attr>, i: nat)
    requires DistinctNames(attrs) && i < |attrs|
    ensures DistinctNames(attrs[..i] + attrs[i + 1..])
  {
    var r := attrs[..i] + attrs[i + 1..];
    assert forall j :: 0 <= j < i ==> r[j] == attrs[j];
    assert forall j :: i <= j < |r| ==> r[j] == attrs[j + 1];
  }

  lemma LookupInSet(attrs: seq<Attr>, name: bytes, value: bytes, other: bytes)
    requires DistinctNames(attrs)
    ensures var s := Set(attrs, name, value);
            var j := Lookup(s, other);
            if other == name then j < |s| && s[j].value == value
            else (j < |s| <==> Lookup(attrs, other) < |attrs|) &&
                 (j < |s| ==> s[j] == attrs[Lookup(attrs, other)])
  {
    var s, i, k := Set(attrs, name, value), Lookup(attrs, name), Lookup(attrs, other);
    assert forall m :: 0 <= m < |attrs| ==> s[m].name == attrs[m].name;
    if other == name {
      assert s[i].name == name;
    } else if k < |attrs| {
      assert s[k].name == other;
    }
  }

  /** Setting an attribute is a map update: the rest of the map stays as it is. */
  lemma SetRefinesMapUpdate(attrs: seq<Attr>, name: bytes, value: bytes)
    requires DistinctNames(attrs)
    ensures ToMap(Set(attrs, name, value)) == ToMap(attrs)[name := value]
  {
    var s := Set(attrs, name, value);
    SetKeepsNamesDistinct(attrs, name, value);
    forall x: bytes
      ensures x in ToMap(s) <==> x in ToMap(attrs)[name := value]
      ensures x in ToMap(s) ==> ToMap(s)[x] == ToMap(attrs)[name := value][x]
    {
      ToMapIs(s, x);
      ToMapIs(attrs, x);
      LookupInSet(attrs, name, value, x);
      hide ToMap, Set, Lookup;
    }
  }

  lemma LookupIs(attrs: seq<Attr>, name: bytes, k: nat)
    requires k <= |attrs| && (k < |attrs| ==> attrs[k].name == name)
    requires forall j :: 0 <= j < k ==> attrs[j].name != name
    ensures Lookup(attrs, name) == k
  {
  }

  lemma LookupInRemoved(attrs: seq<Attr>, name: bytes, other: bytes)
    requires DistinctNames(attrs)
    ensures var s := Remove(attrs, name);
            var j := Lookup(s, other);
            if other == name then j == |s|
            else (j < |s| <==> Lookup(attrs, other) < |attrs|) &&
                 (j < |s| ==> s[j] == attrs[Lookup(attrs, other)])
  {
    hide Lookup;
    var s, i, k := Remove(attrs, name), Lookup(attrs, name), Lookup(attrs, other);
    if i < |attrs| {
      assert forall m :: 0 <= m < i ==> s[m] == attrs[m];
      assert forall m :: i <= m < |s| ==> s[m] == attrs[m + 1];
      LookupIs(s, other, if other == name || k == |attrs| then |s| else if k < i then k else k - 1);
    }
  }

  /** Removing an attribute takes its name out of the map and nothing else. */
  lemma RemoveRefinesMapRemoval(attrs: seq<Attr>, name: bytes)
    requires DistinctNames(attrs)
    ensures ToMap(Remove(attrs, name)) == ToMap(attrs) - {name}
  {
    var s := Remove(attrs, name);
    RemoveKeepsNamesDistinct(attrs, name);
    forall x: bytes
      ensures x in ToMap(s) <==> x in ToMap(attrs) - {name}
      ensures x in ToMap(s) ==> ToMap(s)[x] == (ToMap(attrs) - {name})[x]
    {
      ToMapIs(s, x);
      ToMapIs(attrs, x);
      LookupInRemoved(attrs, name, x);
      hide ToMap, Remove, Lookup;
    }
  }

  /** A name keeps its place when its value is set, and a new one goes behind the others. */
  lemma SetKeepsOrder(attrs: seq<Attr>, name: bytes, value: bytes)
    ensures var s := Set(attrs, name, value);
            |attrs| <= |s| <= |attrs| + 1 && (|s| == |attrs| <==> name in AttrNames(attrs)) &&
            (forall i :: 0 <= i < |attrs| ==> s[i].name == attrs[i].name) &&
            (|s| > |attrs| ==> s[|attrs|] == Attr(name, value))
  {
  }

  /** The attributes with other names, in their order. */
  function Others(attrs: seq<Attr>, name: bytes): seq<Attr> {
    if attrs == [] then []
    else (if attrs[0].name == name then [] else [attrs[0]]) + Others(attrs[1..], name)
  }

  lemma {:induction false} OthersAreAll(attrs: seq<Attr>, name: bytes)
    requires forall i :: 0 <= i < |attrs| ==> attrs[i].name != name
    ensures Others(attrs, name) == attrs
  {
    if attrs == [] {
    } else {
      OthersAreAll(attrs[1..], name);
      assert attrs == [attrs[0]] + attrs[1..];
    }
  }

  /** Removing an attribute leaves the others in their order. */
  lemma {:induction false} RemoveKeepsOrder(attrs: seq<Attr>, name: bytes)
    requires DistinctNames(attrs)
    ensures Remove(attrs, name) == Others(attrs, name)
  {
    if attrs == [] {
    } else if attrs[0].name == name {
      OthersAreAll(attrs[1..], name);
      assert Remove(attrs, name) == [] + attrs[1..];
    } else {
      RemoveKeepsOrder(attrs[1..], name);
      var i := Lookup(attrs, name);
      assert i < |attrs| ==> attrs[1..][..i - 1] == attrs[..i][1..] && attrs[1..][i..] == attrs[i + 1..];
      assert Remove(attrs, name) == [attrs[0]] + Remove(attrs[1..], name);
    }
  }

  /** The attribute loop of `TiXmlElement::CopyTo`: each attribute is set as a C string. */
  function CopyAttrs(todo: seq<Attr>, done: seq<Attr>): seq<Attr> {
    if todo == [] then done else CopyAttrs(todo[1..], Set(done, CStr(todo[0].name), CStr(todo[0].value)))
  }

  lemma CopyNone(done: seq<Attr>)
    ensures CopyAttrs([], done) == done
  {
  }

  /** One round of the loop. */
  lemma WalkOn(all: seq<Attr>, i: nat, done: seq<Attr>)
    requires i < |all|
    ensures CopyAttrs(Reached(all[i..]), done)
            == CopyAttrs(if i + 1 < |all| && all[i + 1] != Attr([], []) then Reached(all[i + 1..]) else [],
                         Set(done, CStr(all[i].name), CStr(all[i].value)))
  {
    assert all[i..][1..] == all[i + 1..];
  }

  predicate IsCString(a: Attr) {
    NulFree(a.name) && NulFree(a.value)
  }

  lemma {:induction false} CopyIsCanonical(todo: seq<Attr>, done: seq<Attr>)
    requires DistinctNames(done) && forall a :: a in done ==> IsCString(a)
    ensures DistinctNames(CopyAttrs(todo, done)) && forall a :: a in CopyAttrs(todo, done) ==> IsCString(a)
    ensures |CopyAttrs(todo, done)| <= |done| + |todo|
    decreases |todo|
  {
    if todo == [] {
    } else {
      var name, value := CStr(todo[0].name), CStr(todo[0].value);
      SetKeepsNamesDistinct(done, name, value);
      CopyIsCanonical(todo[1..], Set(done, name, value));
    }
  }

  lemma {:induction false} CopyAppends(todo: seq<Attr>, done: seq<Attr>)
    requires DistinctNames(done + todo) && forall a :: a in todo ==> IsCString(a)
    ensures CopyAttrs(todo, done) == done + todo
    decreases |todo|
  {
    if todo == [] {
    } else {
      var a := todo[0];
      assert a in todo;
      CStrKeepsExactlyNulFree(a.name);
      CStrKeepsExactlyNulFree(a.value);
      assert Lookup(done, a.name) == |done| by {
        assert forall i :: 0 <= i < |done| ==> (done + todo)[i] == done[i];
        assert (done + todo)[|done|] == a;
      }
      assert done + [a] + todo[1..] == done + todo;
      CopyAppends(todo[1..], done + [a]);
    }
  }

  lemma {:induction false} UntilBlankIsPrefix(attrs: seq<Attr>)
    ensures UntilBlank(attrs) <= attrs
  {
    if attrs != [] && attrs[0] != Attr([], []) {
      UntilBlankIsPrefix(attrs[1..]);
    }
  }

  /** The attributes of an element survive being copied exactly when the walk reaches them all, their
      names differ and no name or value has a NUL in it. */
  lemma AttributesSurvive(attrs: seq<Attr>)
    ensures CopyAttrs(Reached(attrs), []) == attrs
            <==> Reached(attrs) == attrs && DistinctNames(attrs) && forall a :: a in attrs ==> IsCString(a)
  {
    CopyIsCanonical(Reached(attrs), []);
    if attrs != [] {
      UntilBlankIsPrefix(attrs[1..]);
    }
    assert Reached(attrs) <= attrs;
    if Reached(attrs) == attrs && DistinctNames(attrs) && forall a :: a in attrs ==> IsCString(a) {
      CopyAppends(attrs, []);
      assert [] + attrs == attrs;
    }
  }
}
