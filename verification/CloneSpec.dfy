/** What a deep copy of a tree holds, and when it is the same tree. */
module CloneSpec {
  import opened Bytes
  import opened Xml
  import opened AttributeSpec

  /** The tree `Clone` builds: values and attributes pass through C strings, attributes are set one
      after the other, the strings of a declaration are copied whole. */
  function CloneOf(t: Node): Node {
    match t
    case Element(name, attrs, children) => Element(CStr(name), CopyAttrs(Reached(attrs), []), CloneAll(children))
    case Text(value, cdata) => Text(CStr(value), cdata)
    case Comment(value) => Comment(CStr(value))
    case Declaration(version, encoding, standalone) => t
    case Unrecognized(value) => Unrecognized(CStr(value))
  }

  function CloneAll(ts: seq<Node>): (r: seq<Node>)
    ensures |r| == |ts| && forall i {:trigger r[i]} :: 0 <= i < |r| ==> r[i] == CloneOf(ts[i])
  {
    if ts == [] then [] else [CloneOf(ts[0])] + CloneAll(ts[1..])
  }

  /** Nothing in the tree gets lost in a C string, a repeated attribute name or a blank attribute. */
  predicate Copyable(t: Node) {
    match t
    case Element(name, attrs, children) =>
      NulFree(name) && DistinctNames(attrs) && (attrs == [] || Attr([], []) !in attrs[1..]) &&
      (forall a :: a in attrs ==> IsCString(a)) && forall c :: c in children ==> Copyable(c)
    case Text(value, _) => NulFree(value)
    case Comment(value) => NulFree(value)
    case Declaration(_, _, _) => true
    case Unrecognized(value) => NulFree(value)
  }

  /** A clone is equal to its original exactly when the original is copyable. */
  lemma {:induction false} CloneIsSame(t: Node)
    ensures CloneOf(t) == t <==> Copyable(t)
  {
    match t
    case Element(name, attrs, children) =>
      CStrKeepsExactlyNulFree(name);
      AttributesSurvive(attrs);
      ReachedIsAll(attrs);
      forall i | 0 <= i < |children|
        ensures CloneOf(children[i]) == children[i] <==> Copyable(children[i])
      {
        CloneIsSame(children[i]);
      }
      assert CloneAll(children) == children
             <==> forall i :: 0 <= i < |children| ==> CloneOf(children[i]) == children[i];
    case Text(value, _) => CStrKeepsExactlyNulFree(value);
    case Comment(value) => CStrKeepsExactlyNulFree(value);
    case Declaration(_, _, _) =>
    case Unrecognized(value) => CStrKeepsExactlyNulFree(value);
  }

  /** A clone holds what is in front of the first NUL; only a declaration is copied whole. */
  lemma CloneStopsAtNul(v: bytes, w: bytes, cdata: bool, kids: seq<Node>)
    requires NulFree(v)
    ensures var long := v + ([NUL] + w);
            CloneOf(Comment(long)) == Comment(v) && CloneOf(Text(long, cdata)) == Text(v, cdata) &&
            CloneOf(Unrecognized(long)) == Unrecognized(v) &&
            CloneOf(Element(long, [Attr(long, long)], kids)) == Element(v, [Attr(v, v)], CloneAll(kids))
  {
    var long := v + ([NUL] + w);
    CutAtNul(v, w);
    assert [Attr(long, long)][1..] == [];
    assert Reached([Attr(long, long)]) == [Attr(long, long)];
    assert [] + [Attr(v, v)] == [Attr(v, v)];
    hide CStr, CloneAll;
    assert Set([], v, v) == [Attr(v, v)];
    assert CopyAttrs([Attr(long, long)], []) == CopyAttrs([], Set([], v, v));
  }
}
