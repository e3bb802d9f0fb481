/** The document object model: nodes that own doubly linked lists of children, and the operations
    on these lists. Nodes live in forests; the pure view of a forest is a store. */
module Dom {
  import opened Bytes
  import opened Xml
  import opened AttributeSet
  import opened AttributeSpec
  import opened CloneSpec
  import opened Store

  // ----- lists of nodes -----

  ghost predicate Distinct(cs: seq<TiXmlNode>) {
    forall i, j {:trigger cs[i], cs[j]} :: 0 <= i < j < |cs| ==> cs[i] != cs[j]
  }

  /** The k-th node, if there is one, occurs nowhere else. */
  ghost predicate Once(cs: seq<TiXmlNode>, k: int) {
    0 <= k < |cs| ==> forall i {:trigger cs[i]} :: 0 <= i < |cs| && i != k ==> cs[i] != cs[k]
  }

  datatype Spot = AtEnd | InFrontOf(n: TiXmlNode) | Behind(n: TiXmlNode)

  /** A node put at the spot becomes the k-th. */
  ghost predicate IsAt(cs: seq<TiXmlNode>, spot: Spot, k: nat) {
    match spot
    case AtEnd => k == |cs|
    case InFrontOf(n) => k < |cs| && cs[k] == n
    case Behind(n) => 0 < k <= |cs| && cs[k - 1] == n
  }

  // ----- forests -----

  ghost predicate IsForest(forest: set<TiXmlNode>)
    reads forest`parent, forest`prev, forest`next, forest`firstChild, forest`lastChild, forest`children, forest`rank
  {
    forall n {:trigger n in forest} :: n in forest ==> n.Fits(forest)
  }

  /** Every node of the forest has an attribute ring of its own. */
  ghost predicate Furnished(forest: set<TiXmlNode>)
    reads *
  {
    forall n {:trigger n in forest} :: n in forest ==> n.HasAttributes()
  }

  /** The nodes of a forest with what they hold. */
  ghost function View(forest: set<TiXmlNode>): map<TiXmlNode, Info<TiXmlNode>>
    reads *
  {
    map n | n in forest :: n.Look()
  }

  /** The same nodes but for the children of one. */
  ghost function Relinked(n: TiXmlNode, cs: seq<TiXmlNode>,
                          s: map<TiXmlNode, Info<TiXmlNode>>): map<TiXmlNode, Info<TiXmlNode>>
    requires n in s
  {
    s[n := s[n].(children := cs)]
  }

  /** The nodes on the way up, none of which is the node itself. */
  ghost function Above(n: TiXmlNode, forest: set<TiXmlNode>): set<TiXmlNode>
    reads n`rank, forest`rank
  {
    set m | m in forest && m.rank > n.rank
  }

  lemma IsLower(n: TiXmlNode, forest: set<TiXmlNode>)
    requires IsForest(forest) && n in forest && n.parent != null
    ensures n.parent in forest && n.rank < n.parent.rank
    ensures n.parent in Above(n, forest) && Above(n.parent, forest) < Above(n, forest)
  {
    assert n.Fits(forest);
    assert n.parent.Fits(forest);
    assert n in n.parent.children;
    assert n.rank < n.parent.rank;
  }

  /** The node is the top node or below it. */
  ghost predicate IsUnder(n: TiXmlNode, top: TiXmlNode, forest: set<TiXmlNode>)
    requires IsForest(forest) && n in forest
    reads forest`parent, forest`prev, forest`next, forest`firstChild, forest`lastChild, forest`children, forest`rank
    decreases Above(n, forest)
  {
    n == top || (n.parent != null && (IsLower(n, forest); IsUnder(n.parent, top, forest)))
  }

  ghost function Subtree(top: TiXmlNode, forest: set<TiXmlNode>): set<TiXmlNode>
    requires IsForest(forest)
    reads forest`parent, forest`prev, forest`next, forest`firstChild, forest`lastChild, forest`children, forest`rank
  {
    set n | n in forest && IsUnder(n, top, forest)
  }

  ghost function DocumentOf(n: TiXmlNode, forest: set<TiXmlNode>): TiXmlNode?
    requires IsForest(forest) && n in forest
    reads forest`parent, forest`prev, forest`next, forest`firstChild, forest`lastChild, forest`children, forest`rank
    decreases Above(n, forest)
  {
    if n.kind == DocumentType then n
    else if n.parent == null then null
    else
      IsLower(n, forest);
      DocumentOf(n.parent, forest)
  }

  /** The only error that is new is that of a document asked to be a child. */
  twostate predicate OneError(forest: set<TiXmlNode>, doc: TiXmlNode?)
    reads forest
  {
    forall n {:trigger n.error} :: n in forest ==>
      n.error == if n == doc then Xml.SetError(old(n.error), DocumentTopOnly, Null) else old(n.error)
  }

  // ----- the class -----

  class TiXmlNode {
    const kind: NodeType
    const attributeSet: TiXmlAttributeSet
    var value: bytes
    var cdata: bool
    var version: bytes
    var encoding: bytes
    var standalone: bytes
    /** The error state; only documents use it. */
    var error: Err
    var parent: TiXmlNode?
    var firstChild: TiXmlNode?
    var lastChild: TiXmlNode?
    var prev: TiXmlNode?
    var next: TiXmlNode?

    /** The children in the order of the list. */
    ghost var children: seq<TiXmlNode>
    /** Larger than the rank of every child, so that no node is below itself. */
    ghost var rank: nat

    constructor (kind: NodeType)
      ensures this.kind == kind && value == [] && !cdata && version == [] && encoding == [] && standalone == []
      ensures error == NoError && parent == null && children == []
      ensures attributeSet.items == [] && HasAttributes() && fresh(attributeSet.Repr())
      ensures IsForest({this})
    {
      this.kind := kind;
      value, cdata, version, encoding, standalone, error := [], false, [], [], [], NoError;
      parent, firstChild, lastChild, prev, next := null, null, null, null, null;
      children, rank := [], 0;
      attributeSet := new TiXmlAttributeSet();
      new;
      attributeSet.owner := this;
    }

    /** The list is linked both ways, its ends are known and every child knows its parent. */
    ghost predicate Linked()
      reads this`children, this`firstChild, this`lastChild, children`parent, children`prev, children`next
    {
      firstChild == (if children == [] then null else children[0]) &&
      lastChild == (if children == [] then null else children[|children| - 1]) &&
      (forall i {:trigger children[i].parent} :: 0 <= i < |children| ==> children[i].parent == this) &&
      (children != [] ==> children[0].prev == null && children[|children| - 1].next == null) &&
      (forall i {:trigger children[i].next} :: 0 <= i < |children| - 1 ==> children[i].next == children[i + 1]) &&
      (forall i {:trigger children[i].prev} :: 1 <= i < |children| ==> children[i].prev == children[i - 1])
    }

    /** The node belongs to the forest, and so does every node it points at. */
    ghost predicate Fits(forest: set<TiXmlNode>)
      reads this`parent, this`prev, this`next, this`firstChild, this`lastChild, this`children, this`rank
      reads forest`parent, forest`prev, forest`next, forest`firstChild, forest`lastChild, forest`children, forest`rank
    {
      this in forest &&
      (forall i {:trigger children[i]} :: 0 <= i < |children| ==>
         children[i] in forest && children[i].rank < rank && children[i].kind != DocumentType) &&
      Linked() && Distinct(children) &&
      if parent == null then prev == null && next == null
      else parent in forest && this in parent.children
    }

    /** The links of a node to its parent and siblings are left alone. */
    twostate predicate Stays()
      reads this
    {
      parent == old(parent) && prev == old(prev) && next == old(next)
    }

    /** What else a node holds, but for its error, is left alone. */
    twostate predicate KeepsContent()
      reads this
    {
      value == old(value) && cdata == old(cdata) && rank == old(rank) &&
      version == old(version) && encoding == old(encoding) && standalone == old(standalone)
    }

    /** The list of a node is left alone. */
    twostate predicate KeepsList()
      reads this
    {
      children == old(children) && firstChild == old(firstChild) && lastChild == old(lastChild)
    }

    /** The pointer part of LinkEndChild. */
    method LinkLast(node: TiXmlNode)
      requires Linked() && node !in children && Once(children, |children| - 1)
      modifies this`firstChild, this`lastChild, this`children, children`next, children`prev
      modifies node`parent, node`prev, node`next
      ensures Linked() && children == old(children) + [node] && node.parent == this
    {
      node.parent := this;
      node.prev := lastChild;
      node.next := null;
      if lastChild != null {
        lastChild.next := node;
      } else {
        firstChild := node;
      }
      lastChild := node;
      ghost var cs := children;
      children := cs + [node];
      InsertedAtEnd(cs, node);
      hide Inserted;
      Woven(cs, node, |cs|);
    }

    /** A node outside of the list gets its place; the list does not know it yet. */
    method Prepare(node: TiXmlNode, before: TiXmlNode?, after: TiXmlNode?)
      requires Linked() && node !in children
      modifies node`parent, node`prev, node`next
      ensures Linked() && node.parent == this && node.prev == before && node.next == after
    {
      node.parent := this;
      node.prev := before;
      node.next := after;
    }

    /** The same, before the node gets its parent. */
    method Place(node: TiXmlNode, before: TiXmlNode?, after: TiXmlNode?)
      requires Linked() && node !in children
      modifies node`prev, node`next
      ensures Linked() && node.prev == before && node.next == after
    {
      node.next := after;
      node.prev := before;
    }

    /** The links of a list with one more node in it. */
    lemma Woven(cs: seq<TiXmlNode>, node: TiXmlNode, k: nat)
      requires k <= |cs| && children == Inserted(cs, node, k) && node.parent == this
      requires firstChild == (if k == 0 then node else cs[0]) && lastChild == (if k == |cs| then node else cs[|cs| - 1])
      requires node.prev == (if k == 0 then null else cs[k - 1]) && node.next == (if k == |cs| then null else cs[k])
      requires forall i {:trigger cs[i].parent} :: 0 <= i < |cs| ==> cs[i].parent == this
      requires forall i {:trigger cs[i].next} :: 0 <= i < |cs| ==>
                 cs[i].next == if i + 1 == k then node else if i + 1 == |cs| then null else cs[i + 1]
      requires forall i {:trigger cs[i].prev} :: 0 <= i < |cs| ==>
                 cs[i].prev == if i == k then node else if i == 0 then null else cs[i - 1]
      ensures Linked()
    {
      hide Inserted;
    }

    /** The pointer part of InsertBeforeChild: what is left to do once the node has its place. */
    method LinkBefore(beforeThis: TiXmlNode, node: TiXmlNode, ghost k: nat)
      requires Linked() && node !in children && Once(children, k) && Once(children, k - 1)
      requires k < |children| && children[k] == beforeThis
      requires node.parent == this && node.next == beforeThis && node.prev == beforeThis.prev
      modifies this`firstChild, this`children, children`next, children`prev
      ensures Linked() && children == Inserted(old(children), node, k)
    {
      if beforeThis.prev != null {
        beforeThis.prev.next := node;
      } else {
        firstChild := node;
      }
      beforeThis.prev := node;
      ghost var cs := children;
      children := Inserted(cs, node, k);
      hide Inserted;
      Woven(cs, node, k);
    }

    /** The pointer part of InsertAfterChild: what is left to do once the node has its place. */
    method LinkAfter(afterThis: TiXmlNode, node: TiXmlNode, ghost k: nat)
      requires Linked() && node !in children && Once(children, k - 1) && Once(children, k)
      requires 0 < k <= |children| && children[k - 1] == afterThis
      requires node.parent == this && node.prev == afterThis && node.next == afterThis.next
      modifies this`lastChild, this`children, children`next, children`prev
      ensures Linked() && children == Inserted(old(children), node, k)
    {
      if afterThis.next != null {
        afterThis.next.prev := node;
      } else {
        lastChild := node;
      }
      afterThis.next := node;
      ghost var cs := children;
      children := Inserted(cs, node, k);
      hide Inserted;
      Woven(cs, node, k);
    }

    /** The links of a list with one node in the place of another. */
    lemma Rewoven(cs: seq<TiXmlNode>, node: TiXmlNode, k: nat)
      requires k < |cs| && children == cs[k := node] && node.parent == this
      requires firstChild == children[0] && lastChild == children[|cs| - 1]
      requires node.next == (if k + 1 < |cs| then cs[k + 1] else null)
      requires node.prev == (if k > 0 then cs[k - 1] else null)
      requires forall i {:trigger cs[i].parent} :: 0 <= i < |cs| && i != k ==> cs[i].parent == this
      requires forall i {:trigger cs[i].next} :: 0 <= i < |cs| && i != k ==>
                 cs[i].next == if i + 1 == k then node else if i + 1 < |cs| then cs[i + 1] else null
      requires forall i {:trigger cs[i].prev} :: 0 <= i < |cs| && i != k ==>
                 cs[i].prev == if i - 1 == k then node else if i > 0 then cs[i - 1] else null
      ensures Linked()
    {
    }

    /** The pointer part of ReplaceChild: what is left to do once the node has its place. */
    method LinkInstead(replaceThis: TiXmlNode, node: TiXmlNode, ghost k: nat)
      requires Linked() && node !in children && Once(children, k - 1) && Once(children, k + 1)
      requires k < |children| && children[k] == replaceThis
      requires node.next == replaceThis.next && node.prev == replaceThis.prev
      modifies this`firstChild, this`lastChild, this`children, children`next, children`prev, node`parent
      ensures Linked() && children == old(children[k := node]) && node.parent == this
    {
      if replaceThis.next != null {
        replaceThis.next.prev := node;
      } else {
        lastChild := node;
      }
      if replaceThis.prev != null {
        replaceThis.prev.next := node;
      } else {
        firstChild := node;
      }
      ghost var cs := children;
      children := cs[k := node];
      node.parent := this;
      Rewoven(cs, node, k);
    }

    /** The links of a list with a node less in it. */
    lemma Unwoven(cs: seq<TiXmlNode>, k: nat)
      requires k < |cs| && children == Without(cs, k)
      requires firstChild == (if k > 0 then cs[0] else if |cs| > 1 then cs[1] else null)
      requires lastChild == (if k + 1 < |cs| then cs[|cs| - 1] else if |cs| > 1 then cs[|cs| - 2] else null)
      requires forall i {:trigger cs[i].parent} :: 0 <= i < |cs| && i != k ==> cs[i].parent == this
      requires forall i {:trigger cs[i].next} :: 0 <= i < |cs| && i != k ==>
                 cs[i].next == var j := if i + 1 == k then k + 1 else i + 1; if j < |cs| then cs[j] else null
      requires forall i {:trigger cs[i].prev} :: 0 <= i < |cs| && i != k ==>
                 cs[i].prev == var j := if i - 1 == k then k - 1 else i - 1; if 0 <= j then cs[j] else null
      ensures Linked()
    {
      hide Without;
    }

    /** The pointer part of RemoveChild. */
    method Unlink(removeThis: TiXmlNode, ghost k: nat)
      requires Linked() && Once(children, k - 1) && Once(children, k + 1)
      requires k < |children| && children[k] == removeThis
      modifies this`firstChild, this`lastChild, this`children, children`next, children`prev
      ensures Linked() && children == Without(old(children), k)
    {
      if removeThis.next != null {
        removeThis.next.prev := removeThis.prev;
      } else {
        lastChild := removeThis.prev;
      }
      if removeThis.prev != null {
        removeThis.prev.next := removeThis.next;
      } else {
        firstChild := removeThis.next;
      }
      ghost var cs := children;
      children := Without(cs, k);
      hide Without;
      Unwoven(cs, k);
    }

    /** Links a node in at a spot of the list; k is its index there. */
    method LinkAt(node: TiXmlNode, spot: Spot, ghost k: nat)
      requires Linked() && node !in children && IsAt(children, spot, k) && Distinct(children)
      modifies this`firstChild, this`lastChild, this`children, children`next, children`prev
      modifies node`parent, node`prev, node`next
      ensures Linked() && children == Inserted(old(children), node, k) && node.parent == this
    {
      hide Inserted;
      match spot {
      case AtEnd =>
        InsertedAtEnd(children, node);
        LinkLast(node);
      case InFrontOf(n) =>
        Prepare(node, n.prev, n);
        LinkBefore(n, node, k);
      case Behind(n) =>
        Prepare(node, n, n.next);
        LinkAfter(n, node, k);
      }
    }

    /** The node has an attribute ring of its own. */
    ghost predicate HasAttributes()
      reads attributeSet, attributeSet.sentinel, attributeSet.items
    {
      attributeSet.Valid() && attributeSet.owner == this
    }

    /** Unlinks a child and lets go of everything below it. */
    method Cut(removeThis: TiXmlNode, ghost k: nat, ghost forest: set<TiXmlNode>) returns (ghost left: set<TiXmlNode>)
      requires IsForest(forest) && this in forest && k < |children| && children[k] == removeThis
      modifies this`firstChild, this`lastChild, this`children, children`next, children`prev
      ensures left == forest - old(Subtree(removeThis, forest)) && this in left && IsForest(left)
      ensures children == Without(old(children), k)
    {
      hide Without, Distinct, Linked, Fits, Subtree;
      HostIs(forest);
      IsSealed(forest);
      left := forest - Subtree(removeThis, forest);
      SubtreeIsCut(this, removeThis, forest, left);
      Unlink(removeThis, k);
      WithoutMembers(old(children), k);
      forall c | c in left
        ensures c !in children ==> c.Stays()
      {
        assert c in old(children) ==> c in children;
      }
      forall m | m in left
        ensures m.Fits(left)
      {
        m.StillFits(this, forest, left);
      }
    }

    /** Puts the root of another forest in the place of a child and lets go of what was there. */
    method Swap(replaceThis: TiXmlNode, node: TiXmlNode, ghost k: nat, ghost forest: set<TiXmlNode>,
                ghost other: set<TiXmlNode>)
      returns (ghost left: set<TiXmlNode>)
      requires IsForest(forest) && IsForest(other) && forest !! other && this in forest
      requires node in other && node.parent == null && node.kind != DocumentType
      requires k < |children| && children[k] == replaceThis
      modifies this`firstChild, this`lastChild, this`children, children`next, children`prev
      modifies node`parent, node`prev, node`next, forest`rank
      ensures left == forest - old(Subtree(replaceThis, forest)) && this in left && IsForest(left + other)
      ensures children == old(children)[k := node] && node.parent == this
    {
      hide Distinct, Linked, Fits, Subtree;
      left := forest - Subtree(replaceThis, forest);
      LiftRanks(forest, node.rank + 1);
      label Lifted:
      HostIs(forest);
      assert replaceThis in children;
      SubtreeKept(replaceThis, forest);
      IsSealed(forest);
      IsSealed(other);
      SubtreeIsCut(this, replaceThis, forest, left);
      Place(node, replaceThis.prev, replaceThis.next);
      LinkInstead(replaceThis, node, k);
      SwappedMembers(old(children), node, k);
      forall c | c in left + other
        ensures c !in children ==> c.Stays@Lifted()
      {
        assert c in old@Lifted(children) && c != replaceThis ==> c in children;
      }
      forall m | m in left + other
        ensures m.Fits(left + other)
      {
        if m in left {
          m.StillFits@Lifted(this, forest, left + other);
        } else {
          m.StillFits@Lifted(this, other, left + other);
        }
      }
    }

    lemma HostIs(forest: set<TiXmlNode>)
      requires IsForest(forest) && this in forest
      ensures Linked() && Distinct(children) && forall j {:trigger Once(children, j)} :: Once(children, j)
      ensures forall c {:trigger c in children} :: c in children ==>
                c in forest && c.parent == this && c.rank < rank && c.kind != DocumentType
    {
      hide IsForest;
      FitsIn(this, forest);
    }

    /** What the node holds. */
    ghost function Look(): (r: Info<TiXmlNode>)
      reads this`value, this`cdata, this`version, this`encoding, this`standalone, this`children
      reads attributeSet, attributeSet.Repr()
      ensures r.kind == kind && r.children == children
    {
      Info(kind, value, cdata, version, encoding, standalone, attributeSet.Entries(), children)
    }

    /** Links in the root of another forest, which becomes part of this one. */
    method Graft(node: TiXmlNode, spot: Spot, ghost k: nat, ghost forest: set<TiXmlNode>, ghost other: set<TiXmlNode>)
      requires IsForest(forest) && IsForest(other) && forest !! other && this in forest
      requires node in other && node.parent == null && node.kind != DocumentType && IsAt(children, spot, k)
      modifies this`firstChild, this`lastChild, this`children, children`next, children`prev
      modifies node`parent, node`prev, node`next, forest`rank
      ensures IsForest(forest + other) && node.parent == this
      ensures children == Inserted(old(children), node, k)
    {
      hide Inserted, Distinct, Linked, Fits;
      LiftRanks(forest, node.rank + 1);
      label Lifted:
      IsOutside(node, forest);
      IsSealed(forest);
      IsSealed(other);
      LinkAt(node, spot, k);
      InsertedMembers(old(children), node, k);
      forall c | c in forest + other
        ensures c !in children ==> c.Stays@Lifted()
      {
        assert c in old@Lifted(children) ==> c in children;
      }
      forall m | m in forest + other
        ensures m.Fits(forest + other)
      {
        if m in forest {
          m.StillFits@Lifted(this, forest, forest + other);
        } else {
          m.StillFits@Lifted(this, other, forest + other);
        }
      }
    }

    /** Links in the root of another forest and changes nothing else in what the nodes hold. */
    method Link(node: TiXmlNode, spot: Spot, ghost k: nat, ghost forest: set<TiXmlNode>, ghost other: set<TiXmlNode>)
      requires IsForest(forest) && IsForest(other) && forest !! other && this in forest
      requires node in other && node.parent == null && node.kind != DocumentType && IsAt(children, spot, k)
      modifies this`firstChild, this`lastChild, this`children, children`next, children`prev
      modifies node`parent, node`prev, node`next, forest`rank
      ensures IsForest(forest + other) && node.parent == this
      ensures Look() == old(Look()).(children := Inserted(old(children), node, k))
      ensures forall m {:trigger m.Look()} {:trigger m.HasAttributes()} :: m in forest + other ==>
                (old(m.HasAttributes()) ==> m.HasAttributes()) && (m != this ==> m.Look() == old(m.Look()))
    {
      hide IsForest, Inserted, Distinct, Linked, Fits, Stays, TiXmlAttributeSet.Valid, EntriesOf;
      Graft(node, spot, k, forest, other);
    }

    /** The document the node is part of, if any: the nearest one on the way up. */
    method GetDocument(ghost forest: set<TiXmlNode>) returns (r: TiXmlNode?)
      requires IsForest(forest) && this in forest
      ensures r == DocumentOf(this, forest) && (r != null ==> r in forest)
    {
      hide TiXmlNode.Linked, Distinct;
      var node: TiXmlNode? := this;
      while node != null
        invariant node != null ==> node in forest
        invariant DocumentOf(this, forest) == if node == null then null else DocumentOf(node, forest)
        decreases if node == null then {} else {node} + Above(node, forest)
      {
        if node.kind == DocumentType {
          return node;
        }
        if node.parent != null {
          IsLower(node, forest);
        }
        node := node.parent;
      }
      r := null;
    }

    /** What happens when a document is to become a child. */
    method Refuse(ghost forest: set<TiXmlNode>)
      requires IsForest(forest) && this in forest
      modifies forest`error
      ensures IsForest(forest) && View(forest) == old(View(forest)) && OneError(forest, old(DocumentOf(this, forest)))
      ensures old(Furnished(forest)) ==> Furnished(forest)
    {
      hide IsForest, DocumentOf, EntriesOf, TiXmlAttributeSet.Valid;
      LooksLikeView(forest);
      ghost var v := View(forest);
      hide View;
      var doc := GetDocument(forest);
      if doc != null {
        doc.SetError(DocumentTopOnly, Null);
      }
      ViewIs(forest, v);
    }

    /** Links in the root of another forest, in terms of what the nodes hold. */
    method LinkIn(node: TiXmlNode, spot: Spot, ghost k: nat, ghost forest: set<TiXmlNode>, ghost other: set<TiXmlNode>)
      requires IsForest(forest) && IsForest(other) && forest !! other && this in forest
      requires Furnished(forest) && Furnished(other) && node in other && node.parent == null
      requires node.kind != DocumentType && IsAt(children, spot, k)
      modifies forest`firstChild, forest`lastChild, forest`children, forest`next, forest`prev, forest`rank
      modifies node`parent, node`prev, node`next
      ensures IsForest(forest + other) && Furnished(forest + other) && node.parent == this
      ensures View(forest + other)
              == Relinked(this, Inserted(old(children), node, k), old(View(forest)) + old(View(other)))
    {
      hide IsForest, TiXmlNode.Look, TiXmlNode.HasAttributes, DocumentOf, Inserted;
      LooksLikeView(forest);
      LooksLikeView(other);
      IsSealed(forest);
      ghost var v := Relinked(this, Inserted(children, node, k), View(forest) + View(other));
      assert this in v;
      hide View;
      assert forall i {:trigger children[i]} :: 0 <= i < |children| ==> children[i] in children;
      Link(node, spot, k, forest, other);
      ViewIs(forest + other, v);
    }

    /** `LinkEndChild` for a node that is not linked yet. A document cannot become a child. */
    method LinkEndChild(node: TiXmlNode, ghost forest: set<TiXmlNode>, ghost other: set<TiXmlNode>)
      returns (r: TiXmlNode?)
      requires IsForest(forest) && IsForest(other) && forest !! other && this in forest
      requires Furnished(forest) && Furnished(other) && node in other && node.parent == null
      modifies forest`firstChild, forest`lastChild, forest`children, forest`next, forest`prev, forest`rank, forest`error
      modifies node`parent, node`prev, node`next
      ensures r == if node.kind == DocumentType then null else node
      ensures r == null ==> IsForest(forest) && Furnished(forest) && View(forest) == old(View(forest))
      ensures r == null ==> OneError(forest, old(DocumentOf(this, forest)))
      ensures r != null ==> IsForest(forest + other) && Furnished(forest + other) && r.parent == this
      ensures r != null ==> forall n {:trigger n.error} :: n in forest ==> n.error == old(n.error)
      ensures r != null ==>
                View(forest + other) == Relinked(this, old(children) + [node], old(View(forest)) + old(View(other)))
    {
      if node.kind == DocumentType {
        Refuse(forest);
        return null;
      }
      InsertedAtEnd(children, node);
      hide *;
      LinkIn(node, AtEnd, |children|, forest, other);
      r := node;
    }

    method SetError(id: ErrorId, p: Ptr)
      modifies this`error
      ensures error == Xml.SetError(old(error), id, p)
    {
      if error.Error? {
        return;
      }
      error := Error(id, PlaceOf(p));
    }

    /** `CopyTo` up to the attributes and children, into a node just made. */
    method CopyFields(target: TiXmlNode)
      requires target != this && target.kind == kind
      modifies target`value, target`cdata, target`version, target`encoding, target`standalone, target`error
      ensures target.Look() == WithFields(Look(), old(target.Look()))
      ensures target.error == if kind == DocumentType then error else old(target.error)
    {
      hide EntriesOf;
      target.value := CStr(value);
      match kind {
      case DocumentType => target.error := error;
      case TextType => target.cdata := cdata;
      case DeclarationType =>
        target.version := version;
        target.encoding := encoding;
        target.standalone := standalone;
      case ElementType =>
      case CommentType =>
      case UnknownType =>
      }
    }

    /** A node like this one, without children. */
    method CloneAlone() returns (clone: TiXmlNode)
      requires HasAttributes()
      ensures fresh(clone) && fresh(clone.attributeSet.Repr()) && clone.HasAttributes()
      ensures IsForest({clone}) && clone.parent == null && clone.kind == kind
      ensures clone.Look() == Copied(old(Look())) && clone.children == []
      ensures clone.error == if kind == DocumentType then error else NoError
    {
      hide EntriesOf, TiXmlAttributeSet.Valid, IsForest, CopyAttrs, Reached;
      clone := new TiXmlNode(kind);
      CopyFields(clone);
      if kind == ElementType {
        attributeSet.CopyTo(clone.attributeSet);
      }
    }

    /** Deep copies: the nodes made are a new forest, whose root is the copy of this node. */
    method Clone(ghost forest: set<TiXmlNode>) returns (clone: TiXmlNode, ghost copy: set<TiXmlNode>)
      requires IsForest(forest) && Furnished(forest) && this in forest
      ensures fresh(copy) && clone in copy && clone.parent == null && clone.kind == kind && IsForest(copy) &&
              Furnished(copy)
      ensures Tree(clone, View(copy)) == CloneOf(Tree(this, View(forest)))
      ensures clone.error == if kind == DocumentType then error else NoError
      decreases rank, 1
    {
      hide IsForest, TiXmlNode.Look, TiXmlNode.HasAttributes, View, Tree, Kids, Copied;
      LooksLikeView(forest);
      ghost var v := View(forest);
      clone := CloneAlone();
      copy := {clone};
      SourceKept(forest);
      if kind == ElementType || kind == DocumentType {
        copy := CloneChildren(clone, copy, forest);
      }
      IsClosed(forest);
      IsClosed(copy);
      LooksLikeView(copy);
      CloneTree(this, v, Ranks(forest), clone, View(copy), Ranks(copy));
    }

    /** The loop over the children in `CopyTo`. */
    method CloneChildren(clone: TiXmlNode, ghost copy: set<TiXmlNode>, ghost forest: set<TiXmlNode>)
      returns (ghost grown: set<TiXmlNode>)
      requires IsForest(forest) && Furnished(forest) && this in forest && copy !! forest
      requires IsForest(copy) && Furnished(copy) && clone in copy && clone.children == []
      modifies copy`firstChild, copy`lastChild, copy`children, copy`next, copy`prev, copy`rank, copy`error
      ensures IsForest(forest) && Furnished(forest) && View(forest) == old(View(forest))
      ensures copy <= grown && fresh(grown - copy) && IsForest(grown) && Furnished(grown)
      ensures clone.Look() == old(clone.Look()).(children := clone.children)
      ensures clone.error == old(clone.error) && clone.parent == old(clone.parent)
      ensures Kids(clone.children, View(grown)) == CloneAll(Kids(children, View(forest)))
      decreases rank, 0
    {
      hide IsForest, TiXmlNode.Look, TiXmlNode.HasAttributes, View, Tree, Kids, Copied;
      ghost var v, cs, i := View(forest), children, 0;
      FirstChildIs(forest);
      grown := copy;
      var node := firstChild;
      while node != null
        invariant IsForest(forest) && Furnished(forest) && View(forest) == v
        invariant children == cs && i <= |cs| && node == if i < |cs| then cs[i] else null
        invariant copy <= grown && fresh(grown - copy) && IsForest(grown) && Furnished(grown)
        invariant clone.Look() == old(clone.Look()).(children := clone.children)
        invariant clone.error == old(clone.error) && clone.parent == old(clone.parent)
        invariant Kids(clone.children, View(grown)) == CloneAll(Kids(cs[..i], v))
        decreases |cs| - i
      {
        ChildIs(forest, i);
        grown := clone.CopyChild(node, grown, forest);
        ChildIs(forest, i);
        CloneStep(cs, i, v);
        node := node.next;
        i := i + 1;
      }
      assert cs[..i] == cs;
    }

    /** This node has got a copy of the tree as its k-th child, and nothing else has changed in what
        the nodes of the forest hold. */
    twostate predicate Gained(new r: TiXmlNode, tree: Node, k: nat, forest: set<TiXmlNode>, new grown: set<TiXmlNode>)
      reads *
    {
      IsForest(grown) && Furnished(grown) && this in forest && forest <= grown && r in grown - forest &&
      r.parent == this &&
      k <= |old(children)| && children == Inserted(old(children), r, k) &&
      Kids(children, View(grown)) == Inserted(Kids(old(children), old(View(forest))), CloneOf(tree), k) &&
      forall m {:trigger m in forest} :: m in forest && m != this ==> View(grown)[m] == old(View(forest))[m]
    }

    /** LinkIn, in terms of the trees. */
    method GraftIn(node: TiXmlNode, spot: Spot, ghost k: nat, ghost forest: set<TiXmlNode>, ghost other: set<TiXmlNode>)
      requires IsForest(forest) && IsForest(other) && forest !! other && this in forest
      requires Furnished(forest) && Furnished(other) && node in other && node.parent == null
      requires node.kind != DocumentType && IsAt(children, spot, k)
      modifies forest`firstChild, forest`lastChild, forest`children, forest`next, forest`prev, forest`rank
      modifies node`parent, node`prev, node`next
      ensures IsForest(forest + other) && Furnished(forest + other) && node.parent == this
      ensures children == Inserted(old(children), node, k)
      ensures Kids(children, View(forest + other))
              == Inserted(Kids(old(children), old(View(forest))), old(Tree(node, View(other))), k)
      ensures forall m {:trigger m in forest} :: m in forest && m != this ==>
                View(forest + other)[m] == old(View(forest))[m]
    {
      hide IsForest, TiXmlNode.Look, TiXmlNode.HasAttributes, View, Tree, Kids, Furnished, Closed, Inserted;
      IsClosed(forest);
      IsClosed(other);
      LooksLikeView(forest);
      GraftedKids(this, View(forest), Ranks(forest), node, View(other), Ranks(other), k);
      LinkIn(node, spot, k, forest, other);
      LooksLikeView(forest + other);
    }

    /** Links in a copy of a node; nothing else changes in what the nodes hold. */
    method InsertClone(addThis: TiXmlNode, spot: Spot, ghost k: nat, ghost forest: set<TiXmlNode>)
      returns (r: TiXmlNode, ghost grown: set<TiXmlNode>)
      requires IsForest(forest) && Furnished(forest) && this in forest && addThis in forest && IsAt(children, spot, k)
      requires addThis.kind != DocumentType
      modifies forest`firstChild, forest`lastChild, forest`children, forest`next, forest`prev, forest`rank
      ensures fresh(grown - forest) && Gained(r, old(Tree(addThis, View(forest))), k, forest, grown)
    {
      hide IsForest, Furnished, View, Tree, Kids, Inserted, CloneOf;
      ghost var sub;
      r, sub := addThis.Clone(forest);
      SourceKept(forest);
      GraftIn(r, spot, k, forest, sub);
      grown := forest + sub;
    }

    /** Nothing has changed but the error of the document, if it is to be told. */
    twostate predicate Refused(forest: set<TiXmlNode>, told: bool)
      requires old(IsForest(forest)) && this in forest
      reads *
    {
      IsForest(forest) && Furnished(forest) && View(forest) == old(View(forest)) &&
      OneError(forest, if told then old(DocumentOf(this, forest)) else null)
    }

    /** The index of a child. */
    lemma IndexOf(c: TiXmlNode, forest: set<TiXmlNode>) returns (k: nat)
      requires IsForest(forest) && c in forest && c.parent == this
      ensures k < |children| && children[k] == c
    {
      hide IsForest, Linked;
      FitsIn(c, forest);
      k :| k < |children| && children[k] == c;
    }

    method InsertEndChild(addThis: TiXmlNode, ghost forest: set<TiXmlNode>)
      returns (r: TiXmlNode?, ghost grown: set<TiXmlNode>)
      requires IsForest(forest) && Furnished(forest) && this in forest && addThis in forest
      modifies forest`firstChild, forest`lastChild, forest`children, forest`next, forest`prev, forest`rank, forest`error
      ensures r == null <==> addThis.kind == DocumentType
      ensures r != null ==> Gained(r, old(Tree(addThis, View(forest))), |old(children)|, forest, grown)
      ensures r == null ==> Refused(forest, true)
    {
      hide IsForest, View, Tree, Kids, Furnished, Inserted, DocumentOf;
      if addThis.kind == DocumentType {
        Refuse(forest);
        return null, forest;
      }
      r, grown := InsertClone(addThis, AtEnd, |children|, forest);
    }

    method InsertBeforeChild(beforeThis: TiXmlNode?, addThis: TiXmlNode, ghost forest: set<TiXmlNode>)
      returns (r: TiXmlNode?, ghost k: nat, ghost grown: set<TiXmlNode>)
      requires IsForest(forest) && Furnished(forest) && this in forest && addThis in forest
      requires beforeThis != null ==> beforeThis in forest
      modifies forest`firstChild, forest`lastChild, forest`children, forest`next, forest`prev, forest`rank, forest`error
      ensures r != null <==> beforeThis != null && old(beforeThis.parent) == this && addThis.kind != DocumentType
      ensures r != null ==> k < |old(children)| && old(children)[k] == beforeThis
      ensures r != null ==> Gained(r, old(Tree(addThis, View(forest))), k, forest, grown)
      ensures r == null ==> Refused(forest, beforeThis != null && old(beforeThis.parent) == this)
    {
      hide IsForest, View, Tree, Kids, Furnished, Inserted, DocumentOf;
      if beforeThis == null || beforeThis.parent != this {
        return null, 0, forest;
      }
      if addThis.kind == DocumentType {
        Refuse(forest);
        return null, 0, forest;
      }
      k := IndexOf(beforeThis, forest);
      r, grown := InsertClone(addThis, InFrontOf(beforeThis), k, forest);
    }

    method InsertAfterChild(afterThis: TiXmlNode?, addThis: TiXmlNode, ghost forest: set<TiXmlNode>)
      returns (r: TiXmlNode?, ghost k: nat, ghost grown: set<TiXmlNode>)
      requires IsForest(forest) && Furnished(forest) && this in forest && addThis in forest
      requires afterThis != null ==> afterThis in forest
      modifies forest`firstChild, forest`lastChild, forest`children, forest`next, forest`prev, forest`rank, forest`error
      ensures r != null <==> afterThis != null && old(afterThis.parent) == this && addThis.kind != DocumentType
      ensures r != null ==> k < |old(children)| && old(children)[k] == afterThis
      ensures r != null ==> Gained(r, old(Tree(addThis, View(forest))), k + 1, forest, grown)
      ensures r == null ==> Refused(forest, afterThis != null && old(afterThis.parent) == this)
    {
      hide IsForest, View, Tree, Kids, Furnished, Inserted, DocumentOf;
      if afterThis == null || afterThis.parent != this {
        return null, 0, forest;
      }
      if addThis.kind == DocumentType {
        Refuse(forest);
        return null, 0, forest;
      }
      k := IndexOf(afterThis, forest);
      r, grown := InsertClone(addThis, Behind(afterThis), k + 1, forest);
    }

    /** Cut, in terms of what the nodes hold. */
    method Detach(removeThis: TiXmlNode, ghost k: nat, ghost forest: set<TiXmlNode>)
      returns (ghost left: set<TiXmlNode>)
      requires IsForest(forest) && this in forest && k < |children| && children[k] == removeThis
      modifies this`firstChild, this`lastChild, this`children, children`next, children`prev
      ensures left == forest - old(Subtree(removeThis, forest)) && this in left && IsForest(left)
      ensures Look() == old(Look()).(children := Without(old(children), k))
      ensures forall m {:trigger m.Look()} {:trigger m.HasAttributes()} :: m in left ==>
                (old(m.HasAttributes()) ==> m.HasAttributes()) && (m != this ==> m.Look() == old(m.Look()))
    {
      hide IsForest, Without, Distinct, Linked, Fits, Stays, TiXmlAttributeSet.Valid, EntriesOf, Subtree;
      left := Cut(removeThis, k, forest);
    }

    /** This node has lost its k-th child, and nothing else has changed in what the nodes left hold. */
    twostate predicate Lost(k: nat, forest: set<TiXmlNode>, new left: set<TiXmlNode>)
      reads *
    {
      IsForest(left) && Furnished(left) && this in left && left <= forest &&
      k < |old(children)| && children == Without(old(children), k) &&
      Kids(children, View(left)) == Without(Kids(old(children), old(View(forest))), k) &&
      forall m {:trigger m in left} :: m in left && m != this ==> View(left)[m] == old(View(forest))[m]
    }

    method RemoveChild(removeThis: TiXmlNode?, ghost forest: set<TiXmlNode>)
      returns (ok: bool, ghost k: nat, ghost left: set<TiXmlNode>)
      requires IsForest(forest) && Furnished(forest) && this in forest && (removeThis != null ==> removeThis in forest)
      modifies forest`firstChild, forest`lastChild, forest`children, forest`next, forest`prev
      ensures ok <==> removeThis != null && old(removeThis.parent) == this
      ensures ok ==> k < |old(children)| && old(children)[k] == removeThis
      ensures ok ==> left == forest - old(Subtree(removeThis, forest)) && Lost(k, forest, left)
      ensures !ok ==> Refused(forest, false)
    {
      hide IsForest, TiXmlNode.Look, TiXmlNode.HasAttributes, Linked, View, Tree;
      hide Kids, Closed, Without, DocumentOf, Subtree;
      if removeThis == null || removeThis.parent != this {
        return false, 0, forest;
      }
      k := IndexOf(removeThis, forest);
      LooksLikeView(forest);
      IsSealed(forest);
      ghost var s := View(forest);
      assert forall i {:trigger children[i]} :: 0 <= i < |children| ==> children[i] in children;
      left := Detach(removeThis, k, forest);
      LooksLikeView(left);
      IsClosed(left);
      UnlinkedKids(this, s, k, View(left), Ranks(left));
      ok := true;
    }

    /** Swap, in terms of what the nodes hold. */
    method Exchange(replaceThis: TiXmlNode, node: TiXmlNode, ghost k: nat, ghost forest: set<TiXmlNode>,
                    ghost other: set<TiXmlNode>)
      returns (ghost left: set<TiXmlNode>)
      requires IsForest(forest) && IsForest(other) && forest !! other && this in forest
      requires node in other && node.parent == null && node.kind != DocumentType
      requires k < |children| && children[k] == replaceThis
      modifies this`firstChild, this`lastChild, this`children, children`next, children`prev
      modifies node`parent, node`prev, node`next, forest`rank
      ensures left == forest - old(Subtree(replaceThis, forest)) && this in left && IsForest(left + other)
      ensures Look() == old(Look()).(children := old(children)[k := node]) && node.parent == this
      ensures forall m {:trigger m.Look()} {:trigger m.HasAttributes()} :: m in left + other ==>
                (old(m.HasAttributes()) ==> m.HasAttributes()) && (m != this ==> m.Look() == old(m.Look()))
    {
      hide IsForest, Distinct, Linked, Fits, Stays, TiXmlAttributeSet.Valid, EntriesOf, Subtree;
      left := Swap(replaceThis, node, k, forest, other);
    }

    /** This node has got a copy of the tree in the place of its k-th child, and nothing else has
        changed in what the nodes left hold. */
    twostate predicate Traded(new r: TiXmlNode, tree: Node, k: nat, left: set<TiXmlNode>, forest: set<TiXmlNode>,
                              new grown: set<TiXmlNode>)
      reads *
    {
      IsForest(grown) && Furnished(grown) && this in left && left <= grown && left <= forest &&
      grown !! forest - left && r in grown - left && r.parent == this &&
      k < |old(children)| && children == old(children)[k := r] &&
      Kids(children, View(grown)) == Kids(old(children), old(View(forest)))[k := CloneOf(tree)] &&
      forall m {:trigger m in left} :: m in left && m != this ==> View(grown)[m] == old(View(forest))[m]
    }

    /** Exchange, in terms of the trees. */
    method SwapIn(replaceThis: TiXmlNode, node: TiXmlNode, ghost k: nat, ghost forest: set<TiXmlNode>,
                  ghost other: set<TiXmlNode>)
      returns (ghost left: set<TiXmlNode>)
      requires IsForest(forest) && IsForest(other) && forest !! other && this in forest
      requires Furnished(forest) && Furnished(other) && node in other && node.parent == null &&
               node.kind != DocumentType
      requires k < |children| && children[k] == replaceThis
      modifies forest`firstChild, forest`lastChild, forest`children, forest`next, forest`prev, forest`rank
      modifies node`parent, node`prev, node`next
      ensures left == forest - old(Subtree(replaceThis, forest)) && this in left
      ensures IsForest(left + other) && Furnished(left + other)
      ensures children == old(children)[k := node] && node.parent == this
      ensures Kids(children, View(left + other))
              == Kids(old(children), old(View(forest)))[k := old(Tree(node, View(other)))]
      ensures forall m {:trigger m in left} :: m in left && m != this ==> View(left + other)[m] == old(View(forest))[m]
    {
      hide IsForest, TiXmlNode.Look, TiXmlNode.HasAttributes, Linked, View, Tree, Kids, Closed, Subtree;
      LooksLikeView(forest);
      LooksLikeView(other);
      IsClosed(forest);
      IsClosed(other);
      IsSealed(forest);
      ghost var s, rs, u, ru := View(forest), Ranks(forest), View(other), Ranks(other);
      assert forall i {:trigger children[i]} :: 0 <= i < |children| ==> children[i] in children;
      left := Exchange(replaceThis, node, k, forest, other);
      LooksLikeView(left + other);
      IsClosed(left + other);
      SwappedKids(this, s, rs, node, u, ru, k, View(left + other), Ranks(left + other));
    }

    /** Puts a copy of a node in the place of a child. */
    method SwapClone(replaceThis: TiXmlNode, withThis: TiXmlNode, ghost k: nat, ghost forest: set<TiXmlNode>)
      returns (r: TiXmlNode, ghost left: set<TiXmlNode>, ghost grown: set<TiXmlNode>)
      requires IsForest(forest) && Furnished(forest) && this in forest && withThis in forest
      requires withThis.kind != DocumentType && k < |children| && children[k] == replaceThis
      modifies forest`firstChild, forest`lastChild, forest`children, forest`next, forest`prev, forest`rank
      ensures left == forest - old(Subtree(replaceThis, forest))
      ensures fresh(grown - left) && Traded(r, old(Tree(withThis, View(forest))), k, left, forest, grown)
    {
      hide IsForest, Furnished, View, Tree, Kids, CloneOf, Subtree;
      IsSealed(forest);
      assert replaceThis in children;
      ghost var sub;
      r, sub := withThis.Clone(forest);
      SourceKept(forest);
      SubtreeKept(replaceThis, forest);
      left := SwapIn(replaceThis, r, k, forest, sub);
      grown := left + sub;
    }

    method ReplaceChild(replaceThis: TiXmlNode?, withThis: TiXmlNode, ghost forest: set<TiXmlNode>)
      returns (r: TiXmlNode?, ghost k: nat, ghost left: set<TiXmlNode>, ghost grown: set<TiXmlNode>)
      requires IsForest(forest) && Furnished(forest) && this in forest && withThis in forest
      requires replaceThis != null ==> replaceThis in forest
      modifies forest`firstChild, forest`lastChild, forest`children, forest`next, forest`prev, forest`rank, forest`error
      ensures r != null <==> replaceThis != null && old(replaceThis.parent) == this && withThis.kind != DocumentType
      ensures r != null ==> k < |old(children)| && old(children)[k] == replaceThis
      ensures r != null ==> left == forest - old(Subtree(replaceThis, forest))
      ensures r != null ==> fresh(grown - left) && Traded(r, old(Tree(withThis, View(forest))), k, left, forest, grown)
      ensures r == null ==> Refused(forest, replaceThis != null && old(replaceThis.parent) == this)
    {
      hide IsForest, View, Tree, Kids, Furnished, DocumentOf, Subtree;
      if replaceThis == null || replaceThis.parent != this {
        return null, 0, forest, forest;
      }
      if withThis.kind == DocumentType {
        Refuse(forest);
        return null, 0, forest, forest;
      }
      k := IndexOf(replaceThis, forest);
      r, left, grown := SwapClone(replaceThis, withThis, k, forest);
    }

    lemma FirstChildIs(forest: set<TiXmlNode>)
      requires IsForest(forest) && this in forest
      ensures firstChild == if children == [] then null else children[0]
    {
      hide IsForest;
      FitsIn(this, forest);
    }

    lemma ChildIs(forest: set<TiXmlNode>, i: nat)
      requires IsForest(forest) && this in forest && i < |children|
      ensures children[i] in forest && children[i].rank < rank && children[i].kind != DocumentType
      ensures children[i].next == if i + 1 < |children| then children[i + 1] else null
    {
      hide IsForest;
      FitsIn(this, forest);
    }

    /** `LinkEndChild` for the root of another forest, in terms of the trees. */
    method Adopt(node: TiXmlNode, ghost forest: set<TiXmlNode>, ghost other: set<TiXmlNode>)
      requires IsForest(forest) && Furnished(forest) && this in forest && forest !! other
      requires IsForest(other) && Furnished(other) && node in other && node.parent == null && node.kind != DocumentType
      modifies forest`firstChild, forest`lastChild, forest`children, forest`next, forest`prev, forest`rank, forest`error
      modifies node`parent, node`prev, node`next
      ensures IsForest(forest + other) && Furnished(forest + other)
      ensures Look() == old(Look()).(children := children)
      ensures forall n {:trigger n.error} :: n in forest ==> n.error == old(n.error)
      ensures Kids(children, View(forest + other)) == old(Kids(children, View(forest))) + [old(Tree(node, View(other)))]
    {
      hide IsForest, TiXmlNode.Look, TiXmlNode.HasAttributes, View, Tree, Kids, Furnished, Closed;
      IsClosed(forest);
      IsClosed(other);
      LooksLikeView(forest);
      GrownKids(this, View(forest), Ranks(forest), node, View(other), Ranks(other));
      var r := LinkEndChild(node, forest, other);
      LooksLikeView(forest + other);
    }

    /** One round of the loop over the children in `CopyTo`: the copy of a node becomes the last child. */
    method AdoptClone(node: TiXmlNode, ghost copy: set<TiXmlNode>, ghost forest: set<TiXmlNode>)
      returns (ghost grown: set<TiXmlNode>)
      requires IsForest(copy) && Furnished(copy) && this in copy && copy !! forest
      requires IsForest(forest) && Furnished(forest) && node in forest && node.kind != DocumentType
      modifies copy`firstChild, copy`lastChild, copy`children, copy`next, copy`prev, copy`rank, copy`error
      ensures copy <= grown && fresh(grown - copy) && IsForest(grown) && Furnished(grown)
      ensures Look() == old(Look()).(children := children) && error == old(error) && parent == old(parent)
      ensures Kids(children, View(grown)) == old(Kids(children, View(copy))) + [CloneOf(Tree(node, old(View(forest))))]
      decreases node.rank, 2
    {
      hide IsForest, View, Tree, Kids, Furnished, TiXmlAttributeSet.Valid, EntriesOf, CloneOf;
      var clone;
      ghost var sub;
      clone, sub := node.Clone(forest);
      SourceKept(copy);
      Adopt(clone, copy, sub);
      grown := copy + sub;
    }

    /** The same; the forest the node is in is left alone. */
    method CopyChild(node: TiXmlNode, ghost copy: set<TiXmlNode>, ghost forest: set<TiXmlNode>)
      returns (ghost grown: set<TiXmlNode>)
      requires IsForest(copy) && Furnished(copy) && this in copy && copy !! forest
      requires IsForest(forest) && Furnished(forest) && node in forest && node.kind != DocumentType
      modifies copy`firstChild, copy`lastChild, copy`children, copy`next, copy`prev, copy`rank, copy`error
      ensures IsForest(forest) && Furnished(forest) && View(forest) == old(View(forest))
      ensures copy <= grown && fresh(grown - copy) && IsForest(grown) && Furnished(grown)
      ensures Look() == old(Look()).(children := children) && error == old(error) && parent == old(parent)
      ensures Kids(children, View(grown)) == old(Kids(children, View(copy))) + [CloneOf(Tree(node, old(View(forest))))]
      decreases node.rank, 3
    {
      hide IsForest, TiXmlNode.Look, View, Tree, Kids, Furnished, CloneOf;
      grown := AdoptClone(node, copy, forest);
      SourceKept(forest);
    }

    /** The list of a node of the forest. */
    lemma IsOutside(node: TiXmlNode, forest: set<TiXmlNode>)
      requires IsForest(forest) && this in forest && node !in forest
      ensures node !in children && Linked() && Distinct(children)
      ensures forall c {:trigger c in children} :: c in children ==>
                c in forest && c.parent == this && c.rank < rank && c.kind != DocumentType
    {
      assert Fits(forest);
    }

    /** A change of the list of one node, the host, leaves the other nodes of the forest fitting in. */
    twostate lemma StillFits(new host: TiXmlNode, new before: set<TiXmlNode>, new kept: set<TiXmlNode>)
      requires old(allocated(host)) && old(allocated(before)) && old(allocated(kept))
      requires host in kept && this in kept && old(Fits(before))
      requires host.Linked() && Distinct(host.children)
      requires forall c {:trigger c in host.children} :: c in host.children ==>
                 c in kept && c.rank < host.rank && c.kind != DocumentType && old(c.parent) in {null, host}
      requires old(host.Linked()) && (this in old(host.children) ==> this in host.children)
      requires this != host ==> forall c {:trigger c in children} :: c in children ==> c in kept
      requires this !in host.children && parent != null ==> parent in kept
      requires forall c {:trigger c.KeepsList()} :: c in kept ==>
                 c.rank == old(c.rank) && (c != host ==> c.KeepsList()) && (c !in host.children ==> c.Stays())
      ensures Fits(kept)
    {
      hide Distinct, IsForest;
      assert KeepsList() || this == host;
      if this == host {
        forall i {:trigger children[i]} | 0 <= i < |children|
          ensures children[i] in kept && children[i].rank < rank && children[i].kind != DocumentType
        {
          assert children[i] in host.children;
        }
        assert Stays();
      } else {
        forall i {:trigger children[i]} | 0 <= i < |children|
          ensures children[i].Stays() && children[i] in kept && children[i].rank < rank
        {
          assert children[i] in children;
          assert old(children[i].parent) == this;
          assert children[i].KeepsList() || children[i] == host;
          assert children[i] !in host.children;
        }
      }
      if this !in host.children && parent != null {
        assert parent.KeepsList() || parent == host;
      }
    }
  }

  /** Puts a forest on higher ground. */
  ghost method LiftRanks(forest: set<TiXmlNode>, lift: nat)
    requires IsForest(forest)
    modifies forest`rank
    ensures IsForest(forest) && forall n {:trigger n.rank} :: n in forest ==> n.rank == old(n.rank) + lift
  {
    forall n | n in forest {
      n.rank := n.rank + lift;
    }
    forall n | n in forest
      ensures n.Fits(forest)
    {
      assert old(n.Fits(forest));
    }
  }

  twostate lemma {:induction false} StillUnder(new n: TiXmlNode, new top: TiXmlNode, new forest: set<TiXmlNode>)
    requires old(allocated(n)) && old(allocated(top)) && old(allocated(forest))
    requires old(IsForest(forest)) && IsForest(forest) && n in forest && top in forest
    requires forall m {:trigger m.parent} :: m in forest ==> m.parent == old(m.parent)
    ensures IsUnder(n, top, forest) <==> old(IsUnder(n, top, forest))
    decreases old(Above(n, forest))
  {
    hide TiXmlNode.Linked, Distinct;
    if n.parent != null {
      assert old(n.Fits(forest)) && old(n.parent.Fits(forest));
      assert n in old(n.parent.children);
      assert n.parent in old(Above(n, forest));
      StillUnder(n.parent, top, forest);
    }
  }

  lemma {:induction false} UnderIsLower(n: TiXmlNode, top: TiXmlNode, forest: set<TiXmlNode>)
    requires IsForest(forest) && n in forest && IsUnder(n, top, forest)
    ensures n.rank <= top.rank
    decreases Above(n, forest)
  {
    hide IsForest;
    if n != top {
      IsLower(n, forest);
      UnderIsLower(n.parent, top, forest);
    }
  }

  /** Without a subtree, the nodes left point at it from nowhere but the list its top is in. */
  lemma SubtreeIsCut(host: TiXmlNode, top: TiXmlNode, forest: set<TiXmlNode>, left: set<TiXmlNode>)
    requires IsForest(forest) && host in forest && top in host.children && left == forest - Subtree(top, forest)
    ensures host in left && top !in left
    ensures forall n {:trigger n.parent} :: n in left && n.parent != null ==> n.parent in left
    ensures forall n, c {:trigger c in n.children} :: n in left && c in n.children && (c != top || n != host) ==>
            c in left
  {
    hide IsForest, TiXmlNode.Fits;
    host.HostIs(forest);
    if IsUnder(host, top, forest) {
      UnderIsLower(host, top, forest);
    }
    forall n, c | n in left && c in n.children && (c != top || n != host)
      ensures c in left
    {
      n.HostIs(forest);
    }
    forall n | n in left && n.parent != null
      ensures n.parent in left
    {
      IsLower(n, forest);
    }
  }

  lemma FitsIn(n: TiXmlNode, forest: set<TiXmlNode>)
    requires IsForest(forest) && n in forest
    ensures n.Fits(forest)
  {
    hide TiXmlNode.Fits;
  }

  lemma LooksLikeView(forest: set<TiXmlNode>)
    ensures View(forest).Keys == forest
    ensures forall n {:trigger n in forest} :: n in forest ==> n.Look() == View(forest)[n]
  {
    hide TiXmlNode.Look;
  }

  /** What is left alone stays a forest and looks the same. */
  twostate lemma SourceKept(forest: set<TiXmlNode>)
    requires old(IsForest(forest)) && old(Furnished(forest))
    requires forall n {:trigger n in forest} :: n in forest ==>
               n.Stays() && n.KeepsList() && n.KeepsContent() && unchanged(old(n.attributeSet.Repr()))
    ensures IsForest(forest) && Furnished(forest) && View(forest) == old(View(forest))
    ensures forall n {:trigger n in forest} :: n in forest ==> n.Look() == old(n.Look())
  {
    hide IsForest, TiXmlAttributeSet.Valid, EntriesOf;
  }

  twostate lemma SubtreeKept(new top: TiXmlNode, new forest: set<TiXmlNode>)
    requires old(allocated(top)) && old(allocated(forest)) && top in forest
    requires old(IsForest(forest)) && IsForest(forest)
    requires forall n {:trigger n.parent} :: n in forest ==> n.parent == old(n.parent)
    ensures Subtree(top, forest) == old(Subtree(top, forest))
  {
    hide IsForest;
    forall n | n in forest
      ensures IsUnder(n, top, forest) <==> old(IsUnder(n, top, forest))
    {
      StillUnder(n, top, forest);
    }
  }

  lemma ViewIs(forest: set<TiXmlNode>, s: map<TiXmlNode, Info<TiXmlNode>>)
    requires s.Keys == forest && forall n {:trigger n in forest} :: n in forest ==> n.Look() == s[n]
    ensures View(forest) == s
  {
    hide TiXmlNode.Look;
  }

  /** What the copy of a node holds once its own fields are set. */
  ghost function WithFields(info: Info<TiXmlNode>, target: Info<TiXmlNode>): Info<TiXmlNode> {
    var r := target.(value := CStr(info.value));
    match info.kind
    case TextType => r.(cdata := info.cdata)
    case DeclarationType => r.(version := info.version, encoding := info.encoding, standalone := info.standalone)
    case _ => r
  }

  /** What the copy of a node holds before it has children. */
  ghost function Copied(info: Info<TiXmlNode>): (r: Info<TiXmlNode>)
    ensures r.children == []
  {
    var blank := Info(info.kind, [], false, [], [], [], [], []);
    WithFields(info, blank).(attrs := if info.kind == ElementType then CopyAttrs(Reached(info.attrs), []) else [])
  }

  lemma CopiedTree(info: Info<TiXmlNode>, kids: seq<Node>)
    ensures AsNode(Copied(info), CloneAll(kids)) == CloneOf(AsNode(info, kids))
  {
    assert Reached([]) == [] && CopyAttrs([], []) == [];
    assert info.kind == DocumentType || info.kind == ElementType || info.kind == CommentType || info.kind == TextType
           || info.kind == UnknownType || info.kind == DeclarationType;
  }

  ghost function Ranks(forest: set<TiXmlNode>): map<TiXmlNode, nat>
    reads forest`rank
  {
    map n | n in forest :: n.rank
  }

  lemma IsClosed(forest: set<TiXmlNode>)
    requires IsForest(forest)
    ensures Closed(forest, View(forest), Ranks(forest)) && View(forest).Keys == forest
    ensures forall n {:trigger View(forest)[n]} :: n in forest ==> View(forest)[n] == n.Look()
  {
    hide TiXmlNode.Linked, Distinct;
    forall n, i | n in forest && 0 <= i < |n.children|
      ensures n.children[i] in forest && n.children[i].rank < n.rank
    {
      assert n.Fits(forest);
    }
  }

  /** The trees of the children, the root m of another forest being put among them. */
  lemma GraftedKids(n: TiXmlNode, s: map<TiXmlNode, Info<TiXmlNode>>, rs: map<TiXmlNode, nat>,
                    m: TiXmlNode, u: map<TiXmlNode, Info<TiXmlNode>>, ru: map<TiXmlNode, nat>, k: nat)
    requires n in s && Closed(s.Keys, s, rs) && m in u && Closed(u.Keys, u, ru) && s.Keys !! u.Keys
    requires k <= |s[n].children|
    ensures var ds := Inserted(s[n].children, m, k);
            Kids(ds, Relinked(n, ds, s + u)) == Inserted(Kids(s[n].children, s), Tree(m, u), k)
  {
    hide Tree, Kids, Closed, Inserted;
    LinkedKids(n, s, rs, m, u, ru, k, Relinked(n, Inserted(s[n].children, m, k), s + u));
  }

  /** The same, for a node put behind them. */
  lemma GrownKids(n: TiXmlNode, s: map<TiXmlNode, Info<TiXmlNode>>, rs: map<TiXmlNode, nat>,
                  m: TiXmlNode, u: map<TiXmlNode, Info<TiXmlNode>>, ru: map<TiXmlNode, nat>)
    requires n in s && Closed(s.Keys, s, rs) && m in u && Closed(u.Keys, u, ru) && s.Keys !! u.Keys
    ensures Kids(s[n].children + [m], Relinked(n, s[n].children + [m], s + u)) == Kids(s[n].children, s) + [Tree(m, u)]
  {
    hide Tree, Kids, Closed, Relinked;
    InsertedAtEnd(s[n].children, m);
    InsertedAtEnd(Kids(s[n].children, s), Tree(m, u));
    GraftedKids(n, s, rs, m, u, ru, |s[n].children|);
  }

  /** The tree of a node, by what it holds and the trees of its children. */
  lemma TreeOf(n: TiXmlNode, forest: set<TiXmlNode>)
    requires IsForest(forest) && n in forest
    ensures Tree(n, View(forest)) == AsNode(n.Look(), Kids(n.children, View(forest)))
  {
    hide IsForest, Tree, Kids;
    IsClosed(forest);
    LooksLikeView(forest);
    TreeIs(n, View(forest), Ranks(forest));
  }

  /** A copied node over copied children is a copied tree. */
  lemma CloneTree(n: TiXmlNode, v: map<TiXmlNode, Info<TiXmlNode>>, rv: map<TiXmlNode, nat>,
                  c: TiXmlNode, w: map<TiXmlNode, Info<TiXmlNode>>, rw: map<TiXmlNode, nat>)
    requires n in v && Closed(v.Keys, v, rv) && c in w && Closed(w.Keys, w, rw)
    requires w[c] == Copied(v[n]).(children := w[c].children)
    requires v[n].kind in {ElementType, DocumentType} ==>
               Kids(w[c].children, w) == CloneAll(Kids(v[n].children, v))
    ensures Tree(c, w) == CloneOf(Tree(n, v))
  {
    hide Kids, CloneOf, CloneAll, Tree, Closed;
    TreeIs(n, v, rv);
    TreeIs(c, w, rw);
    CopiedTree(v[n], Kids(v[n].children, v));
  }

  lemma CloneStep(cs: seq<TiXmlNode>, i: nat, v: map<TiXmlNode, Info<TiXmlNode>>)
    requires i < |cs|
    ensures CloneAll(Kids(cs[..i + 1], v)) == CloneAll(Kids(cs[..i], v)) + [CloneOf(Tree(cs[i], v))]
  {
    hide Tree, CloneOf;
  }

  /** Nodes do not share their attributes. */
  lemma RingsApart(m: TiXmlNode, n: TiXmlNode)
    requires m.HasAttributes() && n.HasAttributes() && m != n
    ensures m.attributeSet.Repr() !! n.attributeSet.Repr()
  {
    SetsApart(m.attributeSet, n.attributeSet);
  }

  lemma RingsOutside(n: TiXmlNode, forest: set<TiXmlNode>)
    requires Furnished(forest) && n.HasAttributes() && n !in forest
    ensures forall m {:trigger m in forest} :: m in forest ==> m.attributeSet.Repr() !! n.attributeSet.Repr()
  {
    hide TiXmlNode.HasAttributes;
    forall m | m in forest
      ensures m.attributeSet.Repr() !! n.attributeSet.Repr()
    {
      RingsApart(m, n);
    }
  }

  lemma OwnChildren<N>(info: Info<N>)
    ensures info.(children := info.children) == info
  {
  }

  /** No node of a forest points out of it. */
  lemma IsSealed(forest: set<TiXmlNode>)
    requires IsForest(forest)
    ensures forall n {:trigger n.parent} :: n in forest && n.parent != null ==> n.parent in forest
    ensures forall n, c {:trigger c in n.children} :: n in forest && c in n.children ==> c in forest
  {
    forall n | n in forest
      ensures n.parent != null ==> n.parent in forest
      ensures forall c {:trigger c in n.children} :: c in n.children ==> c in forest
    {
      assert n.Fits(forest);
    }
  }

  lemma InsertedMembers(cs: seq<TiXmlNode>, node: TiXmlNode, k: nat)
    requires k <= |cs| && node !in cs && Distinct(cs)
    ensures Distinct(Inserted(cs, node, k)) && node in Inserted(cs, node, k)
    ensures forall c {:trigger c in Inserted(cs, node, k)} :: c in Inserted(cs, node, k) ==> c in cs || c == node
    ensures forall c {:trigger c in cs} :: c in cs ==> c in Inserted(cs, node, k)
  {
    hide Inserted;
    var s := Inserted(cs, node, k);
    assert forall i {:trigger cs[i]} :: 0 <= i < |cs| ==> cs[i] == s[if i < k then i else i + 1];
  }

  lemma WithoutMembers(cs: seq<TiXmlNode>, k: nat)
    requires k < |cs| && Distinct(cs)
    ensures Distinct(Without(cs, k)) && cs[k] !in Without(cs, k)
    ensures forall c {:trigger c in Without(cs, k)} :: c in Without(cs, k) ==> c in cs
    ensures forall c {:trigger c in cs} :: c in cs && c != cs[k] ==> c in Without(cs, k)
  {
    hide Without;
    var s := Without(cs, k);
    assert forall i {:trigger cs[i]} :: 0 <= i < |cs| && i != k ==> cs[i] == s[if i < k then i else i - 1];
  }

  lemma SwappedMembers(cs: seq<TiXmlNode>, node: TiXmlNode, k: nat)
    requires k < |cs| && Distinct(cs) && node !in cs
    ensures Distinct(cs[k := node]) && cs[k] !in cs[k := node] && node in cs[k := node]
    ensures forall c {:trigger c in cs[k := node]} :: c in cs[k := node] ==> c in cs || c == node
    ensures forall c {:trigger c in cs} :: c in cs && c != cs[k] ==> c in cs[k := node]
  {
    var s := cs[k := node];
    assert s[k] == node;
    assert forall i {:trigger cs[i]} :: 0 <= i < |cs| && i != k ==> cs[i] == s[i];
  }
}
