/** What the nodes of a forest hold, as a map, and the trees that follow from it. */
module Store {
  import opened Bytes
  import opened Xml

  datatype NodeType = DocumentType | ElementType | CommentType | UnknownType | TextType | DeclarationType

  /** What a node holds; its children are known by reference. */
  datatype Info<N> = Info(kind: NodeType, value: bytes, cdata: bool, version: bytes, encoding: bytes, standalone: bytes,
                          attrs: seq<Attr>, children: seq<N>)

  /** The tree below a node. A document stands for an element without attributes. */
  ghost function Tree<N>(n: N, s: map<N, Info<N>>): Node
    decreases s.Keys, 0
  {
    if n !in s then Unrecognized([]) else AsNode(s[n], Kids(s[n].children, s - {n}))
  }

  /** The trees of several nodes. A node is never below itself, so no node is visited twice. */
  ghost function Kids<N>(cs: seq<N>, s: map<N, Info<N>>): (r: seq<Node>)
    ensures |r| == |cs| && forall i {:trigger r[i]} :: 0 <= i < |r| ==> r[i] == Tree(cs[i], s)
    decreases s.Keys, 1, |cs|
  {
    if cs == [] then [] else [Tree(cs[0], s)] + Kids(cs[1..], s)
  }

  ghost function AsNode<N>(info: Info<N>, kids: seq<Node>): Node {
    match info.kind
    case DocumentType => Element(info.value, [], kids)
    case ElementType => Element(info.value, info.attrs, kids)
    case CommentType => Comment(info.value)
    case UnknownType => Unrecognized(info.value)
    case TextType => Text(info.value, info.cdata)
    case DeclarationType => Declaration(info.version, info.encoding, info.standalone)
  }

  /** The nodes of some set have their children in it, and these have smaller ranks. */
  ghost predicate Closed<N>(nodes: set<N>, s: map<N, Info<N>>, rank: map<N, nat>) {
    nodes <= s.Keys && nodes <= rank.Keys &&
    forall n, i {:trigger s[n].children[i]} :: n in nodes && 0 <= i < |s[n].children| ==>
      s[n].children[i] in nodes && rank[s[n].children[i]] < rank[n]
  }

  /** The tree of a node depends on what is below it and on nothing else. */
  lemma {:induction false} TreeKept<N>(n: N, nodes: set<N>, s: map<N, Info<N>>, t: map<N, Info<N>>, rank: map<N, nat>)
    requires n in nodes && Closed(nodes, s, rank)
    requires forall m {:trigger m in nodes} :: m in nodes ==> m in t && t[m] == s[m]
    ensures Tree(n, s) == Tree(n, t)
    decreases rank[n]
  {
    assert t[n] == s[n];
    var cs, below := s[n].children, set m | m in nodes && rank[m] < rank[n];
    assert forall m {:trigger m in below} :: m in below ==> m in nodes && m != n && (s - {n})[m] == s[m];
    forall i | 0 <= i < |cs|
      ensures Tree(cs[i], s - {n}) == Tree(cs[i], t - {n})
    {
      assert s[n].children[i] in nodes;
      TreeKept(cs[i], below, s - {n}, t - {n}, rank);
    }
    assert Kids(cs, s - {n}) == Kids(cs, t - {n});
  }

  /** The equation the tree of a node is meant to satisfy. */
  lemma TreeIs<N>(n: N, s: map<N, Info<N>>, rank: map<N, nat>)
    requires n in s && Closed(s.Keys, s, rank)
    ensures Tree(n, s) == AsNode(s[n], Kids(s[n].children, s))
  {
    var cs, below := s[n].children, set m | m in s && rank[m] < rank[n];
    forall i | 0 <= i < |cs|
      ensures Tree(cs[i], s) == Tree(cs[i], s - {n})
    {
      assert s[n].children[i] in s.Keys;
      TreeKept(cs[i], below, s, s - {n}, rank);
    }
    assert Kids(cs, s) == Kids(cs, s - {n});
  }

  // ----- lists -----

  /** A sequence with one more element in front of the k-th. */
  ghost function Inserted<T>(cs: seq<T>, node: T, k: nat): (s: seq<T>)
    requires k <= |cs|
    ensures |s| == |cs| + 1 && s[k] == node
    ensures forall i {:trigger s[i]} :: 0 <= i < k ==> s[i] == cs[i]
    ensures forall i {:trigger s[i]} :: k < i < |s| ==> s[i] == cs[i - 1]
  {
    cs[..k] + [node] + cs[k..]
  }

  /** A sequence but for its k-th element. */
  ghost function Without<T>(cs: seq<T>, k: nat): (s: seq<T>)
    requires k < |cs|
    ensures |s| == |cs| - 1
    ensures forall i {:trigger s[i]} :: 0 <= i < k ==> s[i] == cs[i]
    ensures forall i {:trigger s[i]} :: k <= i < |s| ==> s[i] == cs[i + 1]
  {
    cs[..k] + cs[k + 1..]
  }

  lemma InsertedAtEnd<T>(cs: seq<T>, node: T)
    ensures Inserted(cs, node, |cs|) == cs + [node]
  {
  }

  // ----- trees of changed lists -----

  /** The children of a node that got one more, the root m of another forest. */
  lemma LinkedKids<N>(n: N, s: map<N, Info<N>>, rs: map<N, nat>, m: N, u: map<N, Info<N>>, ru: map<N, nat>, k: nat,
                      t: map<N, Info<N>>)
    requires n in s && Closed(s.Keys, s, rs) && m in u && Closed(u.Keys, u, ru) && s.Keys !! u.Keys
    requires k <= |s[n].children| && t == (s + u)[n := s[n].(children := Inserted(s[n].children, m, k))]
    ensures Kids(t[n].children, t) == Inserted(Kids(s[n].children, s), Tree(m, u), k)
  {
    hide Inserted;
    var cs, ds := s[n].children, t[n].children;
    var below := set x | x in s && rs[x] < rs[n];
    forall i | 0 <= i < |ds|
      ensures Kids(ds, t)[i] == Inserted(Kids(cs, s), Tree(m, u), k)[i]
    {
      if i == k {
        TreeKept(m, u.Keys, u, t, ru);
      } else {
        var c := if i < k then cs[i] else cs[i - 1];
        assert s[n].children[if i < k then i else i - 1] == c;
        TreeKept(c, below, s, t, rs);
      }
    }
  }

  /** The children of a node that lost one. The nodes of t are those that are left. */
  lemma UnlinkedKids<N>(n: N, s: map<N, Info<N>>, k: nat, t: map<N, Info<N>>, rt: map<N, nat>)
    requires n in t && t.Keys <= s.Keys && Closed(t.Keys, t, rt)
    requires k < |s[n].children| && t[n].children == Without(s[n].children, k)
    requires forall x {:trigger x in t} :: x in t && x != n ==> t[x] == s[x]
    ensures Kids(t[n].children, t) == Without(Kids(s[n].children, s), k)
  {
    hide Without;
    var ds := t[n].children;
    var below := set x | x in t && rt[x] < rt[n];
    forall i | 0 <= i < |ds|
      ensures Kids(ds, t)[i] == Without(Kids(s[n].children, s), k)[i]
    {
      assert t[n].children[i] == s[n].children[if i < k then i else i + 1];
      TreeKept(ds[i], below, t, s, rt);
    }
  }

  /** The children of a node one of which the root m of another forest has replaced. */
  lemma SwappedKids<N>(n: N, s: map<N, Info<N>>, rs: map<N, nat>, m: N, u: map<N, Info<N>>, ru: map<N, nat>, k: nat,
                       t: map<N, Info<N>>, rt: map<N, nat>)
    requires n in s && n in t && Closed(s.Keys, s, rs) && Closed(t.Keys, t, rt)
    requires m in u && Closed(u.Keys, u, ru) && u.Keys <= t.Keys && s.Keys !! u.Keys
    requires k < |s[n].children| && t[n].children == s[n].children[k := m]
    requires forall x {:trigger x in t} :: x in t && x != n ==> if x in u then t[x] == u[x] else x in s && t[x] == s[x]
    ensures Kids(t[n].children, t) == Kids(s[n].children, s)[k := Tree(m, u)]
  {
    var cs, ds := s[n].children, t[n].children;
    var below := set x | x in t && x in s && rt[x] < rt[n];
    forall i | 0 <= i < |ds|
      ensures Kids(ds, t)[i] == Kids(cs, s)[k := Tree(m, u)][i]
    {
      assert t[n].children[i] == ds[i] && (i != k ==> s[n].children[i] == ds[i]);
      if i == k {
        TreeKept(m, u.Keys, u, t, ru);
      } else {
        TreeKept(ds[i], below, t, s, rt);
      }
    }
  }
}
