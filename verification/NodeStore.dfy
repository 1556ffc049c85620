/** The pointer structure of mxml.h: nodes in a store, and the forests they spell. */
module NodeStore {
  import opened XmlTree

  type Ptr = nat

  const NULL: Ptr := 0

  /** `mxml_node_t` */
  datatype Node = Node(v: Value, parent: Ptr, child: Ptr, lastChild: Ptr, prev: Ptr, next: Ptr, refCount: int)

  type Heap = map<Ptr, Node>

  /** A forest of nodes: the first one, its children, its later siblings. */
  datatype Forest = Void | Tree(id: Ptr, kids: Forest, rest: Forest)

  function First(f: Forest): Ptr {
    if f.Void? then NULL else f.id
  }

  /** The last node of a forest, `before` if there is none. */
  function Last(f: Forest, before: Ptr): Ptr {
    if f.Void? then before else Last(f.rest, f.id)
  }

  predicate NoDup(l: seq<Ptr>) {
    forall i, j :: 0 <= i < j < |l| ==> l[i] != l[j]
  }

  function Ids(f: Forest): set<Ptr> {
    match f
    case Void => {}
    case Tree(id, kids, rest) => {id} + Ids(kids) + Ids(rest)
  }

  /** No node occurs twice. */
  predicate Distinct(f: Forest) {
    match f
    case Void => true
    case Tree(id, kids, rest) =>
      && id !in Ids(kids) && id !in Ids(rest) && Ids(kids) !! Ids(rest)
      && Distinct(kids) && Distinct(rest)
  }

  /** The pointers that traversals follow, `parent`, `child` and `next`, spell the forest. */
  predicate Chained(h: Heap, f: Forest, parent: Ptr) {
    match f
    case Void => true
    case Tree(id, kids, rest) =>
      && id != NULL && id in h
      && h[id].parent == parent && h[id].child == First(kids) && h[id].next == First(rest)
      && Chained(h, kids, id) && Chained(h, rest, parent)
  }

  /** All the pointers spell the forest. */
  predicate Linked(h: Heap, f: Forest, parent: Ptr, prev: Ptr) {
    match f
    case Void => true
    case Tree(id, kids, rest) =>
      && id != NULL && id in h
      && h[id].parent == parent && h[id].child == First(kids) && h[id].next == First(rest)
      && h[id].prev == prev && h[id].lastChild == Last(kids, NULL)
      && Linked(h, kids, id, NULL) && Linked(h, rest, parent, id)
  }

  lemma {:induction false} LinkedIsChained(h: Heap, f: Forest, parent: Ptr, prev: Ptr)
    requires Linked(h, f, parent, prev)
    ensures Chained(h, f, parent)
  {
    if f.Tree? {
      LinkedIsChained(h, f.kids, f.id, NULL);
      LinkedIsChained(h, f.rest, parent, f.id);
    }
  }

  lemma {:induction false} ChainedInHeap(h: Heap, f: Forest, parent: Ptr)
    requires Chained(h, f, parent)
    ensures Ids(f) <= h.Keys && NULL !in Ids(f)
  {
    if f.Tree? {
      ChainedInHeap(h, f.kids, f.id);
      ChainedInHeap(h, f.rest, parent);
    }
  }

  /** A forest depends only on its own nodes. */
  lemma {:induction false} ChainedFrame(h: Heap, h2: Heap, f: Forest, parent: Ptr)
    requires Chained(h, f, parent)
    requires forall id :: id in Ids(f) ==> id in h2 && id in h && h2[id] == h[id]
    ensures Chained(h2, f, parent)
  {
    if f.Tree? {
      ChainedFrame(h, h2, f.kids, f.id);
      ChainedFrame(h, h2, f.rest, parent);
    }
  }

  /** The pointers below a node determine the forest. */
  lemma {:induction false} ChainedUnique(h: Heap, f: Forest, parent: Ptr, g: Forest, parent': Ptr)
    requires Chained(h, f, parent) && Chained(h, g, parent') && First(f) == First(g)
    ensures f == g
  {
    if f.Tree? {
      ChainedUnique(h, f.kids, f.id, g.kids, g.id);
      ChainedUnique(h, f.rest, parent, g.rest, parent');
    }
  }

  /** The part of a forest that begins with one of its nodes. */
  lemma {:induction false} From(h: Heap, f: Forest, parent: Ptr, x: Ptr) returns (g: Forest, above: Ptr)
    requires Chained(h, f, parent) && x in Ids(f)
    ensures g.Tree? && g.id == x && Chained(h, g, above) && (g == f || g < f)
  {
    if f.id == x {
      g, above := f, parent;
    } else if x in Ids(f.kids) {
      g, above := From(h, f.kids, f.id, x);
    } else {
      g, above := From(h, f.rest, parent, x);
    }
  }

  lemma {:induction false} ParentsWithin(h: Heap, f: Forest, parent: Ptr)
    requires Chained(h, f, parent)
    ensures forall x :: x in Ids(f) ==> x in h && (h[x].parent == parent || h[x].parent in Ids(f))
  {
    if f.Tree? {
      ParentsWithin(h, f.kids, f.id);
      ParentsWithin(h, f.rest, parent);
    }
  }

  // Nodes whose parents lead to different places are different.
  lemma {:induction false} Apart(h: Heap, f: Forest, parent: Ptr, s: set<Ptr>, root: Ptr)
    requires Chained(h, f, parent) && parent !in s && parent != root && root !in Ids(f)
    requires forall x :: x in s ==> x in h && (h[x].parent == root || h[x].parent in s)
    ensures Ids(f) !! s
  {
    if f.Tree? {
      Apart(h, f.kids, f.id, s, root);
      Apart(h, f.rest, parent, s, root);
    }
  }

  /** No node occurs twice in a forest that the pointers spell. */
  lemma {:induction false} ChainedDistinct(h: Heap, f: Forest, parent: Ptr)
    requires Chained(h, f, parent) && parent !in Ids(f)
    ensures Distinct(f)
  {
    if f.Tree? {
      if f.id in Ids(f.kids) {
        var g, above := From(h, f.kids, f.id, f.id);
        ChainedUnique(h, f, parent, g, above);
        assert false;
      }
      if f.id in Ids(f.rest) {
        var g, above := From(h, f.rest, parent, f.id);
        ChainedUnique(h, f, parent, g, above);
        assert false;
      }
      ParentsWithin(h, f.rest, parent);
      Apart(h, f.kids, f.id, Ids(f.rest), parent);
      ChainedDistinct(h, f.kids, f.id);
      ChainedDistinct(h, f.rest, parent);
    }
  }

  /** The tree of values that a forest of nodes carries. */
  function DocOf(h: Heap, f: Forest): Doc
    requires Ids(f) <= h.Keys
  {
    match f
    case Void => Nil
    case Tree(id, kids, rest) => Cons(h[id].v, DocOf(h, kids), DocOf(h, rest))
  }

  /** The way back up from a place in a tree: the parent, the siblings that come after the parent, and
      the way up from there. `Top` is the level of the node a traversal starts from or ends below. */
  datatype Path = Top | Under(id: Ptr, later: Forest, up: Path)

  /** The parent pointer of the nodes at a place; `top` at the outermost level. */
  function ParentAt(p: Path, top: Ptr): Ptr {
    if p.Top? then top else p.id
  }

  function PathIds(p: Path): set<Ptr> {
    match p
    case Top => {}
    case Under(id, later, up) => {id} + Ids(later) + PathIds(up)
  }

  /** The nodes of a path are all different. */
  predicate DistinctPath(p: Path) {
    match p
    case Top => true
    case Under(id, later, up) =>
      && id !in Ids(later) && id !in PathIds(up) && Ids(later) !! PathIds(up)
      && Distinct(later) && DistinctPath(up)
  }

  /** The `parent` and `next` pointers lead back up along the path. */
  predicate ChainedPath(h: Heap, p: Path, top: Ptr) {
    match p
    case Top => true
    case Under(id, later, up) =>
      && id != NULL && id in h && id != top
      && h[id].parent == ParentAt(up, top) && h[id].next == First(later)
      && Chained(h, later, ParentAt(up, top)) && ChainedPath(h, up, top)
  }

  lemma {:induction false} ChainedPathFrame(h: Heap, h2: Heap, p: Path, top: Ptr)
    requires ChainedPath(h, p, top)
    requires forall id :: id in PathIds(p) ==> id in h2 && id in h && h2[id] == h[id]
    ensures ChainedPath(h2, p, top)
  {
    if p.Under? {
      ChainedFrame(h, h2, p.later, ParentAt(p.up, top));
      ChainedPathFrame(h, h2, p.up, top);
    }
  }

  lemma {:induction false} ChainedPathInHeap(h: Heap, p: Path, top: Ptr)
    requires ChainedPath(h, p, top)
    ensures PathIds(p) <= h.Keys
  {
    if p.Under? {
      ChainedInHeap(h, p.later, ParentAt(p.up, top));
      ChainedPathInHeap(h, p.up, top);
    }
  }

  /** The visits a traversal still has to make: a node in a forest is visited going down and coming up,
      a node on the path only coming up. */
  function Size(f: Forest): nat {
    match f
    case Void => 0
    case Tree(_, kids, rest) => 2 + Size(kids) + Size(rest)
  }

  function PathSize(p: Path): nat {
    match p
    case Top => 0
    case Under(_, later, up) => 1 + Size(later) + PathSize(up)
  }
}
