/** mxmlDelete (mxml-node.c): an iterative destroyer that clears `child` pointers on the way down so
    that it finds its way back up. Freed nodes leave the store, so reading one would not verify. */
module NodeDelete {
  import opened XmlTree
  import opened NodeStore
  import opened NodeEdit
  import opened NodeShape

  /** Children before parents, earlier siblings before later ones. */
  function PostOrder(f: Forest): seq<Ptr> {
    match f
    case Void => []
    case Tree(id, kids, rest) => PostOrder(kids) + [id] + PostOrder(rest)
  }

  /** The nodes still to be freed above a place. */
  function PostOrderUp(p: Path): seq<Ptr> {
    match p
    case Top => []
    case Under(id, later, up) => [id] + PostOrder(later) + PostOrderUp(up)
  }

  /** The nodes on the way up have been left with their `child` pointer cleared. */
  predicate Emptied(h: Heap, p: Path) {
    match p
    case Top => true
    case Under(id, _, up) => id in h && h[id].child == NULL && Emptied(h, up)
  }

  lemma {:induction false} EmptiedFrame(h: Heap, h2: Heap, p: Path)
    requires Emptied(h, p)
    requires forall id :: id in PathIds(p) ==> id in h2 && id in h && h2[id] == h[id]
    ensures Emptied(h2, p)
  {
    if p.Under? {
      EmptiedFrame(h, h2, p.up);
    }
  }

  /** The loop's view of the store: `here` is about to be freed, then what lies up the path. */
  predicate Freeing(h: Heap, here: Forest, path: Path, node: Ptr) {
    && NULL !in h
    && Chained(h, here, ParentAt(path, node)) && ChainedPath(h, path, node) && Emptied(h, path)
    && Distinct(here) && DistinctPath(path) && Ids(here) !! PathIds(path)
    && node !in Ids(here) && node !in PathIds(path)
  }

  /** Going down into a node that has children. */
  lemma FreeingDown(h: Heap, here: Forest, path: Path, node: Ptr)
    requires Freeing(h, here, path, node) && here.Tree? && here.kids.Tree?
    ensures var c := here.id;
            c in h && Freeing(h[c := h[c].(child := NULL)], here.kids, Under(c, here.rest, path), node)
  {
    var c := here.id;
    var h2 := h[c := h[c].(child := NULL)];
    ChainedInHeap(h, here, ParentAt(path, node));
    ChainedPathInHeap(h, path, node);
    ChainedFrame(h, h2, here.kids, c);
    ChainedFrame(h, h2, here.rest, ParentAt(path, node));
    ChainedPathFrame(h, h2, path, node);
    EmptiedFrame(h, h2, path);
  }

  /** After a leaf: its later siblings, or its parent, which by now is a leaf too. */
  function NextForest(here: Forest, path: Path): Forest
    requires here.Tree?
  {
    if here.rest.Tree? || path.Top? then here.rest else Tree(path.id, Void, path.later)
  }

  function NextPath(here: Forest, path: Path): Path
    requires here.Tree?
  {
    if here.rest.Tree? || path.Top? then path else path.up
  }

  /** The nodes and the order of what remains after a leaf. */
  lemma LeafRemoved(here: Forest, path: Path)
    requires here.Tree? && here.kids.Void?
    ensures PostOrder(here) + PostOrderUp(path)
            == [here.id] + (PostOrder(NextForest(here, path)) + PostOrderUp(NextPath(here, path)))
    ensures Ids(here) + PathIds(path) == {here.id} + Ids(NextForest(here, path)) + PathIds(NextPath(here, path))
    ensures Size(NextForest(here, path)) + PathSize(NextPath(here, path)) < Size(here) + PathSize(path)
  {
    var a, b, c := [here.id], PostOrder(here.rest), PostOrderUp(path);
    assert PostOrder(here) == a + b;
    assert (a + b) + c == a + (b + c);
    if here.rest.Void? && path.Under? {
      assert PostOrder(Tree(path.id, Void, path.later)) == [path.id] + PostOrder(path.later);
      assert [] + c == c;
    }
  }

  lemma NextDistinct(here: Forest, path: Path)
    requires here.Tree? && Distinct(here) && DistinctPath(path) && Ids(here) !! PathIds(path)
    ensures var f, p := NextForest(here, path), NextPath(here, path);
            && Distinct(f) && DistinctPath(p) && Ids(f) !! PathIds(p)
            && here.id !in Ids(f) && here.id !in PathIds(p)
            && Ids(f) <= Ids(here) + PathIds(path) && PathIds(p) <= PathIds(path)
  {
  }

  lemma NextChained(h: Heap, here: Forest, path: Path, node: Ptr)
    requires Freeing(h, here, path, node) && here.Tree?
    ensures var f, p := NextForest(here, path), NextPath(here, path);
            Chained(h, f, ParentAt(p, node)) && ChainedPath(h, p, node) && Emptied(h, p)
  {
  }

  lemma FreeingLeaf(h: Heap, here: Forest, path: Path, node: Ptr)
    requires Freeing(h, here, path, node) && here.Tree? && here.kids.Void?
    ensures Freeing(h - {here.id}, NextForest(here, path), NextPath(here, path), node)
    ensures here.id !in Ids(NextForest(here, path)) && here.id !in PathIds(NextPath(here, path))
  {
    hide Chained, ChainedPath, Emptied, Distinct, DistinctPath, Ids, PathIds, NextForest, NextPath;
    var f, p := NextForest(here, path), NextPath(here, path);
    var h2 := h - {here.id};
    NextDistinct(here, path);
    NextChained(h, here, path, node);
    ChainedInHeap(h, f, ParentAt(p, node));
    ChainedPathInHeap(h, p, node);
    ChainedFrame(h, h2, f, ParentAt(p, node));
    ChainedPathFrame(h, h2, p, node);
    EmptiedFrame(h, h2, p);
  }

  function Members(s: seq<Ptr>): set<Ptr> {
    set p | p in s
  }

  /** What is known about the node at hand. */
  lemma AtHand(h: Heap, here: Forest, path: Path, node: Ptr)
    requires Freeing(h, here, path, node) && here.Tree?
    ensures here.id in h && h[here.id].child == First(here.kids) && h[here.id].parent == ParentAt(path, node)
    ensures h[here.id].next == First(here.rest)
    ensures here.rest.Tree? ==> here.rest.id != NULL
    ensures here.kids.Tree? ==> here.kids.id != NULL
    ensures path.Under? ==> path.id != NULL && path.id != node
    ensures here.id != NULL
  {
    assert Chained(h, here.kids, here.id) && Chained(h, here.rest, ParentAt(path, node));
  }

  /** Going down frees nothing and forgets nothing. */
  lemma DownSame(here: Forest, path: Path)
    requires here.Tree?
    ensures PostOrder(here) + PostOrderUp(path)
            == PostOrder(here.kids) + PostOrderUp(Under(here.id, here.rest, path))
    ensures Ids(here) + PathIds(path) == Ids(here.kids) + PathIds(Under(here.id, here.rest, path))
  {
    var a, b, c := PostOrder(here.kids), PostOrder(here.rest), PostOrderUp(path);
    assert a + [here.id] + b + c == a + ([here.id] + b + c);
  }

  lemma FreedOne(freed: seq<Ptr>, c: Ptr, more: seq<Ptr>)
    ensures freed + ([c] + more) == (freed + [c]) + more
    ensures Members(freed + [c]) == Members(freed) + {c}
  {
  }

  /** The invariant of the loop: what was freed, and what is still to come. */
  ghost predicate Halfway(h: Heap, h2: Heap, node: Ptr, f: Forest, here: Forest, path: Path, freed: seq<Ptr>) {
    && Freeing(h2, here, path, node)
    && PostOrder(f) == freed + (PostOrder(here) + PostOrderUp(path))
    && Members(freed) !! (Ids(here) + PathIds(path))
    && Ids(f) == Members(freed) + (Ids(here) + PathIds(path))
    && h2.Keys == h.Keys - Members(freed)
    && forall p :: p in h2 && p !in Ids(f) ==> h2[p] == h[p]
  }

  lemma HalfwayDown(h: Heap, h2: Heap, node: Ptr, f: Forest, here: Forest, path: Path, freed: seq<Ptr>)
    requires Halfway(h, h2, node, f, here, path, freed) && here.Tree? && here.kids.Tree?
    ensures here.id in h2
    ensures Halfway(h, h2[here.id := h2[here.id].(child := NULL)], node, f, here.kids, Under(here.id, here.rest, path), freed)
  {
    hide Freeing, PostOrder, PostOrderUp;
    FreeingDown(h2, here, path, node);
    DownSame(here, path);
    assert here.id in Ids(f);
  }

  lemma HalfwayLeaf(h: Heap, h2: Heap, node: Ptr, f: Forest, here: Forest, path: Path, freed: seq<Ptr>)
    requires Halfway(h, h2, node, f, here, path, freed) && here.Tree? && here.kids.Void?
    ensures Halfway(h, h2 - {here.id}, node, f, NextForest(here, path), NextPath(here, path), freed + [here.id])
  {
    hide Freeing, PostOrder, PostOrderUp, Ids, PathIds, NextForest, NextPath, Members;
    FreeingLeaf(h2, here, path, node);
    LeafRemoved(here, path);
    FreedOne(freed, here.id, PostOrder(NextForest(here, path)) + PostOrderUp(NextPath(here, path)));
  }

  /** The loop of mxmlDelete: free the forest below `node`. */
  method FreeBelow(h: Heap, node: Ptr, ghost f: Forest) returns (h2: Heap, ghost freed: seq<Ptr>)
    requires node in h && h[node].child == First(f) && Freeing(h, f, Top, node)
    ensures freed == PostOrder(f)
    ensures h2 == h - Ids(f)
  {
    hide Halfway, NextForest, NextPath;
    h2, freed := h, [];
    ghost var here, path := f, Top;
    var current := h[node].child;
    HalfwayStart(h, node, f);
    while current != NULL
      invariant current == First(here) && Halfway(h, h2, node, f, here, path, freed)
      invariant here.Void? ==> path.Top?
      decreases Size(here) + PathSize(path)
    {
      HalfwayAtHand(h, h2, node, f, here, path, freed);
      var next := h2[current].child;
      if next != NULL {
        HalfwayDown(h, h2, node, f, here, path, freed);
        h2 := h2[current := h2[current].(child := NULL)];
        here, path := here.kids, Under(current, here.rest, path);
        current := next;
        continue;
      }
      next := h2[current].next;
      if next == NULL {
        next := h2[current].parent;
        if next == node {
          next := NULL;
        }
      }
      NextFirst(here, path);
      HalfwayLeaf(h, h2, node, f, here, path, freed);
      LeafRemoved(here, path);
      h2 := h2 - {current};
      freed := freed + [current];
      here, path := NextForest(here, path), NextPath(here, path);
      current := next;
    }
    HalfwayEnd(h, h2, node, f, here, path, freed);
  }

  lemma NextFirst(here: Forest, path: Path)
    requires here.Tree?
    ensures First(NextForest(here, path))
            == if here.rest.Tree? then here.rest.id else if path.Under? then path.id else NULL
    ensures NextForest(here, path).Void? ==> NextPath(here, path).Top?
  {
  }

  lemma HalfwayStart(h: Heap, node: Ptr, f: Forest)
    requires Freeing(h, f, Top, node)
    ensures Halfway(h, h, node, f, f, Top, [])
  {
    assert PostOrder(f) == [] + (PostOrder(f) + []);
  }

  lemma HalfwayAtHand(h: Heap, h2: Heap, node: Ptr, f: Forest, here: Forest, path: Path, freed: seq<Ptr>)
    requires Halfway(h, h2, node, f, here, path, freed) && First(here) != NULL
    ensures here.Tree? && here.id in h2 && h2[here.id].child == First(here.kids)
    ensures h2[here.id].parent == ParentAt(path, node) && h2[here.id].next == First(here.rest)
    ensures here.rest.Tree? ==> here.rest.id != NULL
    ensures here.kids.Tree? ==> here.kids.id != NULL
    ensures path.Under? ==> path.id != NULL && path.id != node
  {
    hide Freeing;
    AtHand(h2, here, path, node);
  }

  lemma HalfwayEnd(h: Heap, h2: Heap, node: Ptr, f: Forest, here: Forest, path: Path, freed: seq<Ptr>)
    requires Halfway(h, h2, node, f, here, path, freed) && First(here) == NULL && (here.Void? ==> path.Top?)
    ensures freed == PostOrder(f) && h2 == h - Ids(f)
  {
    assert here.Void? by {
      if here.Tree? {
        AtHand(h2, here, path, node);
      }
    }
    assert freed + ([] + []) == freed;
  }

  // ---- The order in which nodes are freed ----

  lemma {:induction false} PostOrderMembers(f: Forest)
    ensures Members(PostOrder(f)) == Ids(f)
    ensures Distinct(f) ==> NoDup(PostOrder(f))
  {
    if f.Tree? {
      PostOrderMembers(f.kids);
      PostOrderMembers(f.rest);
      var a, b := PostOrder(f.kids), PostOrder(f.rest);
      assert Members(a + [f.id] + b) == Members(a) + {f.id} + Members(b) by { MembersConcat(a, f.id, b); }
      if Distinct(f) {
        assert f.id !in Members(a) && f.id !in Members(b) && Members(a) !! Members(b);
        NoDupConcat(a, f.id, b);
      }
    }
  }

  lemma MembersConcat(a: seq<Ptr>, c: Ptr, b: seq<Ptr>)
    ensures Members(a + [c] + b) == Members(a) + {c} + Members(b)
  {
    assert forall p :: p in a + [c] + b <==> p in a || p == c || p in b;
  }

  lemma NoDupConcat(a: seq<Ptr>, c: Ptr, b: seq<Ptr>)
    requires NoDup(a) && NoDup(b) && c !in Members(a) && c !in Members(b) && Members(a) !! Members(b)
    ensures NoDup(a + [c] + b)
  {
    var s := a + [c] + b;
    forall i, j | 0 <= i < j < |s| ensures s[i] != s[j] {
      if i < |a| {
        assert s[i] in Members(a);
      }
      if j > |a| {
        assert s[j] in Members(b);
      }
    }
  }

  lemma {:induction false} ParentsInside(h: Heap, f: Forest, parent: Ptr, y: Ptr)
    requires Chained(h, f, parent) && y in Ids(f)
    ensures y in h && (h[y].parent in Ids(f) || h[y].parent == parent)
  {
    if y in Ids(f.kids) {
      ParentsInside(h, f.kids, f.id, y);
    } else if y in Ids(f.rest) {
      ParentsInside(h, f.rest, parent, y);
    }
  }

  /** Each node's parent comes after it. */
  predicate ParentsLater(h: Heap, s: seq<Ptr>) {
    forall i, j :: 0 <= i < |s| && 0 <= j < |s| && s[i] in h && h[s[i]].parent == s[j] ==> i < j
  }

  lemma {:induction false} PostOrderParentsLater(h: Heap, f: Forest, parent: Ptr)
    requires Chained(h, f, parent) && Distinct(f) && parent !in Ids(f)
    ensures ParentsLater(h, PostOrder(f))
  {
    if f.Tree? {
      var a, b := PostOrder(f.kids), PostOrder(f.rest);
      var s := a + [f.id] + b;
      PostOrderParentsLater(h, f.kids, f.id);
      PostOrderParentsLater(h, f.rest, parent);
      PostOrderMembers(f.kids);
      PostOrderMembers(f.rest);
      forall i, j | 0 <= i < |s| && 0 <= j < |s| && s[i] in h && h[s[i]].parent == s[j] ensures i < j {
        assert s[j] in Members(a) || s[j] == f.id || s[j] in Members(b) by {
          assert j < |a| ==> s[j] == a[j];
          assert j > |a| ==> s[j] == b[j - |a| - 1];
        }
        assert j < |a| ==> s[j] == a[j] && a[j] in Members(a);
        if i < |a| {
          assert s[i] == a[i] && a[i] in Members(a);
          ParentsInside(h, f.kids, f.id, s[i]);
          if j < |a| {
            assert s[j] == a[j];
          }
        } else if i > |a| {
          assert s[i] == b[i - |a| - 1] && s[i] in Members(b);
          ParentsInside(h, f.rest, parent, s[i]);
          assert s[j] in Members(b);
          if j > |a| {
            assert s[j] == b[j - |a| - 1];
          }
        }
      }
    }
  }

  // ---- What is left ----

  /** A tree's nodes: its root and everything below. */
  ghost function Subtree(h: Heap, x: Ptr): set<Ptr> {
    {x} + Descendants(h, x)
  }

  function KidsOutside(kids: Kids, s: set<Ptr>): Kids {
    map p | p in kids && p !in s :: kids[p]
  }

  lemma ParentOutside(h: Heap, x: Ptr, c: Ptr)
    requires c in h && c !in Subtree(h, x)
    ensures h[c].parent !in Subtree(h, x)
  {
    assert Up(h, c, 1) == Up(h, h[c].parent, 0);
    forall k: nat ensures Up(h, h[c].parent, k) != x {
      assert Up(h, c, k + 1) == Up(h, h[c].parent, k);
    }
  }

  lemma KidsOutsideOnly(h: Heap, kids: Kids, x: Ptr, p: Ptr, c: Ptr)
    requires WellFormed(h, kids) && x in h && h[x].parent == NULL && p in h && p !in Subtree(h, x) && c in kids[p]
    ensures c in h && c !in Subtree(h, x) && h[c].parent == p
  {
    hide SpellsList, HasPlace, Rooted;
    assert SpellsList(h, p, kids[p]);
    ListMember(h, p, kids[p], c);
    if c in Subtree(h, x) && c != x {
      var k: nat :| Up(h, c, k) == x;
      assert k > 0 && Up(h, c, k) == Up(h, p, k - 1);
    }
  }

  lemma {:induction false} UpOutside(h: Heap, x: Ptr, p: Ptr, k: nat)
    requires NULL !in h && p !in Subtree(h, x)
    ensures Up(h - Subtree(h, x), p, k) == Up(h, p, k)
    decreases k
  {
    hide Subtree;
    if k > 0 && p in h {
      ParentOutside(h, x, p);
      UpOutside(h, x, h[p].parent, k - 1);
    }
  }

  /** Without the whole tree of a root, the store is well formed. */
  lemma OutsideWellFormed(h: Heap, kids: Kids, x: Ptr)
    requires WellFormed(h, kids) && x in h && h[x].parent == NULL
    ensures WellFormed(h - Subtree(h, x), KidsOutside(kids, Subtree(h, x)))
  {
    hide SpellsList, Subtree, Rooted;
    var s := Subtree(h, x);
    var h2, kids2 := h - s, KidsOutside(kids, s);
    forall p | p in h2 ensures SpellsList(h2, p, kids2[p]) && HasPlace(h2, kids2, p) && Rooted(h2, p) {
      forall c | c in kids[p]
        ensures c in h2 && h2[c].parent == h[c].parent && h2[c].prev == h[c].prev && h2[c].next == h[c].next
      {
        KidsOutsideOnly(h, kids, x, p, c);
      }
      assert SpellsList(h, p, kids[p]) && HasPlace(h, kids, p) && Rooted(h, p);
      ListKept(h, h2, p, kids[p]);
      ParentOutside(h, x, p);
      RootedOutside(h, x, p);
    }
  }

  lemma RootedOutside(h: Heap, x: Ptr, p: Ptr)
    requires NULL !in h && p !in Subtree(h, x) && Rooted(h, p)
    ensures Rooted(h - Subtree(h, x), p)
  {
    var k: nat :| Up(h, p, k) == NULL;
    UpOutside(h, x, p, k);
  }

  /** Taking a node out does not change what is below it. */
  lemma SameSubtree(h: Heap, h2: Heap, kids2: Kids, x: Ptr)
    requires WellFormed(h2, kids2) && h2.Keys == h.Keys && x in h && h2[x].parent == NULL
    requires forall p :: p in h && p != x ==> h2[p].parent == h[p].parent
    ensures Subtree(h2, x) == Subtree(h, x)
  {
    hide InSubtree, WellFormed;
    forall p | p in h ensures InSubtree(h, p, x) <==> InSubtree(h2, p, x) {
      RemovedSubtree(h, h2, kids2, p, x);
    }
  }

  /** `mxmlDelete`: the node is taken out of its parent's list and its whole tree is freed, every node
      once and children before parents; the rest of the store stays well formed. */
  method Delete(store: Store, x: Ptr) returns (ghost freed: seq<Ptr>)
    requires store.Valid() && IsPtr(store.heap, x)
    modifies store
    ensures store.Valid()
    ensures x == NULL ==> freed == [] && store.heap == old(store.heap) && store.kids == old(store.kids)
    ensures x != NULL ==>
              var h, s := old(store.heap), Subtree(old(store.heap), x);
              && Members(freed) == s && NoDup(freed) && ParentsLater(h, freed)
              && store.heap.Keys == h.Keys - s
              && store.kids == KidsOutside(KidsRemoved(h, old(store.kids), x), s)
              && forall p :: p in store.heap ==> store.heap[p].v == h[p].v && store.heap[p].refCount == h[p].refCount
  {
    hide WellFormed, SpellsList, Rooted, HasPlace, Linked, Chained, Distinct, InSubtree, KidsRemoved, PostOrder;
    if x == NULL {
      return [];
    }
    ghost var h := store.heap;
    IsRooted(h, store.kids, x);
    store.Remove(x);
    ghost var h1, kids1 := store.heap, store.kids;
    ghost var f := Below(h1, kids1, x);
    SameSubtree(h, h1, kids1, x);
    StartFreeing(h1, kids1, f, x);
    var h2;
    h2, freed := FreeBelow(store.heap, x, f);
    OutsideWellFormed(h1, kids1, x);
    FreedInOrder(h, h1, f, x);
    freed := freed + [x];
    store.heap := h2 - {x};
    assert store.heap == h1 - Subtree(h1, x);
    store.kids := KidsOutside(kids1, Subtree(h1, x));
  }

  lemma IsRooted(h: Heap, kids: Kids, x: Ptr)
    requires WellFormed(h, kids) && x in h
    ensures Rooted(h, x) && NULL !in h
  {
  }

  lemma StartFreeing(h: Heap, kids: Kids, f: Forest, x: Ptr)
    requires WellFormed(h, kids) && x in h && Linked(h, f, x, NULL) && Distinct(f) && Ids(f) == Descendants(h, x)
    ensures Freeing(h, f, Top, x)
  {
    LinkedIsChained(h, f, x, NULL);
  }

  lemma FreedInOrder(h: Heap, h1: Heap, f: Forest, x: Ptr)
    requires h1.Keys == h.Keys && x in h && forall p :: p in h && p != x ==> h1[p].parent == h[p].parent
    requires Linked(h1, f, x, NULL) && Distinct(f) && Ids(f) == Descendants(h1, x) && NULL !in h && Rooted(h, x)
    requires Subtree(h1, x) == Subtree(h, x)
    ensures var s := PostOrder(f) + [x]; Members(s) == Subtree(h, x) && NoDup(s) && ParentsLater(h, s)
  {
    var a := PostOrder(f);
    var s := a + [x];
    LinkedIsChained(h1, f, x, NULL);
    PostOrderMembers(f);
    PostOrderParentsLater(h1, f, x);
    MembersConcat(a, x, []);
    assert a + [x] + [] == s;
    NoDupConcat(a, x, []);
    forall i, j | 0 <= i < |s| && 0 <= j < |s| && s[i] in h && h[s[i]].parent == s[j] ensures i < j {
      assert s[j] in Members(s);
      if i < |a| {
        assert s[i] in Members(a) && s[i] != x;
        assert j < |a| ==> s[j] == a[j];
      } else {
        ParentNotBelow(h, x, s[j]);
      }
    }
  }

  lemma ParentNotBelow(h: Heap, x: Ptr, p: Ptr)
    requires NULL !in h && x in h && Rooted(h, x) && h[x].parent == p
    ensures p !in Subtree(h, x)
  {
    if p in Subtree(h, x) {
      if p == x {
        NotOwnParent(h, x);
      } else {
        var k: nat :| Up(h, p, k) == x;
        assert Up(h, x, k + 1) == x;
        NoCycle(h, x, k + 1);
      }
    }
  }

  // ---- Reference counts ----

  /** Only reference counts differ. */
  predicate SameShape(h: Heap, h2: Heap) {
    h2.Keys == h.Keys && forall p :: p in h ==> h2[p] == h[p].(refCount := h2[p].refCount)
  }

  lemma {:induction false} SameUp(h: Heap, h2: Heap, p: Ptr, k: nat)
    requires SameShape(h, h2)
    ensures Up(h2, p, k) == Up(h, p, k)
    decreases k
  {
    if k > 0 && p in h {
      SameUp(h, h2, h[p].parent, k - 1);
    }
  }

  lemma SameShapeWellFormed(h: Heap, h2: Heap, kids: Kids)
    requires SameShape(h, h2) && WellFormed(h, kids)
    ensures WellFormed(h2, kids)
  {
    forall p | p in h2
      ensures SpellsList(h2, p, kids[p]) && HasPlace(h2, kids, p) && Rooted(h2, p)
    {
      assert SpellsList(h, p, kids[p]) && HasPlace(h, kids, p) && Rooted(h, p);
      var k: nat :| Up(h, p, k) == NULL;
      SameUp(h, h2, p, k);
    }
  }

  lemma SameShapeSubtree(h: Heap, h2: Heap, x: Ptr)
    requires SameShape(h, h2) && x in h
    ensures Subtree(h2, x) == Subtree(h, x)
  {
    forall p | p in h
      ensures InSubtree(h, p, x) <==> InSubtree(h2, p, x)
    {
      forall k: nat ensures Up(h2, p, k) == Up(h, p, k) {
        SameUp(h, h2, p, k);
      }
    }
  }

  /** `mxmlRetain` */
  method Retain(store: Store, x: Ptr) returns (count: int)
    requires store.Valid() && IsPtr(store.heap, x)
    modifies store
    ensures store.Valid() && store.kids == old(store.kids)
    ensures x == NULL ==> count == -1 && store.heap == old(store.heap)
    ensures x != NULL ==> count == old(store.heap)[x].refCount + 1
                          && store.heap == old(store.heap)[x := old(store.heap)[x].(refCount := count)]
  {
    hide WellFormed;
    if x == NULL {
      return -1;
    }
    count := store.heap[x].refCount + 1;
    SameShapeWellFormed(store.heap, store.heap[x := store.heap[x].(refCount := count)], store.kids);
    store.Update(x, store.heap[x].(refCount := count));
  }

  /** `mxmlRelease`: the last release deletes the node's tree, every earlier one only counts down. */
  method Release(store: Store, x: Ptr) returns (count: int, ghost freed: seq<Ptr>)
    requires store.Valid() && IsPtr(store.heap, x)
    modifies store
    ensures store.Valid()
    ensures x == NULL ==> count == -1 && freed == [] && store.heap == old(store.heap) && store.kids == old(store.kids)
    ensures x != NULL && old(store.heap)[x].refCount > 1 ==>
              && count == old(store.heap)[x].refCount - 1 && freed == []
              && store.heap == old(store.heap)[x := old(store.heap)[x].(refCount := count)]
              && store.kids == old(store.kids)
    ensures x != NULL && old(store.heap)[x].refCount <= 1 ==>
              var h, s := old(store.heap), Subtree(old(store.heap), x);
              && count == 0 && Members(freed) == s && NoDup(freed)
              && store.heap.Keys == h.Keys - s
              && forall p :: p in store.heap ==> store.heap[p].v == h[p].v && store.heap[p].refCount == h[p].refCount
  {
    hide WellFormed, InSubtree, KidsRemoved;
    if x == NULL {
      return -1, [];
    }
    ghost var h := store.heap;
    var left := store.heap[x].refCount - 1;
    SameShapeWellFormed(h, h[x := h[x].(refCount := left)], store.kids);
    SameShapeSubtree(h, h[x := h[x].(refCount := left)], x);
    store.Update(x, store.heap[x].(refCount := left));
    if left <= 0 {
      OwnSubtree(h, x);
      freed := Delete(store, x);
      return 0, freed;
    }
    return left, [];
  }

  lemma OwnSubtree(h: Heap, x: Ptr)
    requires x in h
    ensures x in Subtree(h, x)
  {
    assert Up(h, x, 0) == x;
  }
}
