/** mxml_new (mxml-node.c): a fresh node, put last under its parent. */
module NodeNew {
  import opened XmlTree
  import opened NodeStore
  import opened NodeEdit

  function Lone(v: Value): Node {
    Node(v, NULL, NULL, NULL, NULL, NULL, 1)
  }

  lemma {:induction false} UpStays(h: Heap, kids: Kids, v: Value, x: Ptr, p: Ptr, k: nat)
    requires WellFormed(h, kids) && x !in h && x != NULL && (p in h || p == NULL)
    ensures var h2 := h[x := Lone(v)]; Up(h2, p, k) == Up(h, p, k) && Up(h, p, k) != x
    decreases k
  {
    hide SpellsList, Rooted;
    if k > 0 && p in h {
      assert HasPlace(h, kids, p);
      UpStays(h, kids, v, x, h[p].parent, k - 1);
    }
  }

  /** A store with one more node that is linked to nothing. */
  lemma LoneWellFormed(h: Heap, kids: Kids, v: Value, x: Ptr)
    requires WellFormed(h, kids) && x !in h && x != NULL
    ensures WellFormed(h[x := Lone(v)], kids[x := []])
    ensures forall p :: p in h ==> !InSubtree(h[x := Lone(v)], p, x)
  {
    hide SpellsList, HasPlace, Rooted, InSubtree;
    var h2, kids2 := h[x := Lone(v)], kids[x := []];
    forall p | p in h2
      ensures SpellsList(h2, p, kids2[p]) && HasPlace(h2, kids2, p) && Rooted(h2, p)
    {
      if p == x {
        LoneItself(h2, kids2, v, x);
      } else {
        assert SpellsList(h, p, kids[p]) && HasPlace(h, kids, p) && Rooted(h, p);
        OldNode(h, kids, v, x, p);
      }
    }
    forall p | p in h
      ensures !InSubtree(h2, p, x)
    {
      NotBelow(h, kids, v, x, p);
    }
  }

  lemma LoneItself(h2: Heap, kids2: Kids, v: Value, x: Ptr)
    requires x in h2 && h2[x] == Lone(v) && x in kids2 && kids2[x] == []
    ensures SpellsList(h2, x, kids2[x]) && HasPlace(h2, kids2, x) && Rooted(h2, x)
  {
    assert Up(h2, x, 1) == Up(h2, NULL, 0) == NULL;
  }

  lemma OldNode(h: Heap, kids: Kids, v: Value, x: Ptr, p: Ptr)
    requires WellFormed(h, kids) && x !in h && x != NULL && p in h
    requires SpellsList(h, p, kids[p]) && HasPlace(h, kids, p) && Rooted(h, p)
    ensures var h2, kids2 := h[x := Lone(v)], kids[x := []];
            SpellsList(h2, p, kids2[p]) && HasPlace(h2, kids2, p) && Rooted(h2, p)
  {
    hide WellFormed;
    var k: nat :| Up(h, p, k) == NULL;
    UpStays(h, kids, v, x, p, k);
    assert Up(h[x := Lone(v)], p, k) == NULL;
    KidsOf(h, kids, p);
  }

  lemma NotBelow(h: Heap, kids: Kids, v: Value, x: Ptr, p: Ptr)
    requires WellFormed(h, kids) && x !in h && x != NULL && p in h
    ensures !InSubtree(h[x := Lone(v)], p, x)
  {
    hide WellFormed;
    var h2 := h[x := Lone(v)];
    forall k: nat ensures Up(h2, p, k) != x {
      UpStays(h, kids, v, x, p, k);
    }
  }

  /** The new node comes last among its parent's children; nothing else changes. */
  lemma AddedLast(h: Heap, kids: Kids, parent: Ptr, x: Ptr)
    requires WellFormed(h, kids) && parent in h && x in h && h[x].parent == NULL
    ensures parent in kids && KidsAdded(h, kids, parent, true, NULL, x) == kids[parent := kids[parent] + [x]]
  {
    hide WellFormed, IndexOf, Without;
    NullNoChild(h, kids, parent);
    var l := kids[parent];
    assert l[..|l|] == l && l[|l|..] == [] && l + [x] + [] == l + [x];
  }

  lemma NullNoChild(h: Heap, kids: Kids, p: Ptr)
    requires WellFormed(h, kids) && p in h
    ensures p in kids && NULL !in kids && NULL !in kids[p]
  {
    hide HasPlace, Rooted;
    assert SpellsList(h, p, kids[p]);
  }

  /** `mxml_new`, with the address that the allocation returns. */
  method New(store: Store, v: Value, parent: Ptr, x: Ptr)
    requires store.Valid() && IsPtr(store.heap, parent) && x !in store.heap && x != NULL
    modifies store
    ensures store.Valid()
    ensures store.heap.Keys == old(store.heap).Keys + {x} && store.heap[x].v == v && store.heap[x].refCount == 1
    ensures forall p :: p in old(store.heap) ==>
              store.heap[p].v == old(store.heap)[p].v && store.heap[p].refCount == old(store.heap)[p].refCount
    ensures store.kids == if parent == NULL then old(store.kids)[x := []]
                          else old(store.kids)[x := []][parent := old(store.kids)[parent] + [x]]
  {
    hide WellFormed, InSubtree, KidsAdded;
    LoneWellFormed(store.heap, store.kids, v, x);
    store.heap := store.heap[x := Lone(v)];
    store.kids := store.kids[x := []];
    if parent != NULL {
      AddedLast(store.heap, store.kids, parent, x);
      KidsOf(store.heap, store.kids, parent);
      store.Add(parent, true, NULL, x);
    }
  }

  lemma KidsOf(h: Heap, kids: Kids, p: Ptr)
    requires WellFormed(h, kids) && p in h
    ensures p in kids && kids.Keys == h.Keys
  {
    hide SpellsList, HasPlace, Rooted;
  }

  /** Adding a node below its own child leaves pointers that no lists of children fit. */
  method AddBelowOwnChild(v: Value) returns (store: Store)
    ensures fresh(store) && !Coherent(store.heap)
  {
    hide WellFormed, InSubtree, KidsAdded, Coherent;
    store := new Store();
    New(store, v, NULL, 1);
    New(store, v, 1, 2);
    OnlyChild(store.heap, store.kids, 1, 2);
    store.Add(2, false, NULL, 1);
  }

  /** So does adding a node next to itself. */
  method AddBesideItself(v: Value) returns (store: Store)
    ensures fresh(store) && !Coherent(store.heap)
  {
    hide WellFormed, InSubtree, KidsAdded, Coherent;
    store := new Store();
    New(store, v, NULL, 1);
    New(store, v, 1, 2);
    store.Add(1, true, 2, 2);
  }

  lemma OnlyChild(h: Heap, kids: Kids, p: Ptr, c: Ptr)
    requires WellFormed(h, kids) && p in kids && kids[p] == [c] && p != NULL
    ensures InSubtree(h, c, p)
  {
    hide HasPlace, Rooted;
    assert SpellsList(h, p, kids[p]);
    assert [c][0] == c;
    assert Up(h, c, 1) == p;
  }
}
