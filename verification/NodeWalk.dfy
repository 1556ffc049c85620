/** mxml-search.c: walking a tree in document order by its pointers, without a stack, and finding
    elements on the way. */
module NodeWalk {
  import opened XmlTree
  import opened NodeStore

  /** Document order: a node, then what is below it, then its later siblings. */
  function PreOrder(f: Forest): seq<Ptr> {
    match f
    case Void => []
    case Tree(id, kids, rest) => [id] + PreOrder(kids) + PreOrder(rest)
  }

  /** What comes after a place, from the later siblings of its parent on. */
  function After(p: Path): seq<Ptr> {
    match p
    case Top => []
    case Under(_, later, up) => PreOrder(later) + After(up)
  }

  function Head(s: seq<Ptr>): Ptr {
    if s == [] then NULL else s[0]
  }

  /** The i-th node in document order, with what is below it and its later siblings. */
  function Spot(f: Forest, i: nat): (here: Forest)
    requires i < |PreOrder(f)|
    ensures here.Tree? && here.id == PreOrder(f)[i]
    ensures i + 1 + |PreOrder(here.kids)| <= |PreOrder(f)|
  {
    if i == 0 then f
    else if i - 1 < |PreOrder(f.kids)| then Spot(f.kids, i - 1)
    else Spot(f.rest, i - 1 - |PreOrder(f.kids)|)
  }

  /** Where the node after the i-th one's subtree stands. */
  function SkipTo(f: Forest, i: nat): (j: nat)
    requires i < |PreOrder(f)|
    ensures i < j <= |PreOrder(f)|
  {
    i + 1 + |PreOrder(Spot(f, i).kids)|
  }

  lemma PreOrderHead(f: Forest)
    ensures Head(PreOrder(f)) == First(f)
  {
  }

  lemma {:induction false} PreOrderIds(f: Forest)
    ensures forall x :: x in PreOrder(f) <==> x in Ids(f)
  {
    if f.Tree? {
      PreOrderIds(f.kids);
      PreOrderIds(f.rest);
    }
  }

  lemma {:induction false} PreOrderNoDup(f: Forest)
    requires Distinct(f)
    ensures NoDup(PreOrder(f))
  {
    if f.Tree? {
      PreOrderNoDup(f.kids);
      PreOrderNoDup(f.rest);
      PreOrderIds(f.kids);
      PreOrderIds(f.rest);
      NoDupJoin([f.id], PreOrder(f.kids));
      NoDupJoin([f.id] + PreOrder(f.kids), PreOrder(f.rest));
    }
  }

  lemma NoDupJoin(s: seq<Ptr>, t: seq<Ptr>)
    requires NoDup(s) && NoDup(t) && forall x :: x in s ==> x !in t
    ensures NoDup(s + t)
  {
    forall i, j | 0 <= i < j < |s + t|
      ensures (s + t)[i] != (s + t)[j]
    {
      if i < |s| <= j {
        assert s[i] in s && t[j - |s|] in t;
      }
    }
  }

  lemma PreOrderDrop(f: Forest, i: nat)
    requires i < |PreOrder(f)|
    ensures f.Tree?
    ensures var k, r := PreOrder(f.kids), PreOrder(f.rest);
            && |PreOrder(f)| == 1 + |k| + |r|
            && (i == 0 ==> PreOrder(f)[i + 1..] == k + r)
            && (0 < i <= |k| ==> PreOrder(f)[i + 1..] == k[i..] + r)
            && (i > |k| ==> PreOrder(f)[i + 1..] == r[i - |k|..])
  {
    DropParts(f.id, PreOrder(f.kids), PreOrder(f.rest), i);
  }

  lemma DropParts(x: Ptr, k: seq<Ptr>, r: seq<Ptr>, i: nat)
    requires i < 1 + |k| + |r|
    ensures var s := [x] + k + r;
            && (i == 0 ==> s[i + 1..] == k + r)
            && (0 < i <= |k| ==> s[i + 1..] == k[i..] + r)
            && (i > |k| ==> s[i + 1..] == r[i - |k|..])
  {
  }

  /** The nodes above the i-th one. */
  function Above(f: Forest, i: nat): set<Ptr>
    requires i < |PreOrder(f)|
  {
    if i == 0 then {}
    else if i - 1 < |PreOrder(f.kids)| then {f.id} + Above(f.kids, i - 1)
    else Above(f.rest, i - 1 - |PreOrder(f.kids)|)
  }

  /** The parents on the way up. */
  function Trail(p: Path): set<Ptr> {
    if p.Top? then {} else {p.id} + Trail(p.up)
  }

  lemma {:induction false} TrailAvoids(h: Heap, p: Path, base: Ptr)
    requires ChainedPath(h, p, base)
    ensures base !in Trail(p)
  {
    if p.Under? {
      TrailAvoids(h, p.up, base);
    }
  }

  /** From an index in document order to the place in the tree; `base` is the parent of the outermost
      nodes. */
  lemma {:induction false} Locate(h: Heap, f: Forest, base: Ptr, p0: Path, i: nat) returns (p: Path)
    requires Chained(h, f, ParentAt(p0, base)) && ChainedPath(h, p0, base) && base !in Ids(f)
    requires i < |PreOrder(f)|
    ensures var here := Spot(f, i);
            && here.id != base && Chained(h, here, ParentAt(p, base)) && ChainedPath(h, p, base)
            && PreOrder(f)[i + 1..] + After(p0) == PreOrder(here.kids) + PreOrder(here.rest) + After(p)
    ensures Trail(p) == Above(f, i) + Trail(p0)
    decreases f
  {
    hide PreOrder;
    PreOrderDrop(f, i);
    var n := |PreOrder(f.kids)|;
    if i == 0 {
      p := p0;
    } else if i - 1 < n {
      p := Locate(h, f.kids, base, Under(f.id, f.rest, p0), i - 1);
      assert PreOrder(f.kids)[i..] + PreOrder(f.rest) + After(p0) == PreOrder(f.kids)[i..] + (PreOrder(f.rest) + After(p0));
    } else {
      p := Locate(h, f.rest, base, p0, i - 1 - n);
    }
  }

  /** The node is the i-th below `top`, or `top` itself, at -1. */
  ghost predicate Below(h: Heap, f: Forest, top: Ptr, node: Ptr, i: int) {
    && top != NULL && top in h && h[top].child == First(f) && top !in Ids(f)
    && Chained(h, f, top) && node in h
    && -1 <= i < |PreOrder(f)|
    && node == if i == -1 then top else PreOrder(f)[i]
  }

  /** The node is the i-th of a whole document, and `top` is neither it nor above it: `top` is null, or
      elsewhere in the document, or in another one. */
  ghost predicate Outside(h: Heap, f: Forest, top: Ptr, node: Ptr, i: int) {
    && Chained(h, f, NULL) && node in h
    && 0 <= i < |PreOrder(f)|
    && node == PreOrder(f)[i] && node != top && top !in Above(f, i)
  }

  /** Where a node can stand: a node is `top` or below it, or it is outside. */
  ghost predicate Stands(h: Heap, f: Forest, top: Ptr, node: Ptr, i: int) {
    Below(h, f, top, node, i) || Outside(h, f, top, node, i)
  }

  lemma LocateBelow(h: Heap, f: Forest, top: Ptr, node: Ptr, i: int, j: nat) returns (p: Path, base: Ptr)
    requires Stands(h, f, top, node, i) && j < |PreOrder(f)|
    ensures var here := Spot(f, j);
            && here.id != base && Chained(h, here, ParentAt(p, base)) && ChainedPath(h, p, base)
            && PreOrder(f)[j + 1..] + After(Top) == PreOrder(here.kids) + PreOrder(here.rest) + After(p)
    ensures base == top || base == NULL
    ensures i == j ==> top !in Trail(p)
  {
    hide PreOrder, Chained, Spot, Ids, Above;
    base := if Below(h, f, top, node, i) then top else NULL;
    if base == NULL {
      assert NULL !in Ids(f) by { ChainedInHeap(h, f, NULL); }
    }
    p := Locate(h, f, base, Top, j);
    TrailAvoids(h, p, base);
    assert Trail(p) == Above(f, j) + Trail(Top);
  }

  lemma StandsInHeap(h: Heap, f: Forest, top: Ptr, node: Ptr, i: int)
    requires Stands(h, f, top, node, i)
    ensures node != NULL && node in h
    ensures node == top <==> i == -1
    ensures -1 <= i < |PreOrder(f)| && NULL !in PreOrder(f)
    ensures forall x :: x in PreOrder(f) ==> x in h
    ensures i == -1 ==> top in h && h[top].child == First(f)
    ensures i >= 0 ==> node == PreOrder(f)[i]
    ensures Below(h, f, top, node, i) ==> top !in PreOrder(f)
    ensures Below(h, f, top, node, i) ==> forall j :: 0 <= j < |PreOrder(f)| ==> Below(h, f, top, PreOrder(f)[j], j)
  {
    ChainedInHeap(h, f, if Below(h, f, top, node, i) then top else NULL);
    PreOrderIds(f);
  }

  // The ascent ends at the next sibling of the closest ancestor that has one, or at the top.
  method Ascend(h: Heap, start: Ptr, top: Ptr, ghost p: Path, ghost base: Ptr) returns (r: Ptr)
    requires p.Under? && p.id == start && ChainedPath(h, p, base)
    requires (base == top || base == NULL) && top !in Trail(p)
    ensures r == Head(After(p))
  {
    var node := start;
    ghost var q := p;
    while h[node].next == NULL
      invariant q.Under? && q.id == node && ChainedPath(h, q, base) && top !in Trail(q)
      invariant After(q) == After(p)
      decreases q
    {
      assert q.later.Void?;
      if h[node].parent == top || h[node].parent == NULL {
        return NULL;
      }
      node := h[node].parent;
      q := q.up;
    }
    PreOrderHead(q.later);
    r := h[node].next;
  }

  /** The next node in document order; without descending, the next one that is not below this one. */
  method WalkNext(h: Heap, node: Ptr, top: Ptr, descend: bool, ghost f: Forest, ghost i: int) returns (r: Ptr)
    requires node == NULL || Stands(h, f, top, node, i)
    ensures node == NULL ==> r == NULL
    ensures node != NULL && descend ==> r == Head(PreOrder(f)[i + 1..])
    ensures node != NULL && !descend ==> r == if i == -1 then NULL else Head(PreOrder(f)[SkipTo(f, i)..])
  {
    hide Chained, ChainedPath, Distinct, Ids, Stands, Trail;
    if node == NULL {
      return NULL;
    }
    StandsInHeap(h, f, top, node, i);
    ghost var p, base := Top, NULL;
    if i == -1 {
      PreOrderHead(f);
      assert PreOrder(f)[0..] == PreOrder(f);
    } else {
      p, base := LocateBelow(h, f, top, node, i, i);
      Pointers(h, Spot(f, i), p, base);
      SplitRest(f, Spot(f, i), p, i);
      TrailHead(p);
    }
    if h[node].child != NULL && descend {
      return h[node].child;
    } else if node == top {
      return NULL;
    } else if h[node].next != NULL {
      return h[node].next;
    } else if h[node].parent != NULL && h[node].parent != top {
      r := Ascend(h, h[node].parent, top, p, base);
    } else {
      return NULL;
    }
  }

  lemma TrailHead(p: Path)
    ensures p.Under? ==> p.id in Trail(p)
  {
  }

  lemma Pointers(h: Heap, here: Forest, p: Path, base: Ptr)
    requires here.Tree? && Chained(h, here, ParentAt(p, base)) && ChainedPath(h, p, base)
    ensures here.id in h
    ensures h[here.id].child == First(here.kids) == Head(PreOrder(here.kids))
    ensures h[here.id].next == First(here.rest) == Head(PreOrder(here.rest))
    ensures h[here.id].parent == ParentAt(p, base)
    ensures p.Under? ==> p.id != NULL && p.id != base
    ensures First(here.kids) == NULL <==> PreOrder(here.kids) == []
    ensures First(here.rest) == NULL <==> PreOrder(here.rest) == []
  {
  }

  lemma SplitRest(f: Forest, here: Forest, p: Path, i: nat)
    requires i < |PreOrder(f)| && here == Spot(f, i)
    requires PreOrder(f)[i + 1..] + After(Top) == PreOrder(here.kids) + PreOrder(here.rest) + After(p)
    ensures PreOrder(f)[i + 1..] == PreOrder(here.kids) + (PreOrder(here.rest) + After(p))
    ensures PreOrder(f)[SkipTo(f, i)..] == PreOrder(here.rest) + After(p)
  {
    hide PreOrder, Spot, After;
    var k, r, a := PreOrder(here.kids), PreOrder(here.rest), After(p);
    var tail := PreOrder(f)[i + 1..];
    assert tail + [] == tail && k + r + a == k + (r + a);
    assert After(Top) == [] by { AfterTop(); }
    assert tail[|k|..] == PreOrder(f)[SkipTo(f, i)..];
  }

  lemma AfterTop()
    ensures After(Top) == []
  {
  }

  // Who is above a node comes before it, and the node comes before the end of what is below them.
  lemma {:induction false} AboveSpot(f: Forest, i: nat, x: Ptr) returns (t: nat)
    requires i < |PreOrder(f)| && x in Above(f, i)
    ensures t < i && PreOrder(f)[t] == x && i < SkipTo(f, t)
    decreases f
  {
    var n := |PreOrder(f.kids)|;
    if i - 1 < n {
      t := 0;
      if x != f.id {
        t := AboveSpot(f.kids, i - 1, x);
        t := t + 1;
      }
    } else {
      t := AboveSpot(f.rest, i - 1 - n, x);
      t := t + 1 + n;
    }
  }

  lemma SpotKids(h: Heap, here: Forest, p: Path, base: Ptr)
    requires here.Tree? && Chained(h, here, ParentAt(p, base))
    ensures Chained(h, here.kids, here.id) && here.id in h
  {
  }

  lemma {:induction false} SpotDistinct(f: Forest, i: nat)
    requires Distinct(f) && i < |PreOrder(f)|
    ensures Distinct(Spot(f, i)) && Spot(f, i).id !in Ids(Spot(f, i).kids)
  {
    if i == 0 {
    } else if i - 1 < |PreOrder(f.kids)| {
      SpotDistinct(f.kids, i - 1);
    } else {
      SpotDistinct(f.rest, i - 1 - |PreOrder(f.kids)|);
    }
  }

  // What is below the i-th node, in document order.
  lemma SpotBelow(h: Heap, f: Forest, parent: Ptr, i: nat)
    requires Chained(h, f, parent) && parent !in Ids(f) && i < |PreOrder(f)|
    ensures var here := Spot(f, i);
            && PreOrder(here.kids) == PreOrder(f)[i + 1..SkipTo(f, i)]
            && (here.id != NULL ==> Below(h, here.kids, here.id, here.id, -1))
  {
    hide PreOrder, Spot, Chained, Above;
    var p := Locate(h, f, parent, Top, i);
    var here := Spot(f, i);
    Pointers(h, here, p, parent);
    ChainedDistinct(h, f, parent);
    SpotDistinct(f, i);
    SpotKids(h, here, p, parent);
    var k, r := PreOrder(here.kids), PreOrder(here.rest) + After(p);
    var tail := PreOrder(f)[i + 1..];
    AfterTop();
    assert tail == tail + After(Top);
    assert tail == k + r;
    assert tail[..|k|] == k;
  }

  lemma {:induction false} SpotLinked(h: Heap, f: Forest, parent: Ptr, prev: Ptr, i: nat)
    requires i < |PreOrder(f)|
    ensures Linked(h, f, parent, prev) ==> Linked(h, Spot(f, i).kids, Spot(f, i).id, NULL)
  {
    if i == 0 {
    } else if i - 1 < |PreOrder(f.kids)| {
      SpotLinked(h, f.kids, f.id, NULL, i - 1);
    } else {
      SpotLinked(h, f.rest, parent, f.id, i - 1 - |PreOrder(f.kids)|);
    }
  }

  /** Every node of a document stands somewhere, whatever `top` is; in a document linked both ways it stands
      where the walk back needs it. */
  lemma EveryNodeStands(h: Heap, doc: Forest, i: nat, top: Ptr) returns (f: Forest, j: int)
    requires Chained(h, doc, NULL) && i < |PreOrder(doc)|
    ensures Stands(h, f, top, PreOrder(doc)[i], j)
    ensures Linked(h, doc, NULL, NULL) ==> Linked(h, f, top, NULL) || Linked(h, f, NULL, NULL)
  {
    hide PreOrder, Spot, Chained, Above, Distinct, Linked;
    ChainedInHeap(h, doc, NULL);
    PreOrderIds(doc);
    var node := PreOrder(doc)[i];
    if node == top {
      SpotBelow(h, doc, NULL, i);
      SpotLinked(h, doc, NULL, NULL, i);
      f, j := Spot(doc, i).kids, -1;
    } else if top in Above(doc, i) {
      var t := AboveSpot(doc, i, top);
      SpotBelow(h, doc, NULL, t);
      SpotLinked(h, doc, NULL, NULL, t);
      f, j := Spot(doc, t).kids, i - t - 1;
      assert PreOrder(f)[j] == node;
    } else {
      f, j := doc, i;
    }
  }

  // ---- backwards ----

  /** The last node of a forest in document order: the last sibling, then its last child, and so on. */
  function Deepest(f: Forest): (x: Ptr)
    requires f.Tree?
  {
    if f.rest.Tree? then Deepest(f.rest) else if f.kids.Tree? then Deepest(f.kids) else f.id
  }

  lemma {:induction false} DeepestIsLast(f: Forest)
    requires f.Tree?
    ensures PreOrder(f) != [] && Deepest(f) == PreOrder(f)[|PreOrder(f)| - 1]
  {
    if f.rest.Tree? {
      DeepestIsLast(f.rest);
    } else if f.kids.Tree? {
      DeepestIsLast(f.kids);
    }
  }

  /** The last tree of a forest, and its pointers. */
  lemma {:induction false} LastTree(h: Heap, f: Forest, parent: Ptr, prev: Ptr, before: Ptr) returns (t: Forest)
    requires Linked(h, f, parent, prev) && f.Tree?
    ensures t.Tree? && t.rest.Void? && t.id == Last(f, before) && t.id in h && t.id != NULL
    ensures h[t.id].lastChild == Last(t.kids, NULL) && Linked(h, t.kids, t.id, NULL)
    ensures Deepest(f) == if t.kids.Tree? then Deepest(t.kids) else t.id
    ensures t == f || t < f
  {
    if f.rest.Tree? {
      t := LastTree(h, f.rest, parent, f.id, f.id);
    } else {
      t := f;
    }
  }

  lemma {:induction false} LastNull(h: Heap, f: Forest, parent: Ptr, prev: Ptr)
    requires Linked(h, f, parent, prev)
    ensures Last(f, NULL) == NULL <==> f.Void?
  {
    if f.Tree? {
      var t := LastTree(h, f, parent, prev, NULL);
    }
  }

  /** How the i-th node is reached from the one before it: it is the first child of that node, or that
      node is the last one below its previous sibling. */
  lemma {:induction false} Before(h: Heap, f: Forest, parent: Ptr, prev: Ptr, i: nat) returns (below: Forest)
    requires Linked(h, f, parent, prev) && i < |PreOrder(f)|
    ensures var x := PreOrder(f)[i];
            && x in h
            && (i == 0 ==> h[x].parent == parent && h[x].prev == prev)
            && (i > 0 && h[x].prev == NULL ==> h[x].parent == PreOrder(f)[i - 1] && h[x].parent in Above(f, i))
            && (i > 0 && h[x].prev != NULL ==>
                  var y := h[x].prev;
                  && y in h && Linked(h, below, y, NULL) && h[y].lastChild == Last(below, NULL)
                  && PreOrder(f)[i - 1] == if below.Tree? then Deepest(below) else y)
    decreases f
  {
    var k, r := PreOrder(f.kids), PreOrder(f.rest);
    if i == 0 {
      below := Void;
    } else if i - 1 < |k| {
      below := Before(h, f.kids, f.id, NULL, i - 1);
      assert PreOrder(f)[i] == k[i - 1];
      if i > 1 {
        assert PreOrder(f)[i - 1] == k[i - 2];
      }
    } else if i - 1 == |k| {
      assert PreOrder(f)[i] == r[0] == f.rest.id;
      below := f.kids;
      if f.kids.Tree? {
        DeepestIsLast(f.kids);
        assert PreOrder(f)[i - 1] == k[|k| - 1];
      }
    } else {
      below := Before(h, f.rest, parent, f.id, i - 1 - |k|);
      assert PreOrder(f)[i] == r[i - 1 - |k|];
      assert PreOrder(f)[i - 1] == r[i - 2 - |k|];
    }
  }

  // Follow last_child pointers down.
  method DescendLast(h: Heap, start: Ptr, ghost g: Forest, ghost parent: Ptr) returns (node: Ptr)
    requires Linked(h, g, parent, NULL) && g.Tree? && start == Last(g, NULL)
    ensures node == Deepest(g)
  {
    node := start;
    ghost var f, above := g, parent;
    ghost var t := LastTree(h, f, above, NULL, NULL);
    while h[node].lastChild != NULL
      invariant f.Tree? && Linked(h, f, above, NULL) && Deepest(f) == Deepest(g)
      invariant t.Tree? && t.id == node && t.id in h && (t == f || t < f)
      invariant h[t.id].lastChild == Last(t.kids, NULL) && Linked(h, t.kids, t.id, NULL)
      invariant Deepest(f) == if t.kids.Tree? then Deepest(t.kids) else t.id
      decreases t
    {
      LastNull(h, t.kids, t.id, NULL);
      node := h[node].lastChild;
      f, above := t.kids, t.id;
      t := LastTree(h, f, above, NULL, NULL);
    }
    LastNull(h, t.kids, t.id, NULL);
  }

  /** The previous node in document order: walking back undoes walking forward, and stops below `top`. */
  method WalkPrev(h: Heap, node: Ptr, top: Ptr, descend: bool, ghost f: Forest, ghost i: int) returns (r: Ptr)
    requires node == NULL || Stands(h, f, top, node, i)
    requires node != NULL ==> Linked(h, f, top, NULL) || Linked(h, f, NULL, NULL)
    ensures node == NULL || i <= 0 ==> r == NULL
    ensures node != NULL && i > 0 && descend ==> r == PreOrder(f)[i - 1]
    ensures node != NULL && i > 0 && !descend ==> r == if h[node].prev != NULL then h[node].prev else PreOrder(f)[i - 1]
  {
    hide Chained, Linked, Deepest, Last, Ids, Above, Stands, PreOrder;
    if node == NULL {
      return NULL;
    }
    StandsInHeap(h, f, top, node, i);
    if node == top {
      return NULL;
    }
    ghost var base := if Linked(h, f, top, NULL) then top else NULL;
    ghost var below := Before(h, f, base, NULL, i);
    AboveAvoids(h, f, top, node, i);
    if h[node].prev != NULL {
      LastNull(h, below, h[node].prev, NULL);
      if h[h[node].prev].lastChild != NULL && descend {
        r := DescendLast(h, h[h[node].prev].lastChild, below, h[node].prev);
      } else {
        r := h[node].prev;
      }
    } else if h[node].parent != top {
      r := h[node].parent;
    } else {
      r := NULL;
    }
  }

  lemma {:induction false} AboveIds(f: Forest, i: nat)
    requires i < |PreOrder(f)|
    ensures Above(f, i) <= Ids(f)
  {
    if i == 0 {
    } else if i - 1 < |PreOrder(f.kids)| {
      AboveIds(f.kids, i - 1);
    } else {
      AboveIds(f.rest, i - 1 - |PreOrder(f.kids)|);
    }
  }

  lemma AboveAvoids(h: Heap, f: Forest, top: Ptr, node: Ptr, i: nat)
    requires Stands(h, f, top, node, i)
    ensures top !in Above(f, i)
  {
    if Below(h, f, top, node, i) {
      AboveIds(f, i);
    }
  }

  // ---- finding elements ----

  /** mxmlElementGetAttr: the value of the first attribute of that name. */
  function GetAttr(attrs: seq<Attr>, name: Str): Option<Str> {
    if attrs == [] then None
    else if attrs[0].name == name then attrs[0].value
    else GetAttr(attrs[1..], name)
  }

  /** An element of that name, if one is given, that has the attribute, if one is given, with that value,
      if one is given. */
  predicate Wanted(v: Value, element: Option<Str>, attr: Option<Str>, value: Option<Str>) {
    && v.Element?
    && (element.None? || v.name == element.value)
    && (attr.None? ||
        (GetAttr(v.attrs, attr.value).Some? && (value.None? || value == GetAttr(v.attrs, attr.value))))
  }

  /** The first attribute of that name is this one, and it has a value: the given one, if one is given. */
  predicate Carries(attrs: seq<Attr>, name: Str, value: Option<Str>, j: nat) {
    && j < |attrs| && attrs[j].name == name && (forall k :: 0 <= k < j ==> attrs[k].name != name)
    && attrs[j].value.Some? && (value.Some? ==> attrs[j].value.value == value.value)
  }

  /** What a search asks of a node. */
  ghost predicate Matches(v: Value, element: Option<Str>, attr: Option<Str>, value: Option<Str>) {
    && v.Element?
    && (element.Some? ==> v.name == element.value)
    && (attr.Some? ==> exists j :: Carries(v.attrs, attr.value, value, j))
  }

  lemma {:induction false} GetAttrMeans(attrs: seq<Attr>, name: Str, value: Option<Str>)
    ensures var got := GetAttr(attrs, name);
            got.Some? && (value.None? || value == got) <==> exists j :: Carries(attrs, name, value, j)
  {
    if attrs != [] {
      if attrs[0].name == name {
        assert Carries(attrs, name, value, 0) <==> attrs[0].value.Some? && (value.None? || value == attrs[0].value);
      } else {
        GetAttrMeans(attrs[1..], name, value);
        forall j: nat ensures Carries(attrs[1..], name, value, j) <==> Carries(attrs, name, value, j + 1) {
          CarriesNext(attrs, name, value, j);
        }
        forall j: nat | Carries(attrs, name, value, j) ensures j > 0 && Carries(attrs[1..], name, value, j - 1) {
          CarriesNext(attrs, name, value, j - 1);
        }
      }
    }
  }

  lemma CarriesNext(attrs: seq<Attr>, name: Str, value: Option<Str>, j: nat)
    requires attrs != [] && attrs[0].name != name
    ensures Carries(attrs[1..], name, value, j) <==> Carries(attrs, name, value, j + 1)
  {
    assert forall k :: 0 < k < |attrs| ==> attrs[k] == attrs[1..][k - 1];
    if j + 1 < |attrs| && forall k :: 0 <= k < j + 1 ==> attrs[k].name != name {
      forall k | 0 <= k < j ensures attrs[1..][k].name != name {
        assert attrs[1..][k] == attrs[k + 1];
      }
    }
  }

  lemma WantedMeans(v: Value, element: Option<Str>, attr: Option<Str>, value: Option<Str>)
    ensures Wanted(v, element, attr, value) <==> Matches(v, element, attr, value)
  {
    hide GetAttr, Carries;
    if v.Element? && attr.Some? {
      GetAttrMeans(v.attrs, attr.value, value);
    }
  }

  datatype Mode = NoDescend | Descend | DescendFirst

  /** The first wanted node of a list, null if there is none. */
  function FirstWanted(h: Heap, l: seq<Ptr>, element: Option<Str>, attr: Option<Str>, value: Option<Str>): (r: Ptr)
    requires forall x :: x in l ==> x in h
    ensures r == NULL || (r in l && Wanted(h[r].v, element, attr, value))
    ensures r == NULL && NULL !in l ==> forall x :: x in l ==> !Wanted(h[x].v, element, attr, value)
  {
    if l == [] then NULL
    else if Wanted(h[l[0]].v, element, attr, value) then l[0]
    else FirstWanted(h, l[1..], element, attr, value)
  }

  /** The first of these nodes that matches, or null if none does. */
  ghost predicate FirstMatch(h: Heap, l: seq<Ptr>, element: Option<Str>, attr: Option<Str>, value: Option<Str>, r: Ptr)
    requires forall x :: x in l ==> x in h
  {
    if r == NULL then forall k :: 0 <= k < |l| ==> !Matches(h[l[k]].v, element, attr, value)
    else exists k ::
        && 0 <= k < |l| && l[k] == r && Matches(h[r].v, element, attr, value)
        && forall m :: 0 <= m < k ==> !Matches(h[l[m]].v, element, attr, value)
  }

  lemma {:induction false} FirstWantedMatches(h: Heap, l: seq<Ptr>, element: Option<Str>, attr: Option<Str>, value: Option<Str>)
    requires (forall x :: x in l ==> x in h) && NULL !in l
    ensures FirstMatch(h, l, element, attr, value, FirstWanted(h, l, element, attr, value))
  {
    hide Wanted, Matches;
    if l != [] {
      WantedMeans(h[l[0]].v, element, attr, value);
      if !Wanted(h[l[0]].v, element, attr, value) {
        var r := FirstWanted(h, l[1..], element, attr, value);
        FirstWantedMatches(h, l[1..], element, attr, value);
        FirstMatchNext(h, l, element, attr, value, r);
      }
    }
  }

  lemma FirstMatchNext(h: Heap, l: seq<Ptr>, element: Option<Str>, attr: Option<Str>, value: Option<Str>, r: Ptr)
    requires l != [] && (forall x :: x in l ==> x in h) && !Matches(h[l[0]].v, element, attr, value)
    requires FirstMatch(h, l[1..], element, attr, value, r)
    ensures FirstMatch(h, l, element, attr, value, r)
  {
    hide Matches;
    assert forall k :: 0 < k < |l| ==> l[k] == l[1..][k - 1];
    if r != NULL {
      var k :| 0 <= k < |l[1..]| && l[1..][k] == r && Matches(h[r].v, element, attr, value)
               && forall m :: 0 <= m < k ==> !Matches(h[l[1..][m]].v, element, attr, value);
      assert l[k + 1] == r;
    }
  }

  /** A node and its later siblings. */
  function Row(f: Forest): seq<Ptr> {
    if f.Void? then [] else [f.id] + Row(f.rest)
  }

  /** The first place of a node in a list from `j` on, the end of the list if it is not there. */
  function Position(s: seq<Ptr>, x: Ptr, j: nat): (k: nat)
    requires j <= |s|
    ensures j <= k <= |s| && (k < |s| ==> s[k] == x)
    ensures x !in s[j..k]
    decreases |s| - j
  {
    if j == |s| || s[j] == x then j else Position(s, x, j + 1)
  }

  /** Where a walk that starts at the i-th node ends: a walk that comes to `top` goes through it and
      no further. */
  function Limit(f: Forest, i: int, top: Ptr): (n: nat)
    requires -1 <= i < |PreOrder(f)|
    ensures i < n <= |PreOrder(f)|
  {
    var t := Position(PreOrder(f), top, i + 1);
    if t < |PreOrder(f)| then SkipTo(f, t) else |PreOrder(f)|
  }

  /** What a search looks at: everything that follows in document order, or only the first node
      reached and its later siblings. */
  function Range(f: Forest, i: int, top: Ptr, mode: Mode): seq<Ptr>
    requires -1 <= i < |PreOrder(f)|
  {
    match mode
    case Descend => PreOrder(f)[i + 1..Limit(f, i, top)]
    case DescendFirst => if i + 1 < |PreOrder(f)| then Row(Spot(f, i + 1)) else []
    case NoDescend => if i >= 0 && SkipTo(f, i) < |PreOrder(f)| then Row(Spot(f, SkipTo(f, i))) else []
  }

  lemma {:induction false} RowInHeap(h: Heap, f: Forest, parent: Ptr)
    requires Chained(h, f, parent)
    ensures NULL !in Row(f) && forall x :: x in Row(f) ==> x in h
    ensures Head(Row(f)) == First(f)
  {
    if f.Tree? {
      RowInHeap(h, f.rest, parent);
    }
  }

  lemma RangeInHeap(h: Heap, f: Forest, top: Ptr, node: Ptr, i: int, mode: Mode)
    requires Stands(h, f, top, node, i)
    ensures -1 <= i < |PreOrder(f)|
    ensures NULL !in Range(f, i, top, mode) && forall x :: x in Range(f, i, top, mode) ==> x in h
  {
    hide Stands, Chained, Limit, SkipTo, Spot, Row, PreOrder;
    StandsInHeap(h, f, top, node, i);
    if !mode.Descend? {
      var j := if mode.DescendFirst? then i + 1 else if i >= 0 then SkipTo(f, i) else |PreOrder(f)|;
      var row, parent := RowFrom(h, f, top, node, i, j);
      RowInHeap(h, row, parent);
    }
  }

  /** The first wanted node in range, in order; null when there is none, or for a value without an
      attribute. */
  method FindElement(h: Heap, start: Ptr, top: Ptr, element: Option<Str>, attr: Option<Str>, value: Option<Str>,
                     mode: Mode, ghost f: Forest, ghost i: int)
    returns (r: Ptr)
    requires start == NULL || top == NULL || Stands(h, f, top, start, i)
    ensures start == NULL || top == NULL || (attr.None? && value.Some?) ==> r == NULL
    ensures start != NULL && top != NULL && !(attr.None? && value.Some?) ==>
              && (forall x :: x in Range(f, i, top, mode) ==> x in h)
              && r == FirstWanted(h, Range(f, i, top, mode), element, attr, value)
              && FirstMatch(h, Range(f, i, top, mode), element, attr, value, r)
  {
    hide Chained, Spot, Wanted, PreOrder, Ids, Row, Stands, SkipTo, FirstMatch;
    if start == NULL || top == NULL || (attr.None? && value.Some?) {
      if start != NULL && top != NULL {
        RangeInHeap(h, f, top, start, i, mode);
      }
      return NULL;
    }
    RangeInHeap(h, f, top, start, i, mode);
    if mode.Descend? {
      r := FindBelow(h, start, top, element, attr, value, f, i);
    } else {
      var node := WalkNext(h, start, top, mode.DescendFirst?, f, i);
      ghost var row, parent := RangeStart(h, f, top, start, i, mode, node);
      r := FindBeside(h, node, element, attr, value, row, parent);
    }
    FirstWantedMatches(h, Range(f, i, top, mode), element, attr, value);
  }

  // Without going down, what is looked at is one row of siblings, from where the first step leads.
  lemma RangeStart(h: Heap, f: Forest, top: Ptr, node: Ptr, i: int, mode: Mode, next: Ptr)
    returns (row: Forest, parent: Ptr)
    requires Stands(h, f, top, node, i) && !mode.Descend?
    requires mode.DescendFirst? ==> next == Head(PreOrder(f)[i + 1..])
    requires mode.NoDescend? ==> next == if i == -1 then NULL else Head(PreOrder(f)[SkipTo(f, i)..])
    ensures Chained(h, row, parent) && next == First(row)
    ensures Range(f, i, top, mode) == Row(row)
  {
    hide Stands, Chained, Row, Spot, PreOrder, SkipTo;
    StandsInHeap(h, f, top, node, i);
    var j := if mode.DescendFirst? then i + 1 else if i >= 0 then SkipTo(f, i) else |PreOrder(f)|;
    row, parent := RowFrom(h, f, top, node, i, j);
  }

  lemma RowFrom(h: Heap, f: Forest, top: Ptr, node: Ptr, i: int, j: nat) returns (row: Forest, parent: Ptr)
    requires Stands(h, f, top, node, i) && j <= |PreOrder(f)|
    ensures row == if j < |PreOrder(f)| then Spot(f, j) else Void
    ensures Chained(h, row, parent) && First(row) == Head(PreOrder(f)[j..])
    ensures j == |PreOrder(f)| ==> Row(row) == []
  {
    hide Stands, Spot, PreOrder;
    row, parent := Void, NULL;
    if j < |PreOrder(f)| {
      hide Chained;
      var p, base := LocateBelow(h, f, top, node, i, j);
      row, parent := Spot(f, j), ParentAt(p, base);
    }
  }

  /** A walk has come to the first of these nodes; the others are still ahead of it. */
  ghost predicate Ahead(h: Heap, f: Forest, top: Ptr, i: int, rest: seq<Ptr>) {
    rest == [] ||
    (-1 <= i < |PreOrder(f)| && Stands(h, f, top, rest[0], i) && rest[1..] == Range(f, i, top, Descend))
  }

  /** The node that follows the i-th one in document order is the first of these. */
  predicate NextInOrder(f: Forest, i: int, rest: seq<Ptr>) {
    -1 <= i < |PreOrder(f)| && Head(PreOrder(f)[i + 1..]) == Head(rest)
  }

  method FindBelow(h: Heap, start: Ptr, top: Ptr, element: Option<Str>, attr: Option<Str>, value: Option<Str>,
                   ghost f: Forest, ghost i: int)
    returns (node: Ptr)
    requires top != NULL && Stands(h, f, top, start, i)
    requires forall x :: x in Range(f, i, top, Descend) ==> x in h
    ensures node == FirstWanted(h, Range(f, i, top, Descend), element, attr, value)
  {
    hide Wanted, PreOrder, FirstWanted, Stands, Range, Ahead;
    ghost var g, k, rest := WalkStart(h, f, top, i, start);
    ghost var goal := FirstWanted(h, rest, element, attr, value);
    node := WalkNext(h, start, top, true, f, i);
    while node != NULL
      invariant node == Head(rest) && NULL !in rest && forall x :: x in rest ==> x in h
      invariant Ahead(h, g, top, k, rest)
      invariant FirstWanted(h, rest, element, attr, value) == goal
      decreases |rest|
    {
      FirstWantedHead(h, rest, element, attr, value);
      if Wanted(h[node].v, element, attr, value) {
        return;
      }
      ghost var f', i' := g, k;
      g, k := WalkStep(h, g, top, k, rest);
      node := WalkNext(h, node, top, true, f', i');
      rest := rest[1..];
    }
    FirstWantedHead(h, rest, element, attr, value);
  }

  // Before its first step a walk has its whole range ahead.
  lemma WalkStart(h: Heap, f: Forest, top: Ptr, i: int, start: Ptr) returns (g: Forest, k: int, rest: seq<Ptr>)
    requires top != NULL && Stands(h, f, top, start, i)
    ensures start != NULL && NextInOrder(f, i, rest) && rest == Range(f, i, top, Descend) && Ahead(h, g, top, k, rest)
    ensures NULL !in rest && forall x :: x in rest ==> x in h
  {
    hide PreOrder, Stands, Range, Limit;
    StandsInHeap(h, f, top, start, i);
    rest := Range(f, i, top, Descend);
    assert ([start] + rest)[1..] == rest;
    g, k := WalkStep(h, f, top, i, [start] + rest);
  }

  // One step of a walk, from the node it has come to.
  lemma WalkStep(h: Heap, f: Forest, top: Ptr, i: int, on: seq<Ptr>) returns (g: Forest, k: int)
    requires top != NULL && on != [] && Ahead(h, f, top, i, on)
    ensures Stands(h, f, top, on[0], i) && NextInOrder(f, i, on[1..]) && Ahead(h, g, top, k, on[1..])
    ensures NULL !in on[1..] && forall x :: x in on[1..] ==> x in h
  {
    hide PreOrder, Stands, Range, Limit;
    RangeParts(f, i, top);
    g, k := WalkOn(h, f, top, i, on);
  }

  lemma FirstWantedHead(h: Heap, l: seq<Ptr>, element: Option<Str>, attr: Option<Str>, value: Option<Str>)
    requires forall x :: x in l ==> x in h
    ensures FirstWanted(h, l, element, attr, value) ==
            if l == [] then NULL
            else if Wanted(h[l[0]].v, element, attr, value) then l[0]
            else FirstWanted(h, l[1..], element, attr, value)
  {
    hide Wanted;
  }

  // The node a walk goes to is the first in range, and the range from there is the remaining one. When a
  // walk from outside reaches `top`, the rest of it is below `top`.
  lemma WalkOn(h: Heap, f: Forest, top: Ptr, i: int, on: seq<Ptr>) returns (g: Forest, k: int)
    requires top != NULL && on != [] && Ahead(h, f, top, i, on)
    ensures Ahead(h, g, top, k, on[1..])
    ensures NULL !in on[1..] && forall x :: x in on[1..] ==> x in h
  {
    hide Chained, Spot, PreOrder, Ids, Above, Distinct, Limit, Range, Stands;
    var node := on[0];
    StandsInHeap(h, f, top, node, i);
    RangeParts(f, i, top);
    g, k := f, i + 1;
    if i + 1 < |PreOrder(f)| {
      if PreOrder(f)[i + 1] == top {
        g, k := Spot(f, i + 1).kids, -1;
        EnterTop(h, f, top, node, i);
        RangeWhole(g, top);
      } else {
        StandsNext(h, f, top, node, i);
      }
    }
  }

  lemma RangeParts(f: Forest, i: int, top: Ptr)
    requires -1 <= i < |PreOrder(f)|
    ensures var order, rest := PreOrder(f), Range(f, i, top, Descend);
            && Head(order[i + 1..]) == Head(rest)
            && (forall x :: x in rest ==> x in order)
            && (i + 1 == |order| ==> rest == [])
            && (i + 1 < |order| ==>
                  && rest != [] && rest[0] == order[i + 1]
                  && rest[1..] == order[i + 2..Limit(f, i, top)]
                  && (rest[0] != top ==> rest[1..] == Range(f, i + 1, top, Descend)))
  {
    hide PreOrder, Spot;
    var order := PreOrder(f);
    if i + 1 < |order| {
      assert order[i + 1..][0] == order[i + 1];
      assert order[i + 1..Limit(f, i, top)][1..] == order[i + 2..Limit(f, i, top)];
    }
  }

  lemma RangeWhole(f: Forest, top: Ptr)
    requires Limit(f, -1, top) == |PreOrder(f)|
    ensures Range(f, -1, top, Descend) == PreOrder(f)
  {
    hide PreOrder;
  }

  // Below `top` a walk goes to the end.
  lemma RangeBelow(h: Heap, f: Forest, top: Ptr, node: Ptr, i: int)
    requires Below(h, f, top, node, i)
    ensures Limit(f, i, top) == |PreOrder(f)| && Range(f, i, top, Descend) == PreOrder(f)[i + 1..]
  {
    hide PreOrder, Chained;
    PreOrderIds(f);
  }

  lemma StandsNext(h: Heap, f: Forest, top: Ptr, node: Ptr, i: int)
    requires Stands(h, f, top, node, i) && i + 1 < |PreOrder(f)| && PreOrder(f)[i + 1] != top
    ensures Stands(h, f, top, PreOrder(f)[i + 1], i + 1)
  {
    hide Chained, PreOrder, Above, Ids, Distinct;
    StandsInHeap(h, f, top, node, i);
    if !Below(h, f, top, node, i) {
      AboveNext(f, i);
    }
  }

  // The nodes above the next node are above this one, or this one itself.
  lemma {:induction false} AboveNext(f: Forest, i: nat)
    requires i + 1 < |PreOrder(f)|
    ensures Above(f, i + 1) <= Above(f, i) + {PreOrder(f)[i]}
  {
    var n := |PreOrder(f.kids)|;
    if i == 0 {
    } else if i < n {
      AboveNext(f.kids, i - 1);
    } else if i > n {
      AboveNext(f.rest, i - 1 - n);
    }
  }

  // A walk from outside that reaches `top`.
  lemma EnterTop(h: Heap, f: Forest, top: Ptr, node: Ptr, i: int)
    requires top != NULL && Stands(h, f, top, node, i) && i + 1 < |PreOrder(f)| && PreOrder(f)[i + 1] == top
    ensures var kids := Spot(f, i + 1).kids;
            && Stands(h, kids, top, top, -1)
            && PreOrder(kids) == PreOrder(f)[i + 2..SkipTo(f, i + 1)]
            && Limit(f, i, top) == SkipTo(f, i + 1)
            && Limit(kids, -1, top) == |PreOrder(kids)|
  {
    hide PreOrder, Spot, Chained, Ids, Above;
    StandsInHeap(h, f, top, node, i);
    assert NULL !in Ids(f) by { ChainedInHeap(h, f, NULL); }
    SpotBelow(h, f, NULL, i + 1);
    assert Spot(f, i + 1).id == top;
    PreOrderIds(Spot(f, i + 1).kids);
  }

  lemma FirstWantedStep(h: Heap, l: seq<Ptr>, j: nat, element: Option<Str>, attr: Option<Str>, value: Option<Str>)
    requires j <= |l| && forall x :: x in l ==> x in h
    ensures FirstWanted(h, l[j..], element, attr, value) ==
            if j == |l| then NULL
            else if Wanted(h[l[j]].v, element, attr, value) then l[j]
            else FirstWanted(h, l[j + 1..], element, attr, value)
  {
    hide Wanted;
    if j < |l| {
      assert l[j..][1..] == l[j + 1..];
    }
  }

  method FindBeside(h: Heap, start: Ptr, element: Option<Str>, attr: Option<Str>, value: Option<Str>,
                    ghost here: Forest, ghost parent: Ptr)
    returns (node: Ptr)
    requires Chained(h, here, parent) && start == First(here)
    requires forall x :: x in Row(here) ==> x in h
    ensures node == FirstWanted(h, Row(here), element, attr, value)
  {
    hide Wanted;
    node := start;
    ghost var g := here;
    while node != NULL
      invariant Chained(h, g, parent) && node == First(g)
      invariant forall x :: x in Row(g) ==> x in h
      invariant FirstWanted(h, Row(g), element, attr, value) == FirstWanted(h, Row(here), element, attr, value)
      decreases g
    {
      assert Row(g)[1..] == Row(g.rest);
      if Wanted(h[node].v, element, attr, value) {
        return;
      }
      node := h[node].next;
      g := g.rest;
    }
  }
}
