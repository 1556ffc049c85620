/** Moving nodes about (mxml-node.c): mxmlAdd and mxmlRemove on the pointers, against lists of children. */
module NodeEdit {
  import opened XmlTree
  import opened NodeStore

  /** The children of every node, in order: what the pointers stand for. */
  type Kids = map<Ptr, seq<Ptr>>

  function PrevIn(l: seq<Ptr>, i: nat): Ptr
    requires i <= |l|
  {
    if i == 0 then NULL else l[i - 1]
  }

  function NextIn(l: seq<Ptr>, i: nat): Ptr
    requires i < |l|
  {
    if i + 1 == |l| then NULL else l[i + 1]
  }

  /** The pointers of `p` and its children spell the list `l`. */
  predicate SpellsList(h: Heap, p: Ptr, l: seq<Ptr>)
    requires p in h
  {
    && NoDup(l)
    && h[p].child == (if l == [] then NULL else l[0])
    && h[p].lastChild == (if l == [] then NULL else l[|l| - 1])
    && forall i :: 0 <= i < |l| ==>
         && l[i] in h && h[l[i]].parent == p
         && h[l[i]].prev == PrevIn(l, i) && h[l[i]].next == NextIn(l, i)
  }

  /** The node reached by following `parent` `k` times. */
  function Up(h: Heap, p: Ptr, k: nat): Ptr
    decreases k
  {
    if k == 0 || p !in h then p else Up(h, h[p].parent, k - 1)
  }

  ghost predicate Rooted(h: Heap, p: Ptr) {
    exists k: nat :: Up(h, p, k) == NULL
  }

  /** A well-formed store: every pointer agrees with the lists of children, and no node is its own
      ancestor. */
  ghost predicate WellFormed(h: Heap, kids: Kids) {
    && NULL !in h && kids.Keys == h.Keys
    && (forall p {:trigger SpellsList(h, p, kids[p])} :: p in h ==> SpellsList(h, p, kids[p]))
    && (forall p {:trigger HasPlace(h, kids, p)} :: p in h ==> HasPlace(h, kids, p))
    && (forall p {:trigger Rooted(h, p)} :: p in h ==> Rooted(h, p))
  }

  /** The pointers of a store agree with each other: some lists of children make it well formed. */
  ghost predicate Coherent(h: Heap) {
    exists kids :: WellFormed(h, kids)
  }

  /** A node is among its parent's children; without a parent it has no siblings. */
  predicate HasPlace(h: Heap, kids: Kids, p: Ptr)
    requires p in h
  {
    if h[p].parent == NULL then h[p].prev == NULL && h[p].next == NULL
    else h[p].parent in kids && p in kids[h[p].parent]
  }

  lemma {:induction false} UpAdds(h: Heap, p: Ptr, j: nat, k: nat)
    ensures Up(h, p, j + k) == Up(h, Up(h, p, j), k)
    decreases j
  {
    if j > 0 && p in h {
      UpAdds(h, h[p].parent, j - 1, k);
    }
  }

  lemma {:induction false} StaysNull(h: Heap, k: nat)
    requires NULL !in h
    ensures Up(h, NULL, k) == NULL
  {
  }

  lemma {:induction false} LoopStays(h: Heap, p: Ptr, k: nat)
    requires p in h && h[p].parent == p
    ensures Up(h, p, k) == p
  {
    if k > 0 {
      LoopStays(h, p, k - 1);
    }
  }

  /** The list without its element `i`, and with `x` put at position `i`. */
  function Without(l: seq<Ptr>, i: nat): seq<Ptr>
    requires i < |l|
  {
    l[..i] + l[i + 1..]
  }

  function Inserted(l: seq<Ptr>, i: nat, x: Ptr): seq<Ptr>
    requires i <= |l|
  {
    l[..i] + [x] + l[i..]
  }

  /** `h2` is `h` with the lone node `x` linked between `left` and `right` under `parent`. */
  predicate Spliced(h: Heap, h2: Heap, parent: Ptr, left: Ptr, right: Ptr, x: Ptr)
    requires parent in h && x in h && parent != x
  {
    && h2.Keys == h.Keys
    && (forall p :: p in h && p != parent && p != left && p != right && p != x ==> h2[p] == h[p])
    && h2[x] == h[x].(parent := parent, prev := left, next := right)
    && (left != NULL ==> left in h && h2[left] == h[left].(next := x))
    && (right != NULL ==> right in h && h2[right] == h[right].(prev := x))
    && h2[parent] == h[parent].(child := if left == NULL then x else h[parent].child,
                                lastChild := if right == NULL then x else h[parent].lastChild)
  }

  function RightOf(l: seq<Ptr>, i: nat): Ptr
    requires i <= |l|
  {
    if i == |l| then NULL else l[i]
  }

  lemma InsertedAt(l: seq<Ptr>, i: nat, x: Ptr, j: nat)
    requires i <= |l| && j <= |l|
    ensures Inserted(l, i, x)[j] == if j < i then l[j] else if j == i then x else l[j - 1]
  {
  }

  /** The pointers of element `j` after an insertion at `i`. */
  lemma SplicedElement(h: Heap, h2: Heap, parent: Ptr, l: seq<Ptr>, i: nat, x: Ptr, j: nat)
    requires parent in h && x in h && parent != x && NULL !in h
    requires SpellsList(h, parent, l) && i <= |l| && j <= |l| && x !in l && parent !in l
    requires Spliced(h, h2, parent, PrevIn(l, i), RightOf(l, i), x)
    ensures var m := Inserted(l, i, x);
            m[j] in h2 && h2[m[j]].parent == parent && h2[m[j]].prev == PrevIn(m, j) && h2[m[j]].next == NextIn(m, j)
  {
    var m := Inserted(l, i, x);
    hide Inserted;
    InsertedAt(l, i, x, j);
    if j > 0 {
      InsertedAt(l, i, x, j - 1);
    }
    if j < |l| {
      InsertedAt(l, i, x, j + 1);
    }
    assert |m| == |l| + 1 by { InsertedLength(l, i, x); }
    if j < i {
      assert h[l[j]].parent == parent && h[l[j]].prev == PrevIn(l, j) && h[l[j]].next == NextIn(l, j);
    } else if j > i {
      assert h[l[j - 1]].parent == parent && h[l[j - 1]].prev == PrevIn(l, j - 1) && h[l[j - 1]].next == NextIn(l, j - 1);
    }
  }

  lemma InsertedLength(l: seq<Ptr>, i: nat, x: Ptr)
    requires i <= |l|
    ensures |Inserted(l, i, x)| == |l| + 1
    ensures NoDup(l) && x !in l ==> NoDup(Inserted(l, i, x))
    ensures forall y :: y in Inserted(l, i, x) <==> y in l || y == x
  {
    forall y | y in l ensures y in Inserted(l, i, x) {
      var k :| 0 <= k < |l| && l[k] == y;
      InsertedAt(l, i, x, if k < i then k else k + 1);
    }
  }

  /** Linking between neighbours in the pointers is insertion in the list. */
  lemma SplicedList(h: Heap, h2: Heap, parent: Ptr, l: seq<Ptr>, i: nat, x: Ptr)
    requires parent in h && x in h && parent != x && NULL !in h
    requires SpellsList(h, parent, l) && i <= |l| && x !in l && parent !in l
    requires Spliced(h, h2, parent, PrevIn(l, i), RightOf(l, i), x)
    ensures SpellsList(h2, parent, Inserted(l, i, x))
  {
    hide Inserted, Spliced, NoDup;
    var m := Inserted(l, i, x);
    InsertedLength(l, i, x);
    SplicedEnds(h, h2, parent, l, i, x);
    forall j | 0 <= j < |m|
      ensures m[j] in h2 && h2[m[j]].parent == parent
      ensures h2[m[j]].prev == PrevIn(m, j) && h2[m[j]].next == NextIn(m, j)
    {
      SplicedElement(h, h2, parent, l, i, x, j);
    }
  }

  lemma SplicedEnds(h: Heap, h2: Heap, parent: Ptr, l: seq<Ptr>, i: nat, x: Ptr)
    requires parent in h && x in h && parent != x && NULL !in h
    requires SpellsList(h, parent, l) && i <= |l| && x !in l && parent !in l
    requires Spliced(h, h2, parent, PrevIn(l, i), RightOf(l, i), x)
    ensures var m := Inserted(l, i, x);
            && |m| == |l| + 1 && parent in h2
            && h2[parent].child == m[0] && h2[parent].lastChild == m[|l|]
  {
    hide Inserted, SpellsList, NoDup;
    InsertedLength(l, i, x);
    InsertedAt(l, i, x, 0);
    InsertedAt(l, i, x, |l|);
    NoNullInList(h, parent, l);
    ListPointersEnd(h, parent, l);
  }

  lemma ListPointersEnd(h: Heap, p: Ptr, l: seq<Ptr>)
    requires p in h && SpellsList(h, p, l)
    ensures h[p].child == (if l == [] then NULL else l[0])
    ensures h[p].lastChild == (if l == [] then NULL else l[|l| - 1])
  {
  }

  // ---- Everything else stays as it is ----

  /** A list of children none of which is touched. */
  lemma ListKept(h: Heap, h2: Heap, p: Ptr, l: seq<Ptr>)
    requires p in h && p in h2 && SpellsList(h, p, l)
    requires h2[p].child == h[p].child && h2[p].lastChild == h[p].lastChild
    requires forall c :: c in l ==> c in h2 && h2[c].parent == h[c].parent && h2[c].prev == h[c].prev && h2[c].next == h[c].next
    ensures SpellsList(h2, p, l)
  {
    forall i | 0 <= i < |l|
      ensures l[i] in h2 && h2[l[i]].parent == p && h2[l[i]].prev == PrevIn(l, i) && h2[l[i]].next == NextIn(l, i)
    {
      assert l[i] in l;
    }
  }

  lemma ListMember(h: Heap, p: Ptr, l: seq<Ptr>, c: Ptr)
    requires p in h && SpellsList(h, p, l) && c in l
    ensures c in h && h[c].parent == p
  {
  }

  // ---- Ancestors ----

  /** Whether `x` is `p` or an ancestor of it. */
  ghost predicate InSubtree(h: Heap, p: Ptr, x: Ptr) {
    exists k: nat :: Up(h, p, k) == x
  }

  /** Only the parent of `x` differs. */
  predicate Reparented(h: Heap, h2: Heap, x: Ptr, parent: Ptr) {
    && h2.Keys == h.Keys && x in h
    && h2[x].parent == parent
    && forall p :: p in h && p != x ==> h2[p].parent == h[p].parent
  }

  lemma {:induction false} UpUntil(h: Heap, h2: Heap, x: Ptr, parent: Ptr, p: Ptr, n: nat)
    requires Reparented(h, h2, x, parent)
    requires forall k: nat :: k < n ==> Up(h, p, k) != x
    ensures Up(h2, p, n) == Up(h, p, n)
    decreases n
  {
    if n > 0 && p in h {
      assert Up(h, p, 0) == p;
      forall k: nat | k < n - 1 ensures Up(h, h[p].parent, k) != x {
        assert Up(h, p, k + 1) == Up(h, h[p].parent, k);
      }
      UpUntil(h, h2, x, parent, h[p].parent, n - 1);
    }
  }

  /** Under a parent outside its own subtree, a node and everything below it are still rooted. */
  lemma {:induction false} RootedAgain(h: Heap, h2: Heap, x: Ptr, parent: Ptr, p: Ptr, n: nat)
    requires NULL !in h && Reparented(h, h2, x, parent) && Up(h, p, n) == NULL && Rooted(h2, parent)
    ensures Rooted(h2, p)
    decreases n
  {
    if p == x {
      var k: nat :| Up(h2, parent, k) == NULL;
      assert Up(h2, x, k + 1) == NULL;
    } else if n == 0 || p !in h {
      assert Up(h2, p, 0) == NULL;
    } else {
      RootedAgain(h, h2, x, parent, h[p].parent, n - 1);
      var k: nat :| Up(h2, h[p].parent, k) == NULL;
      assert Up(h2, p, k + 1) == NULL;
    }
  }

  lemma AllRooted(h: Heap, h2: Heap, x: Ptr, parent: Ptr)
    requires NULL !in h && Reparented(h, h2, x, parent) && !InSubtree(h, parent, x)
    requires (forall p :: p in h ==> Rooted(h, p)) && (parent == NULL || parent in h)
    ensures forall p :: p in h2 ==> Rooted(h2, p)
  {
    var n: nat := 0;
    if parent != NULL {
      n :| Up(h, parent, n) == NULL;
    }
    UpUntil(h, h2, x, parent, parent, n);
    assert Rooted(h2, parent);
    forall p | p in h2 ensures Rooted(h2, p) {
      var k: nat :| Up(h, p, k) == NULL;
      RootedAgain(h, h2, x, parent, p, k);
    }
  }

  /** The least number of steps from `p` up to `x`. */
  lemma FirstMeeting(h: Heap, p: Ptr, x: Ptr, k: nat) returns (m: nat)
    requires Up(h, p, k) == x
    ensures m <= k && Up(h, p, m) == x && forall j: nat :: j < m ==> Up(h, p, j) != x
  {
    m := 0;
    while Up(h, p, m) != x
      invariant m <= k && forall j: nat :: j < m ==> Up(h, p, j) != x
      decreases k - m
    {
      m := m + 1;
    }
  }

  /** Under a parent inside its own subtree, a node is on a cycle. */
  lemma {:induction false} CycleNeverEnds(h: Heap, parent: Ptr, m: nat, n: nat)
    requires NULL !in h && Up(h, parent, m + 1) == parent && parent in h
    requires forall j: nat :: j <= m ==> Up(h, parent, j) in h
    ensures Up(h, parent, n) != NULL
    decreases n
  {
    if n > m {
      UpAdds(h, parent, m + 1, n - m - 1);
      CycleNeverEnds(h, parent, m, n - m - 1);
    }
  }

  lemma {:induction false} UpInHeap(h: Heap, p: Ptr, j: nat, m: nat, x: Ptr)
    requires j <= m && Up(h, p, m) == x && x in h && NULL !in h
    ensures Up(h, p, j) in h
    decreases j
  {
    UpAdds(h, p, j, m - j);
  }

  lemma NotRootedInOwnSubtree(h: Heap, h2: Heap, x: Ptr, parent: Ptr)
    requires NULL !in h && Reparented(h, h2, x, parent) && InSubtree(h, parent, x) && parent in h
    ensures !Rooted(h2, parent)
  {
    var k: nat :| Up(h, parent, k) == x;
    var m := FirstMeeting(h, parent, x, k);
    UpUntil(h, h2, x, parent, parent, m);
    UpAdds(h2, parent, m, 1);
    assert Up(h2, x, 1) == Up(h2, h2[x].parent, 0) == parent;
    forall j: nat | j <= m ensures Up(h2, parent, j) in h2 {
      UpInHeap(h2, parent, j, m, x);
    }
    forall n: nat ensures Up(h2, parent, n) != NULL {
      CycleNeverEnds(h2, parent, m, n);
    }
  }

  lemma NotOwnParent(h: Heap, p: Ptr)
    requires p in h && NULL !in h && Rooted(h, p)
    ensures h[p].parent != p
  {
    if h[p].parent == p {
      var k: nat :| Up(h, p, k) == NULL;
      LoopStays(h, p, k);
    }
  }

  // ---- Well-formedness of the whole store ----

  /** A lone node `x` is being linked at position `i` of the children `l` of `parent`. */
  predicate Linking(h: Heap, h2: Heap, parent: Ptr, l: seq<Ptr>, i: nat, x: Ptr) {
    && NULL !in h && parent in h && x in h && parent != x && h[x].parent == NULL
    && SpellsList(h, parent, l) && i <= |l|
    && Spliced(h, h2, parent, PrevIn(l, i), RightOf(l, i), x)
  }

  /** Whatever is linked, a node that is neither `x` nor one of `parent`'s children keeps its place. */
  lemma LinkingElsewhere(h: Heap, h2: Heap, parent: Ptr, l: seq<Ptr>, i: nat, x: Ptr, c: Ptr)
    requires Linking(h, h2, parent, l, i, x) && c in h && c != x
    ensures c in h2 && h2[c].parent == h[c].parent && h2[c].v == h[c].v
    ensures h[c].parent != parent ==> h2[c].prev == h[c].prev && h2[c].next == h[c].next
    ensures c != parent ==> h2[c].child == h[c].child && h2[c].lastChild == h[c].lastChild
  {
    if i > 0 {
      assert h[l[i - 1]].parent == parent;
    }
    if i < |l| {
      assert h[l[i]].parent == parent;
    }
  }

  lemma LinkingList(h: Heap, h2: Heap, parent: Ptr, l: seq<Ptr>, i: nat, x: Ptr, p: Ptr, m: seq<Ptr>)
    requires Linking(h, h2, parent, l, i, x) && p in h && p != parent && SpellsList(h, p, m)
    ensures p in h2 && SpellsList(h2, p, m)
  {
    hide Linking;
    assert x in h && h2.Keys == h.Keys && h2[x].child == h[x].child && h2[x].lastChild == h[x].lastChild
        && h[x].parent == NULL && NULL !in h by {
      LinkedNode(h, h2, parent, l, i, x);
    }
    if p != x {
      LinkingElsewhere(h, h2, parent, l, i, x, p);
    }
    forall c | c in m
      ensures c in h2 && h2[c].parent == h[c].parent && h2[c].prev == h[c].prev && h2[c].next == h[c].next
    {
      ListMember(h, p, m, c);
      LinkingElsewhere(h, h2, parent, l, i, x, c);
    }
    ListKept(h, h2, p, m);
  }

  lemma LinkedNode(h: Heap, h2: Heap, parent: Ptr, l: seq<Ptr>, i: nat, x: Ptr)
    requires Linking(h, h2, parent, l, i, x)
    ensures x in h && h2.Keys == h.Keys && h2[x].child == h[x].child && h2[x].lastChild == h[x].lastChild
    ensures h[x].parent == NULL && NULL !in h && h2[x].parent == parent && h2[x].v == h[x].v
    ensures Reparented(h, h2, x, parent)
  {
    forall p | p in h && p != x ensures h2[p].parent == h[p].parent {
      LinkingElsewhere(h, h2, parent, l, i, x, p);
    }
  }

  lemma LinkingPlace(h: Heap, h2: Heap, kids: Kids, parent: Ptr, i: nat, x: Ptr, p: Ptr)
    requires parent in kids && Linking(h, h2, parent, kids[parent], i, x)
    requires p in h && HasPlace(h, kids, p)
    ensures p in h2 && HasPlace(h2, kids[parent := Inserted(kids[parent], i, x)], p)
  {
    hide Linking, Inserted, SpellsList;
    LinkedNode(h, h2, parent, kids[parent], i, x);
    LinkingBounds(h, h2, parent, kids[parent], i, x);
    InsertedLength(kids[parent], i, x);
    if p != x {
      LinkingElsewhere(h, h2, parent, kids[parent], i, x, p);
    }
  }

  lemma LinkingBounds(h: Heap, h2: Heap, parent: Ptr, l: seq<Ptr>, i: nat, x: Ptr)
    requires Linking(h, h2, parent, l, i, x)
    ensures i <= |l| && parent != NULL && parent in h && x !in l
  {
    if x in l {
      ListMember(h, parent, l, x);
    }
  }

  /** Linking a lone node in keeps the store well formed exactly when the new parent is not in the
      node's own subtree. */
  lemma LinkingWellFormed(h: Heap, kids: Kids, h2: Heap, parent: Ptr, i: nat, x: Ptr)
    requires WellFormed(h, kids) && parent in h && Linking(h, h2, parent, kids[parent], i, x)
    ensures WellFormed(h2, kids[parent := Inserted(kids[parent], i, x)]) <==> !InSubtree(h, parent, x)
    ensures Coherent(h2) <==> !InSubtree(h, parent, x)
  {
    hide Linking, Inserted, SpellsList, HasPlace, Rooted, InSubtree;
    LinkedNode(h, h2, parent, kids[parent], i, x);
    LinkingBounds(h, h2, parent, kids[parent], i, x);
    var kids2 := kids[parent := Inserted(kids[parent], i, x)];
    if InSubtree(h, parent, x) {
      NotRootedInOwnSubtree(h, h2, x, parent);
      forall k ensures !WellFormed(h2, k) {
      }
    } else {
      forall p | p in h2 ensures SpellsList(h2, p, kids2[p]) && HasPlace(h2, kids2, p) {
        LinkingPlace(h, h2, kids, parent, i, x, p);
        if p == parent {
          NotOwnChild(h, parent, kids[parent]);
          LinkingOwnList(h, h2, parent, kids[parent], i, x);
        } else {
          LinkingList(h, h2, parent, kids[parent], i, x, p, kids[p]);
        }
      }
      AllRooted(h, h2, x, parent);
    }
  }

  lemma NotOwnChild(h: Heap, p: Ptr, l: seq<Ptr>)
    requires p in h && NULL !in h && Rooted(h, p) && SpellsList(h, p, l)
    ensures p !in l
  {
    if p in l {
      ListMember(h, p, l, p);
      NotOwnParent(h, p);
    }
  }

  lemma LinkingOwnList(h: Heap, h2: Heap, parent: Ptr, l: seq<Ptr>, i: nat, x: Ptr)
    requires Linking(h, h2, parent, l, i, x) && parent !in l
    ensures parent in h2 && SpellsList(h2, parent, Inserted(l, i, x))
  {
    LinkingBounds(h, h2, parent, l, i, x);
    SplicedList(h, h2, parent, l, i, x);
  }

  // ---- Taking a node out ----

  /** The node `x` is taken out of position `i` of the children `l` of its parent. */
  predicate Unlinking(h: Heap, h2: Heap, parent: Ptr, l: seq<Ptr>, i: nat, x: Ptr) {
    && NULL !in h && parent in h && x in h && parent != x && h[x].parent == parent
    && SpellsList(h, parent, l) && i < |l| && l[i] == x && parent !in l
    && h2.Keys == h.Keys
    && var left, right := PrevIn(l, i), NextIn(l, i);
       && (forall p :: p in h && p != parent && p != left && p != right && p != x ==> h2[p] == h[p])
       && h2[x] == h[x].(parent := NULL, prev := NULL, next := NULL)
       && (left != NULL ==> left in h && h2[left] == h[left].(next := right))
       && (right != NULL ==> right in h && h2[right] == h[right].(prev := left))
       && h2[parent] == h[parent].(child := if left == NULL then right else h[parent].child,
                                   lastChild := if right == NULL then left else h[parent].lastChild)
  }

  lemma WithoutAt(l: seq<Ptr>, i: nat, j: nat)
    requires i < |l| && j < |l| - 1
    ensures |Without(l, i)| == |l| - 1 && Without(l, i)[j] == if j < i then l[j] else l[j + 1]
  {
  }

  lemma WithoutMembers(l: seq<Ptr>, i: nat)
    requires i < |l| && NoDup(l)
    ensures NoDup(Without(l, i)) && forall y :: y in Without(l, i) <==> y in l && y != l[i]
  {
    forall y | y in l && y != l[i] ensures y in Without(l, i) {
      var k :| 0 <= k < |l| && l[k] == y;
      WithoutAt(l, i, if k < i then k else k - 1);
    }
  }

  /** The neighbours are different nodes, children of the same parent. */
  lemma UnlinkingNeighbours(h: Heap, h2: Heap, parent: Ptr, l: seq<Ptr>, i: nat, x: Ptr)
    requires Unlinking(h, h2, parent, l, i, x)
    ensures i > 0 ==> l[i - 1] in h && h[l[i - 1]].parent == parent && l[i - 1] != x
    ensures i + 1 < |l| ==> l[i + 1] in h && h[l[i + 1]].parent == parent && l[i + 1] != x
    ensures 0 < i && i + 1 < |l| ==> l[i - 1] != l[i + 1]
    ensures h[x].prev == PrevIn(l, i) && h[x].next == NextIn(l, i)
  {
  }

  lemma UnlinkingElsewhere(h: Heap, h2: Heap, parent: Ptr, l: seq<Ptr>, i: nat, x: Ptr, c: Ptr)
    requires Unlinking(h, h2, parent, l, i, x) && c in h && c != x
    ensures c in h2 && h2[c].parent == h[c].parent && h2[c].v == h[c].v
    ensures h[c].parent != parent ==> h2[c].prev == h[c].prev && h2[c].next == h[c].next
    ensures c != parent ==> h2[c].child == h[c].child && h2[c].lastChild == h[c].lastChild
  {
    hide SpellsList;
    UnlinkingNeighbours(h, h2, parent, l, i, x);
  }

  lemma UnlinkingList(h: Heap, h2: Heap, parent: Ptr, l: seq<Ptr>, i: nat, x: Ptr, p: Ptr, m: seq<Ptr>)
    requires Unlinking(h, h2, parent, l, i, x) && p in h && p != parent && SpellsList(h, p, m)
    ensures p in h2 && SpellsList(h2, p, m)
  {
    if p != x {
      UnlinkingElsewhere(h, h2, parent, l, i, x, p);
    }
    hide Unlinking;
    forall c | c in m
      ensures c in h2 && h2[c].parent == h[c].parent && h2[c].prev == h[c].prev && h2[c].next == h[c].next
    {
      ListMember(h, p, m, c);
      UnlinkingElsewhere(h, h2, parent, l, i, x, c);
    }
    ListKept(h, h2, p, m);
  }

  /** The pointers of a former sibling. */
  lemma UnlinkedSibling(h: Heap, h2: Heap, parent: Ptr, l: seq<Ptr>, i: nat, x: Ptr, k: nat)
    requires Unlinking(h, h2, parent, l, i, x) && k < |l| && k != i
    ensures l[k] in h2 && h2[l[k]].parent == parent
    ensures h2[l[k]].prev == if k == i + 1 then PrevIn(l, i) else PrevIn(l, k)
    ensures h2[l[k]].next == if k + 1 == i then NextIn(l, i) else NextIn(l, k)
  {
    assert l[k] != l[i];
    if i > 0 && k != i - 1 {
      assert l[k] != l[i - 1];
    }
    if i + 1 < |l| && k != i + 1 {
      assert l[k] != l[i + 1];
    }
    UnlinkingNeighbours(h, h2, parent, l, i, x);
    assert h[l[k]].parent == parent && h[l[k]].prev == PrevIn(l, k) && h[l[k]].next == NextIn(l, k);
    hide SpellsList, NoDup;
  }

  lemma UnlinkingPosition(h: Heap, h2: Heap, parent: Ptr, l: seq<Ptr>, i: nat, x: Ptr)
    requires Unlinking(h, h2, parent, l, i, x)
    ensures i < |l|
  {
  }

  lemma UnlinkedElement(h: Heap, h2: Heap, parent: Ptr, l: seq<Ptr>, i: nat, x: Ptr, j: nat)
    requires Unlinking(h, h2, parent, l, i, x) && j < |l| - 1
    ensures i < |l|
    ensures var m := Without(l, i);
            |m| == |l| - 1 && m[j] in h2 && h2[m[j]].parent == parent
            && h2[m[j]].prev == PrevIn(m, j) && h2[m[j]].next == NextIn(m, j)
  {
    hide Unlinking, Without;
    UnlinkingPosition(h, h2, parent, l, i, x);
    UnlinkedSibling(h, h2, parent, l, i, x, if j < i then j else j + 1);
    WithoutAt(l, i, j);
    if j > 0 {
      WithoutAt(l, i, j - 1);
    }
    if j + 1 < |l| - 1 {
      WithoutAt(l, i, j + 1);
    }
  }

  lemma UnlinkedOwnList(h: Heap, h2: Heap, parent: Ptr, l: seq<Ptr>, i: nat, x: Ptr)
    requires Unlinking(h, h2, parent, l, i, x)
    ensures parent in h2 && SpellsList(h2, parent, Without(l, i))
  {
    var m := Without(l, i);
    WithoutMembers(l, i);
    forall j | 0 <= j < |m|
      ensures m[j] in h2 && h2[m[j]].parent == parent
      ensures h2[m[j]].prev == PrevIn(m, j) && h2[m[j]].next == NextIn(m, j)
    {
      UnlinkedElement(h, h2, parent, l, i, x, j);
    }
    UnlinkedEnds(h, h2, parent, l, i, x);
    hide Unlinking, Without;
  }

  lemma UnlinkedEnds(h: Heap, h2: Heap, parent: Ptr, l: seq<Ptr>, i: nat, x: Ptr)
    requires Unlinking(h, h2, parent, l, i, x)
    ensures var m := Without(l, i);
            && parent in h2 && h2[parent].child == (if m == [] then NULL else m[0])
            && h2[parent].lastChild == (if m == [] then NULL else m[|m| - 1])
  {
    hide Unlinking, SpellsList, NoDup, Without;
    UnlinkedParent(h, h2, parent, l, i, x);
    if |l| > 1 {
      WithoutAt(l, i, 0);
      WithoutAt(l, i, |l| - 2);
    } else {
      assert Without(l, i) == [] by { WithoutLone(l); }
    }
  }

  lemma WithoutLone(l: seq<Ptr>)
    requires |l| == 1
    ensures Without(l, 0) == []
  {
  }

  lemma UnlinkedParent(h: Heap, h2: Heap, parent: Ptr, l: seq<Ptr>, i: nat, x: Ptr)
    requires Unlinking(h, h2, parent, l, i, x)
    ensures i < |l| && NULL !in l && parent in h2
    ensures h2[parent].child == if i == 0 then NextIn(l, 0) else l[0]
    ensures h2[parent].lastChild == if i + 1 == |l| then PrevIn(l, i) else l[|l| - 1]
  {
    forall k | 0 <= k < |l| ensures l[k] != NULL {
      assert l[k] in h;
    }
  }

  lemma UnlinkingPlace(h: Heap, h2: Heap, kids: Kids, parent: Ptr, i: nat, x: Ptr, p: Ptr)
    requires parent in kids && Unlinking(h, h2, parent, kids[parent], i, x)
    requires p in h && HasPlace(h, kids, p)
    ensures p in h2 && HasPlace(h2, kids[parent := Without(kids[parent], i)], p)
  {
    var l := kids[parent];
    WithoutMembers(l, i);
    if p != x {
      UnlinkingElsewhere(h, h2, parent, l, i, x, p);
      hide Unlinking, Without;
    }
  }

  lemma UnlinkedNode(h: Heap, h2: Heap, parent: Ptr, l: seq<Ptr>, i: nat, x: Ptr)
    requires Unlinking(h, h2, parent, l, i, x)
    ensures Reparented(h, h2, x, NULL) && i < |l| && h2.Keys == h.Keys && x in h && NULL !in h
  {
    forall p | p in h && p != x ensures h2[p].parent == h[p].parent {
      UnlinkingElsewhere(h, h2, parent, l, i, x, p);
    }
  }

  /** Taking a node out keeps the store well formed. */
  lemma UnlinkingWellFormed(h: Heap, kids: Kids, h2: Heap, parent: Ptr, i: nat, x: Ptr)
    requires WellFormed(h, kids) && parent in h && Unlinking(h, h2, parent, kids[parent], i, x)
    ensures WellFormed(h2, kids[parent := Without(kids[parent], i)])
  {
    hide SpellsList, HasPlace, Rooted, InSubtree, Unlinking, Without, Reparented;
    var l := kids[parent];
    UnlinkedNode(h, h2, parent, l, i, x);
    var kids2 := kids[parent := Without(l, i)];
    forall p | p in h2 ensures SpellsList(h2, p, kids2[p]) && HasPlace(h2, kids2, p) {
      UnlinkingPlace(h, h2, kids, parent, i, x, p);
      if p == parent {
        UnlinkedOwnList(h, h2, parent, l, i, x);
      } else {
        UnlinkingList(h, h2, parent, l, i, x, p, kids[p]);
      }
    }
    NullNotIn(h, x);
    AllRooted(h, h2, x, NULL);
  }

  lemma NullNotIn(h: Heap, x: Ptr)
    requires NULL !in h && x in h
    ensures !InSubtree(h, NULL, x)
  {
    forall k: nat ensures Up(h, NULL, k) != x {
      StaysNull(h, k);
    }
  }

  // ---- The operations ----

  /** The position of a node in a list of children; the list's length if it is not there. */
  function IndexOf(l: seq<Ptr>, x: Ptr): (i: nat)
    ensures i <= |l| && (i < |l| ==> l[i] == x) && (x in l ==> i < |l|)
  {
    if l == [] || l[0] == x then 0 else IndexOf(l[1..], x) + 1
  }

  /** The lists of children after mxmlRemove. */
  function KidsRemoved(h: Heap, kids: Kids, x: Ptr): Kids {
    if x !in h || h[x].parent !in kids then kids
    else
      var l := kids[h[x].parent];
      if x in l then kids[h[x].parent := Without(l, IndexOf(l, x))] else kids
  }

  /** Where mxmlAdd puts a node among its siblings: next to the reference child if that is one of them,
      else first or last. */
  function PositionFor(l: seq<Ptr>, after: bool, child: Ptr): (i: nat)
    ensures i <= |l|
  {
    if child in l then IndexOf(l, child) + (if after then 1 else 0)
    else if after then |l| else 0
  }

  /** The lists of children after mxmlAdd. */
  function KidsAdded(h: Heap, kids: Kids, parent: Ptr, after: bool, child: Ptr, x: Ptr): Kids
    requires parent in kids
  {
    var removed := KidsRemoved(h, kids, x);
    var l := removed[parent];
    removed[parent := Inserted(l, PositionFor(l, after, child), x)]
  }

  /** A list of children without one node. */
  function Others(l: seq<Ptr>, x: Ptr): seq<Ptr> {
    if l == [] then [] else (if l[0] == x then [] else [l[0]]) + Others(l[1..], x)
  }

  /** `l` is the list `others` with `x` in the place asked for: behind or before the reference child if that is on the
      list, and otherwise last or first. */
  ghost predicate StandsAt(others: seq<Ptr>, l: seq<Ptr>, after: bool, child: Ptr, x: Ptr) {
    exists i :: IsPlace(others, l, after, child, x, i)
  }

  predicate IsPlace(others: seq<Ptr>, l: seq<Ptr>, after: bool, child: Ptr, x: Ptr, i: nat) {
    && i < |l| && l[i] == x && l[..i] + l[i + 1..] == others
    && if child in others then (if after then i > 0 && l[i - 1] == child else i + 1 < |l| && l[i + 1] == child)
       else (if after then i + 1 == |l| else i == 0)
  }

  lemma {:induction false} OthersAll(l: seq<Ptr>, x: Ptr)
    requires x !in l
    ensures Others(l, x) == l
  {
    if l != [] {
      OthersAll(l[1..], x);
    }
  }

  lemma {:induction false} OthersWithout(l: seq<Ptr>, x: Ptr)
    requires NoDup(l) && x in l
    ensures Others(l, x) == Without(l, IndexOf(l, x))
  {
    if l[0] == x {
      OthersAll(l[1..], x);
    } else {
      OthersWithout(l[1..], x);
    }
  }

  /** Taking a node out takes it out of every list of children. */
  lemma RemovedLists(h: Heap, kids: Kids, x: Ptr)
    requires WellFormed(h, kids) && x in h
    ensures KidsRemoved(h, kids, x).Keys == kids.Keys
    ensures forall p :: p in kids ==> KidsRemoved(h, kids, x)[p] == Others(kids[p], x)
  {
    hide Rooted, IndexOf, Without, Others;
    var removed := KidsRemoved(h, kids, x);
    forall p | p in kids ensures removed[p] == Others(kids[p], x) {
      assert SpellsList(h, p, kids[p]);
      if x in kids[p] {
        OthersWithout(kids[p], x);
        assert h[x].parent == p;
      } else {
        OthersAll(kids[p], x);
        assert HasPlace(h, kids, x);
      }
    }
  }

  lemma InsertedPlace(l: seq<Ptr>, after: bool, child: Ptr, x: Ptr)
    ensures StandsAt(l, Inserted(l, PositionFor(l, after, child), x), after, child, x)
  {
    var i := PositionFor(l, after, child);
    var l' := Inserted(l, i, x);
    assert l'[..i] == l[..i] && l'[i + 1..] == l[i..];
    if child in l {
      var k := IndexOf(l, child);
      assert l[k] == child && i == (if after then k + 1 else k);
      assert l'[if after then i - 1 else i + 1] == child;
    }
    assert IsPlace(l, l', after, child, x, i);
  }

  /** Adding a node puts it into the list of its new parent and takes it out of every other. */
  lemma AddedLists(h: Heap, kids: Kids, parent: Ptr, after: bool, child: Ptr, x: Ptr)
    requires WellFormed(h, kids) && parent in h && x in h
    ensures var added := KidsAdded(h, kids, parent, after, child, x);
            && added.Keys == kids.Keys
            && (forall p :: p in kids && p != parent ==> added[p] == Others(kids[p], x))
            && StandsAt(Others(kids[parent], x), added[parent], after, child, x)
  {
    hide Rooted, SpellsList, HasPlace, KidsRemoved, Others, StandsAt, Inserted, PositionFor;
    RemovedLists(h, kids, x);
    InsertedPlace(KidsRemoved(h, kids, x)[parent], after, child, x);
  }

  /** The values and reference counts of two stores agree. */
  predicate SameContents(h: Heap, h2: Heap) {
    h2.Keys == h.Keys && forall p :: p in h ==> h2[p].v == h[p].v && h2[p].refCount == h[p].refCount
  }

  /** A pointer that is null or points to a node. */
  predicate IsPtr(h: Heap, p: Ptr) {
    p == NULL || p in h
  }

  /** What is known about a node before it is taken out. */
  lemma ParentsList(h: Heap, kids: Kids, x: Ptr)
    requires WellFormed(h, kids) && x in h && h[x].parent != NULL
    ensures var parent := h[x].parent;
            && parent in h && parent in kids && x in kids[parent] && parent != x && parent !in kids[parent]
            && SpellsList(h, parent, kids[parent])
            && var i := IndexOf(kids[parent], x);
               i < |kids[parent]| && h[x].prev == PrevIn(kids[parent], i) && h[x].next == NextIn(kids[parent], i)
  {
    hide SpellsList, Rooted, IndexOf;
    assert HasPlace(h, kids, x);
    var parent := h[x].parent;
    var l := kids[parent];
    assert SpellsList(h, parent, l);
    NotOwnParent(h, x);
    NotOwnChild(h, parent, l);
    assert h[x].prev == PrevIn(l, IndexOf(l, x)) && h[x].next == NextIn(l, IndexOf(l, x)) by {
      ListPointers(h, parent, l, IndexOf(l, x));
    }
  }

  lemma ListPointers(h: Heap, p: Ptr, l: seq<Ptr>, i: nat)
    requires p in h && SpellsList(h, p, l) && i < |l|
    ensures l[i] in h && h[l[i]].parent == p && h[l[i]].prev == PrevIn(l, i) && h[l[i]].next == NextIn(l, i)
    ensures i > 0 ==> l[i - 1] in h
    ensures i + 1 < |l| ==> l[i + 1] in h
  {
  }

  /** The nodes of a document, as the program changes them. */
  class Store {
    var heap: Heap
    ghost var kids: Kids

    ghost predicate Valid()
      reads this
    {
      WellFormed(heap, kids)
    }

    constructor ()
      ensures Valid() && heap == map[] && kids == map[]
    {
      heap, kids := map[], map[];
    }

    /** Only the pointer part of `p` changes. */
    method Update(p: Ptr, node: Node)
      requires p in heap
      modifies this`heap
      ensures heap == old(heap)[p := node]
    {
      heap := heap[p := node];
    }

    /** `mxmlRemove` */
    method Remove(x: Ptr)
      requires Valid() && IsPtr(heap, x)
      modifies this
      ensures Valid() && kids == KidsRemoved(old(heap), old(kids), x) && SameContents(old(heap), heap)
      ensures x != NULL ==> heap[x].parent == NULL && heap[x].child == old(heap)[x].child
      ensures forall p :: p in heap && p != x ==> heap[p].parent == old(heap)[p].parent
      ensures x == NULL || old(heap)[x].parent == NULL ==> heap == old(heap)
      ensures x != NULL ==> kids.Keys == old(kids).Keys && forall p :: p in kids ==> kids[p] == Others(old(kids)[p], x)
    {
      hide SpellsList, HasPlace, Rooted, IndexOf, Without, SameContents, Others;
      if x != NULL {
        RemovedLists(heap, kids, x);
      }
      if x == NULL || heap[x].parent == NULL {
        assert SameContents(heap, heap) by { SameItself(heap); }
        return;
      }
      ParentsList(heap, kids, x);
      ghost var parent := heap[x].parent;
      ghost var l := kids[parent];
      ghost var i := IndexOf(l, x);
      ListPointers(heap, parent, l, i);
      Unlink(x);
      Unlinked(old(heap), heap, parent, l, i, x);
      UnlinkingWellFormed(old(heap), kids, heap, parent, i, x);
      kids := kids[parent := Without(l, i)];
    }

    /** The pointer assignments of mxmlRemove. */
    method Unlink(x: Ptr)
      requires x in heap && heap[x].parent in heap && heap[x].parent != x
      requires IsPtr(heap, heap[x].prev) && IsPtr(heap, heap[x].next)
      requires NULL !in heap
      modifies this`heap
      ensures var h, node := old(heap), old(heap)[x];
              heap == UnlinkedHeap(h, node.parent, node.prev, node.next, x)
    {
      var node := heap[x];
      if node.prev != NULL {
        Update(node.prev, heap[node.prev].(next := node.next));
      } else {
        Update(node.parent, heap[node.parent].(child := node.next));
      }
      if node.next != NULL {
        Update(node.next, heap[node.next].(prev := node.prev));
      } else {
        Update(node.parent, heap[node.parent].(lastChild := node.prev));
      }
      Update(x, heap[x].(parent := NULL));
      Update(x, heap[x].(prev := NULL));
      Update(x, heap[x].(next := NULL));
    }

    /** `mxmlAdd`. The result is well formed exactly when the reference child is not the node itself and
        the new parent is not in the node's own subtree. */
    method Add(parent: Ptr, after: bool, child: Ptr, x: Ptr)
      requires Valid() && IsPtr(heap, parent) && IsPtr(heap, child) && IsPtr(heap, x)
      modifies this
      ensures parent == NULL || x == NULL ==> heap == old(heap) && kids == old(kids)
      ensures parent != NULL && x != NULL ==>
                && kids == KidsAdded(old(heap), old(kids), parent, after, child, x)
                && SameContents(old(heap), heap)
                && (Coherent(heap) <==> child != x && !InSubtree(old(heap), parent, x))
                && (Coherent(heap) <==> Valid())
                && (forall p :: p in old(kids) && p != parent ==> kids[p] == Others(old(kids)[p], x))
                && StandsAt(Others(old(kids)[parent], x), kids[parent], after, child, x)
    {
      hide SpellsList, HasPlace, Rooted, IndexOf, Without, SameContents, Inserted, InSubtree, AttachedHeap,
           KidsRemoved, PositionFor, WellFormed, Coherent, StandsAt, Others;
      if parent == NULL || x == NULL {
        return;
      }
      AddedLists(heap, kids, parent, after, child, x);
      ghost var start := heap;
      if heap[x].parent != NULL {
        Remove(x);
      } else {
        LoneIsRemoved(heap, kids, x);
      }
      ghost var h := heap;
      SameKeys(start, h);
      SameDomain(h, kids);
      RemovedSubtree(start, h, kids, parent, x);
      AttachRequires(h, kids, parent, child);
      Attach(parent, after, child, x);
      AttachedContents(h, parent, after, child, x);
      SameTransitive(start, h, heap);
      AttachedWellFormed(h, kids, parent, after, child, x);
      ghost var l := kids[parent];
      kids := kids[parent := Inserted(l, PositionFor(l, after, child), x)];
    }

    /** The pointer assignments of mxmlAdd once the node is on its own. */
    method Attach(parent: Ptr, after: bool, child: Ptr, x: Ptr)
      requires x in heap && parent in heap && IsPtr(heap, child) && NULL !in heap
      requires IsPtr(heap, heap[parent].child) && IsPtr(heap, heap[parent].lastChild)
      requires child != NULL ==> IsPtr(heap, heap[child].prev) && IsPtr(heap, heap[child].next)
      modifies this`heap
      ensures heap == AttachedHeap(old(heap), parent, after, child, x)
    {
      hide AsFirst, AsLast, BeforeChild, AfterChild;
      Update(x, heap[x].(parent := parent));
      if !after {
        if child == NULL || child == heap[parent].child || heap[child].parent != parent {
          AttachFirst(parent, x);
        } else {
          AttachBefore(parent, child, x);
        }
      } else {
        if child == NULL || child == heap[parent].lastChild || heap[child].parent != parent {
          AttachLast(parent, x);
        } else {
          AttachAfter(parent, child, x);
        }
      }
    }

    method AttachFirst(parent: Ptr, x: Ptr)
      requires x in heap && parent in heap && IsPtr(heap, heap[parent].child) && NULL !in heap
      modifies this`heap
      ensures heap == AsFirst(old(heap), parent, x)
    {
      Update(x, heap[x].(next := heap[parent].child));
      if heap[parent].child != NULL {
        Update(heap[parent].child, heap[heap[parent].child].(prev := x));
      } else {
        Update(parent, heap[parent].(lastChild := x));
      }
      Update(parent, heap[parent].(child := x));
    }

    method AttachBefore(parent: Ptr, child: Ptr, x: Ptr)
      requires x in heap && parent in heap && child in heap && IsPtr(heap, heap[child].prev) && NULL !in heap
      modifies this`heap
      ensures heap == BeforeChild(old(heap), parent, child, x)
    {
      Update(x, heap[x].(next := child));
      Update(x, heap[x].(prev := heap[child].prev));
      if heap[child].prev != NULL {
        Update(heap[child].prev, heap[heap[child].prev].(next := x));
      } else {
        Update(parent, heap[parent].(child := x));
      }
      Update(child, heap[child].(prev := x));
    }

    method AttachLast(parent: Ptr, x: Ptr)
      requires x in heap && parent in heap && IsPtr(heap, heap[parent].lastChild) && NULL !in heap
      modifies this`heap
      ensures heap == AsLast(old(heap), parent, x)
    {
      Update(x, heap[x].(parent := parent));
      Update(x, heap[x].(prev := heap[parent].lastChild));
      if heap[parent].lastChild != NULL {
        Update(heap[parent].lastChild, heap[heap[parent].lastChild].(next := x));
      } else {
        Update(parent, heap[parent].(child := x));
      }
      Update(parent, heap[parent].(lastChild := x));
    }

    method AttachAfter(parent: Ptr, child: Ptr, x: Ptr)
      requires x in heap && parent in heap && child in heap && IsPtr(heap, heap[child].next) && NULL !in heap
      modifies this`heap
      ensures heap == AfterChild(old(heap), parent, child, x)
    {
      Update(x, heap[x].(prev := child));
      Update(x, heap[x].(next := heap[child].next));
      if heap[child].next != NULL {
        Update(heap[child].next, heap[heap[child].next].(prev := x));
      } else {
        Update(parent, heap[parent].(lastChild := x));
      }
      Update(child, heap[child].(next := x));
    }
  }

  // The stores that the assignments of mxmlAdd leave, branch by branch.

  function AsFirst(h: Heap, parent: Ptr, x: Ptr): (r: Heap)
    requires x in h && parent in h && IsPtr(h, h[parent].child) && NULL !in h
    ensures SameContents(h, r)
  {
    var h1 := h[x := h[x].(next := h[parent].child)];
    var first := h1[parent].child;
    var h2 := if first != NULL then h1[first := h1[first].(prev := x)]
              else h1[parent := h1[parent].(lastChild := x)];
    h2[parent := h2[parent].(child := x)]
  }

  function BeforeChild(h: Heap, parent: Ptr, child: Ptr, x: Ptr): (r: Heap)
    requires x in h && parent in h && child in h && IsPtr(h, h[child].prev) && NULL !in h
    ensures SameContents(h, r)
  {
    var h1 := h[x := h[x].(next := child)];
    var h2 := h1[x := h1[x].(prev := h1[child].prev)];
    var before := h2[child].prev;
    var h3 := if before != NULL then h2[before := h2[before].(next := x)]
              else h2[parent := h2[parent].(child := x)];
    h3[child := h3[child].(prev := x)]
  }

  function AsLast(h: Heap, parent: Ptr, x: Ptr): (r: Heap)
    requires x in h && parent in h && IsPtr(h, h[parent].lastChild) && NULL !in h
    ensures SameContents(h, r)
  {
    var h0 := h[x := h[x].(parent := parent)];
    var h1 := h0[x := h0[x].(prev := h0[parent].lastChild)];
    var last := h1[parent].lastChild;
    var h2 := if last != NULL then h1[last := h1[last].(next := x)]
              else h1[parent := h1[parent].(child := x)];
    h2[parent := h2[parent].(lastChild := x)]
  }

  function AfterChild(h: Heap, parent: Ptr, child: Ptr, x: Ptr): (r: Heap)
    requires x in h && parent in h && child in h && IsPtr(h, h[child].next) && NULL !in h
    ensures SameContents(h, r)
  {
    var h1 := h[x := h[x].(prev := child)];
    var h2 := h1[x := h1[x].(next := h1[child].next)];
    var behind := h2[child].next;
    var h3 := if behind != NULL then h2[behind := h2[behind].(prev := x)]
              else h2[parent := h2[parent].(lastChild := x)];
    h3[child := h3[child].(next := x)]
  }

  /** The store that the assignments of mxmlAdd leave. */
  function AttachedHeap(h: Heap, parent: Ptr, after: bool, child: Ptr, x: Ptr): Heap
    requires x in h && parent in h && IsPtr(h, child) && NULL !in h
    requires IsPtr(h, h[parent].child) && IsPtr(h, h[parent].lastChild)
    requires child != NULL ==> IsPtr(h, h[child].prev) && IsPtr(h, h[child].next)
  {
    var h1 := h[x := h[x].(parent := parent)];
    if !after then
      if child == NULL || child == h1[parent].child || h1[child].parent != parent then AsFirst(h1, parent, x)
      else BeforeChild(h1, parent, child, x)
    else
      if child == NULL || child == h1[parent].lastChild || h1[child].parent != parent then AsLast(h1, parent, x)
      else AfterChild(h1, parent, child, x)
  }

  lemma AttachRequires(h: Heap, kids: Kids, parent: Ptr, child: Ptr)
    requires WellFormed(h, kids) && parent in h && IsPtr(h, child)
    ensures IsPtr(h, h[parent].child) && IsPtr(h, h[parent].lastChild)
    ensures child != NULL ==> IsPtr(h, h[child].prev) && IsPtr(h, h[child].next)
  {
    hide Rooted, IndexOf;
    ListEnds(h, parent, kids[parent]);
    if child != NULL {
      assert HasPlace(h, kids, child);
      if h[child].parent != NULL {
        ParentsList(h, kids, child);
        var l := kids[h[child].parent];
        ListPointers(h, h[child].parent, l, IndexOf(l, child));
      }
    }
  }

  lemma ListEnds(h: Heap, p: Ptr, l: seq<Ptr>)
    requires p in h && SpellsList(h, p, l)
    ensures IsPtr(h, h[p].child) && IsPtr(h, h[p].lastChild)
  {
  }

  lemma SameDomain(h: Heap, kids: Kids)
    requires WellFormed(h, kids)
    ensures kids.Keys == h.Keys && NULL !in h
  {
  }

  lemma SameKeys(h: Heap, h2: Heap)
    requires SameContents(h, h2)
    ensures h2.Keys == h.Keys
  {
  }

  lemma SameTransitive(h: Heap, h2: Heap, h3: Heap)
    requires SameContents(h, h2) && SameContents(h2, h3)
    ensures SameContents(h, h3)
  {
  }

  lemma LoneIsRemoved(h: Heap, kids: Kids, x: Ptr)
    requires WellFormed(h, kids) && x in h && h[x].parent == NULL
    ensures KidsRemoved(h, kids, x) == kids && SameContents(h, h)
  {
  }

  lemma AttachedContents(h: Heap, parent: Ptr, after: bool, child: Ptr, x: Ptr)
    requires x in h && parent in h && IsPtr(h, child) && NULL !in h
    requires IsPtr(h, h[parent].child) && IsPtr(h, h[parent].lastChild)
    requires child != NULL ==> IsPtr(h, h[child].prev) && IsPtr(h, h[child].next)
    ensures SameContents(h, AttachedHeap(h, parent, after, child, x))
  {
    hide AsFirst, AsLast, BeforeChild, AfterChild;
  }

  lemma SameItself(h: Heap)
    ensures SameContents(h, h)
  {
  }

  /** The store that the assignments of mxmlRemove leave. */
  function UnlinkedHeap(h: Heap, parent: Ptr, left: Ptr, right: Ptr, x: Ptr): Heap
    requires x in h && parent in h && IsPtr(h, left) && IsPtr(h, right)
  {
    var h1 := if left != NULL then h[left := h[left].(next := right)] else h[parent := h[parent].(child := right)];
    var h2 := if right != NULL then h1[right := h1[right].(prev := left)]
              else h1[parent := h1[parent].(lastChild := left)];
    h2[x := h2[x].(parent := NULL, prev := NULL, next := NULL)]
  }

  /** The neighbours of a list element are different from each other, from it, and from the parent. */
  lemma NeighboursDiffer(l: seq<Ptr>, i: nat, parent: Ptr)
    requires NoDup(l) && i < |l| && parent !in l && parent != NULL && NULL !in l
    ensures PrevIn(l, i) != parent && NextIn(l, i) != parent && PrevIn(l, i) != l[i] && NextIn(l, i) != l[i]
    ensures PrevIn(l, i) != NULL ==> PrevIn(l, i) != NextIn(l, i)
  {
  }

  /** The assignments of mxmlRemove, node by node. */
  lemma UnlinkedNodes(h: Heap, parent: Ptr, left: Ptr, right: Ptr, x: Ptr)
    requires NULL !in h && x in h && parent in h && parent != x && IsPtr(h, left) && IsPtr(h, right)
    requires left != parent && right != parent && left != x && right != x && (left != NULL ==> left != right)
    ensures var h2 := UnlinkedHeap(h, parent, left, right, x);
            && h2.Keys == h.Keys
            && (forall p :: p in h && p != parent && p != left && p != right && p != x ==> h2[p] == h[p])
            && h2[x] == h[x].(parent := NULL, prev := NULL, next := NULL)
            && (left != NULL ==> h2[left] == h[left].(next := right))
            && (right != NULL ==> h2[right] == h[right].(prev := left))
            && h2[parent] == h[parent].(child := if left == NULL then right else h[parent].child,
                                        lastChild := if right == NULL then left else h[parent].lastChild)
  {
  }

  lemma NoNullInList(h: Heap, p: Ptr, l: seq<Ptr>)
    requires NULL !in h && p in h && SpellsList(h, p, l)
    ensures NULL !in l && NoDup(l)
  {
    if NULL in l {
      ListMember(h, p, l, NULL);
    }
  }

  lemma Unlinked(h: Heap, h2: Heap, parent: Ptr, l: seq<Ptr>, i: nat, x: Ptr)
    requires NULL !in h && x in h && parent in h && parent != x && h[x].parent == parent && parent !in l
    requires SpellsList(h, parent, l) && i < |l| && l[i] == x
    requires IsPtr(h, PrevIn(l, i)) && IsPtr(h, NextIn(l, i))
    requires h2 == UnlinkedHeap(h, parent, PrevIn(l, i), NextIn(l, i), x)
    ensures Unlinking(h, h2, parent, l, i, x) && SameContents(h, h2) && h2[x].child == h[x].child
  {
    hide SpellsList, NoDup, UnlinkedHeap;
    NoNullInList(h, parent, l);
    NeighboursDiffer(l, i, parent);
    UnlinkedNodes(h, parent, PrevIn(l, i), NextIn(l, i), x);
  }

  lemma SelfInSubtree(h: Heap, x: Ptr)
    ensures InSubtree(h, x, x)
  {
    assert Up(h, x, 0) == x;
  }

  /** Taking the node out first does not change whether the parent is below it. */
  lemma RemovedSubtree(h: Heap, h2: Heap, kids2: Kids, parent: Ptr, x: Ptr)
    requires WellFormed(h2, kids2) && h2.Keys == h.Keys && x in h && h2[x].parent == NULL
    requires forall p :: p in h && p != x ==> h2[p].parent == h[p].parent
    ensures InSubtree(h, parent, x) <==> InSubtree(h2, parent, x)
  {
    if InSubtree(h, parent, x) {
      var k: nat :| Up(h, parent, k) == x;
      var m := FirstMeeting(h, parent, x, k);
      UpUntil(h, h2, x, NULL, parent, m);
    }
    if InSubtree(h2, parent, x) {
      var k: nat :| Up(h2, parent, k) == x;
      var m := FirstMeeting(h2, parent, x, k);
      UpUntil(h2, h, x, h[x].parent, parent, m);
    }
  }

  /** The neighbours between which mxmlAdd links a node, read off the pointers. */
  predicate Between(h: Heap, parent: Ptr, after: bool, child: Ptr, left: Ptr, right: Ptr)
    requires parent in h && IsPtr(h, child) && NULL !in h
  {
    if !after then
      if child == NULL || child == h[parent].child || h[child].parent != parent then
        left == NULL && right == h[parent].child
      else left == h[child].prev && right == child && left != NULL
    else
      if child == NULL || child == h[parent].lastChild || h[child].parent != parent then
        left == h[parent].lastChild && right == NULL
      else left == child && right == h[child].next && right != NULL
  }

  /** The assignments of mxmlAdd, node by node. */
  lemma AttachedNodes(h: Heap, parent: Ptr, after: bool, child: Ptr, x: Ptr, left: Ptr, right: Ptr)
    requires x in h && parent in h && x != parent && NULL !in h && h[x].prev == NULL && h[x].next == NULL
    requires IsPtr(h, child) && child != x && IsPtr(h, left) && IsPtr(h, right)
    requires left != x && left != parent && right != x && right != parent && (left != NULL ==> left != right)
    requires IsPtr(h, h[parent].child) && IsPtr(h, h[parent].lastChild)
    requires child != NULL ==> IsPtr(h, h[child].prev) && IsPtr(h, h[child].next)
    requires Between(h, parent, after, child, left, right)
    ensures Spliced(h, AttachedHeap(h, parent, after, child, x), parent, left, right, x)
  {
    if child == parent {
      assert h[child].parent == parent ==> !after ==> left != NULL;
    }
  }

  /** The position of mxmlAdd in the list, and the neighbours there. */
  lemma PositionNeighbours(h: Heap, parent: Ptr, l: seq<Ptr>, after: bool, child: Ptr)
    requires parent in h && IsPtr(h, child) && NULL !in h && SpellsList(h, parent, l)
    requires child in l <==> child != NULL && h[child].parent == parent
    ensures var i := PositionFor(l, after, child);
            Between(h, parent, after, child, PrevIn(l, i), RightOf(l, i))
  {
    var i := PositionFor(l, after, child);
    NoNullInList(h, parent, l);
    if child in l {
      var k := IndexOf(l, child);
      ListPointers(h, parent, l, k);
      if k > 0 {
        assert l[0] != l[k];
      }
      if k + 1 < |l| {
        assert l[|l| - 1] != l[k];
      }
    }
  }

  /** Any two neighbouring places of a list hold different nodes, none of them the parent or `x`. */
  lemma GapNeighbours(h: Heap, parent: Ptr, l: seq<Ptr>, i: nat, x: Ptr)
    requires parent in h && NULL !in h && SpellsList(h, parent, l) && i <= |l| && parent !in l && x !in l && x != NULL
    ensures IsPtr(h, PrevIn(l, i)) && IsPtr(h, RightOf(l, i))
    ensures PrevIn(l, i) != x && PrevIn(l, i) != parent && RightOf(l, i) != x && RightOf(l, i) != parent
    ensures PrevIn(l, i) != NULL ==> PrevIn(l, i) != RightOf(l, i)
  {
    NoNullInList(h, parent, l);
  }

  lemma AttachedIsLinking(h: Heap, kids: Kids, parent: Ptr, after: bool, child: Ptr, x: Ptr)
    requires WellFormed(h, kids) && parent in h && x in h && x != parent && h[x].parent == NULL
    requires IsPtr(h, child) && child != x
    requires IsPtr(h, h[parent].child) && IsPtr(h, h[parent].lastChild)
    requires child != NULL ==> IsPtr(h, h[child].prev) && IsPtr(h, h[child].next)
    ensures Linking(h, AttachedHeap(h, parent, after, child, x), parent, kids[parent],
                    PositionFor(kids[parent], after, child), x)
  {
    hide SpellsList, Rooted, Spliced, AttachedHeap, PositionFor, Between;
    var l := kids[parent];
    var i := PositionFor(l, after, child);
    assert SpellsList(h, parent, l) && HasPlace(h, kids, x);
    NotOwnChild(h, parent, l);
    assert x !in l by {
      if x in l {
        ListMember(h, parent, l, x);
      }
    }
    assert child in l <==> child != NULL && h[child].parent == parent by {
      if child in l {
        ListMember(h, parent, l, child);
      }
      if child != NULL {
        assert HasPlace(h, kids, child);
      }
    }
    PositionNeighbours(h, parent, l, after, child);
    GapNeighbours(h, parent, l, i, x);
    AttachedNodes(h, parent, after, child, x, PrevIn(l, i), RightOf(l, i));
  }

  /** A node added under itself, or next to itself, ends up in no well-formed store. */
  lemma AttachedToItself(h: Heap, kids: Kids, parent: Ptr, after: bool, child: Ptr, x: Ptr)
    requires WellFormed(h, kids) && parent in h && x in h && h[x].parent == NULL && IsPtr(h, child)
    requires IsPtr(h, h[parent].child) && IsPtr(h, h[parent].lastChild)
    requires child != NULL ==> IsPtr(h, h[child].prev) && IsPtr(h, h[child].next)
    requires x == parent || child == x
    ensures !Coherent(AttachedHeap(h, parent, after, child, x))
  {
    var h2 := AttachedHeap(h, parent, after, child, x);
    hide SpellsList, HasPlace, Rooted, AttachedHeap;
    forall k ensures !WellFormed(h2, k) {
      if WellFormed(h2, k) {
        assert x in h2 by { AttachedContents(h, parent, after, child, x); }
        NotOwnParent(h2, x);
        NotOwnNeighbour(h2, k, x);
        if x == parent {
          OwnParent(h, parent, after, child);
        } else {
          OwnNeighbour(h, kids, parent, after, x);
        }
      }
    }
  }

  /** Adding a lone node keeps the store well formed exactly when the reference child is another node and
      the parent is not in the node's own subtree; otherwise no lists of children fit the pointers. */
  lemma AttachedWellFormed(h: Heap, kids: Kids, parent: Ptr, after: bool, child: Ptr, x: Ptr)
    requires WellFormed(h, kids) && parent in h && x in h && h[x].parent == NULL && IsPtr(h, child)
    requires IsPtr(h, h[parent].child) && IsPtr(h, h[parent].lastChild)
    requires child != NULL ==> IsPtr(h, h[child].prev) && IsPtr(h, h[child].next)
    ensures var h2, l := AttachedHeap(h, parent, after, child, x), kids[parent];
            && (Coherent(h2) <==> child != x && !InSubtree(h, parent, x))
            && (Coherent(h2) <==> WellFormed(h2, kids[parent := Inserted(l, PositionFor(l, after, child), x)]))
  {
    hide SpellsList, HasPlace, Rooted, Inserted, InSubtree, Linking, AttachedHeap, PositionFor;
    if x == parent || child == x {
      AttachedToItself(h, kids, parent, after, child, x);
      SelfInSubtree(h, x);
    } else {
      AttachedIsLinking(h, kids, parent, after, child, x);
      LinkingWellFormed(h, kids, AttachedHeap(h, parent, after, child, x), parent, PositionFor(kids[parent], after, child), x);
    }
  }

  lemma OwnParent(h: Heap, x: Ptr, after: bool, child: Ptr)
    requires x in h && IsPtr(h, child) && NULL !in h
    requires IsPtr(h, h[x].child) && IsPtr(h, h[x].lastChild)
    requires child != NULL ==> IsPtr(h, h[child].prev) && IsPtr(h, h[child].next)
    ensures var h2 := AttachedHeap(h, x, after, child, x); x in h2 && h2[x].parent == x
  {
  }

  lemma OwnNeighbour(h: Heap, kids: Kids, parent: Ptr, after: bool, x: Ptr)
    requires WellFormed(h, kids) && parent in h && x in h && h[x].parent == NULL && x != parent
    requires IsPtr(h, h[parent].child) && IsPtr(h, h[parent].lastChild)
    requires IsPtr(h, h[x].prev) && IsPtr(h, h[x].next)
    ensures var h2 := AttachedHeap(h, parent, after, x, x); x in h2 && (h2[x].next == x || h2[x].prev == x)
  {
    hide Rooted;
    assert SpellsList(h, parent, kids[parent]) && HasPlace(h, kids, x);
    assert h[parent].child != x && h[parent].lastChild != x;
  }

  lemma NotOwnNeighbour(h: Heap, kids: Kids, x: Ptr)
    requires WellFormed(h, kids) && x in h
    ensures h[x].next != x && h[x].prev != x
  {
    hide SpellsList, Rooted, IndexOf;
    assert HasPlace(h, kids, x);
    if h[x].parent != NULL {
      ParentsList(h, kids, x);
      var l := kids[h[x].parent];
      NoNullInList(h, h[x].parent, l);
      assert l[IndexOf(l, x)] == x;
    }
  }
}
