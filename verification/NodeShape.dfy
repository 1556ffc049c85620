/** From the lists of children of a well-formed store to the forests below its nodes. */
module NodeShape {
  import opened XmlTree
  import opened NodeStore
  import opened NodeEdit

  /** The forest `f` unfolds the list `l` and the lists of children below it. */
  predicate Matches(kids: Kids, l: seq<Ptr>, f: Forest)
    decreases f
  {
    match f
    case Void => l == []
    case Tree(id, below, rest) =>
      && l != [] && l[0] == id && id in kids
      && Matches(kids, kids[id], below) && Matches(kids, l[1..], rest)
  }

  predicate RootedWithin(h: Heap, p: Ptr, bound: nat) {
    exists k :: 0 <= k < bound && Up(h, p, k) == NULL
  }

  /** Every node has fewer than `bound` ancestors. */
  predicate Shallow(h: Heap, bound: nat) {
    forall p :: p in h ==> RootedWithin(h, p, bound)
  }

  lemma {:induction false} ShallowBound(h: Heap, ps: set<Ptr>) returns (bound: nat)
    requires NULL !in h && ps <= h.Keys && forall p :: p in h ==> Rooted(h, p)
    ensures forall p :: p in ps ==> RootedWithin(h, p, bound)
  {
    if ps == {} {
      bound := 0;
    } else {
      var q :| q in ps;
      var others := ShallowBound(h, ps - {q});
      var k: nat :| Up(h, q, k) == NULL;
      bound := others + k + 1;
      forall p | p in ps ensures RootedWithin(h, p, bound) {
        if p == q {
          assert 0 <= k < bound && Up(h, p, k) == NULL;
        } else {
          assert p in ps - {q} && RootedWithin(h, p, others);
          var j :| 0 <= j < others && Up(h, p, j) == NULL;
          assert 0 <= j < bound && Up(h, p, j) == NULL;
        }
      }
    }
  }

  /** None of the nodes of a list becomes null in fewer than `m` steps. */
  predicate Deep(h: Heap, l: seq<Ptr>, m: nat) {
    forall c, k: nat :: c in l && k < m ==> Up(h, c, k) != NULL
  }

  /** The forest below a list of nodes, found by unfolding. */
  lemma {:induction false} Unfold(h: Heap, kids: Kids, p: Ptr, l: seq<Ptr>, m: nat, bound: nat) returns (f: Forest)
    requires WellFormed(h, kids) && p in h && Shallow(h, bound) && Deep(h, l, m)
    requires forall c :: c in l ==> c in kids[p]
    ensures Matches(kids, l, f)
    decreases bound + 1 - m, |l|
  {
    hide SpellsList, Rooted, HasPlace;
    if l == [] {
      return Void;
    }
    var c := l[0];
    assert c in l;
    assert SpellsList(h, p, kids[p]);
    ListMember(h, p, kids[p], c);
    assert m < bound by {
      assert RootedWithin(h, c, bound);
      var k :| 0 <= k < bound && Up(h, c, k) == NULL;
      assert k >= m;
    }
    assert Deep(h, kids[c], m + 1) by {
      KidsDeeper(h, kids, c, m);
    }
    var below := Unfold(h, kids, c, kids[c], m + 1, bound);
    var rest := Unfold(h, kids, p, l[1..], m, bound);
    f := Tree(c, below, rest);
  }

  lemma KidsDeeper(h: Heap, kids: Kids, c: Ptr, m: nat)
    requires WellFormed(h, kids) && c in h && forall k: nat :: k < m ==> Up(h, c, k) != NULL
    ensures Deep(h, kids[c], m + 1)
  {
    hide SpellsList, Rooted, HasPlace;
    assert SpellsList(h, c, kids[c]);
    forall d, k: nat | d in kids[c] && k < m + 1 ensures Up(h, d, k) != NULL {
      ListMember(h, c, kids[c], d);
      if k > 0 {
        assert Up(h, d, k) == Up(h, c, k - 1);
      }
    }
  }

  // ---- What the forest says about the pointers ----

  lemma NoNullNode(h: Heap, kids: Kids, p: Ptr, l: seq<Ptr>, i: nat)
    requires WellFormed(h, kids) && p in h && l == kids[p] && i < |l|
    ensures l[i] in h && l[i] != NULL && h[l[i]].parent == p
    ensures h[l[i]].prev == PrevIn(l, i) && h[l[i]].next == NextIn(l, i)
  {
    hide SpellsList, Rooted, HasPlace;
    assert SpellsList(h, p, l);
    ListPointers(h, p, l, i);
  }

  lemma {:induction false} LastOfMatch(kids: Kids, l: seq<Ptr>, f: Forest, before: Ptr)
    requires Matches(kids, l, f)
    ensures First(f) == (if l == [] then NULL else l[0])
    ensures Last(f, before) == if l == [] then before else l[|l| - 1]
  {
    if f.Tree? {
      LastOfMatch(kids, l[1..], f.rest, f.id);
    }
  }

  /** The forest of a node's children, from child `i` on, is spelled by the pointers. */
  lemma {:induction false} MatchIsLinked(h: Heap, kids: Kids, p: Ptr, i: nat, f: Forest)
    requires WellFormed(h, kids) && p in h && i <= |kids[p]| && Matches(kids, kids[p][i..], f)
    ensures Linked(h, f, p, PrevIn(kids[p], i))
    decreases f
  {
    hide SpellsList, Rooted, HasPlace;
    if f.Tree? {
      var l := kids[p];
      NoNullNode(h, kids, p, l, i);
      assert l[i..][0] == l[i] && l[i..][1..] == l[i + 1..];
      var c := l[i];
      MatchIsLinked(h, kids, p, i + 1, f.rest);
      assert kids[c][0..] == kids[c];
      MatchIsLinked(h, kids, c, 0, f.kids);
      LastOfMatch(kids, kids[c], f.kids, NULL);
      LastOfMatch(kids, l[i + 1..], f.rest, NULL);
      assert h[c].child == First(f.kids) && h[c].lastChild == Last(f.kids, NULL) by {
        EndsOfList(h, kids, c);
      }
    }
  }

  lemma EndsOfList(h: Heap, kids: Kids, c: Ptr)
    requires WellFormed(h, kids) && c in h
    ensures h[c].child == (if kids[c] == [] then NULL else kids[c][0])
    ensures h[c].lastChild == (if kids[c] == [] then NULL else kids[c][|kids[c]| - 1])
  {
    assert SpellsList(h, c, kids[c]);
  }

  /** The nodes of the forest are below the parent, and the nodes below the parent are in it. */
  lemma {:induction false} MatchIsBelow(h: Heap, kids: Kids, p: Ptr, l: seq<Ptr>, f: Forest, y: Ptr)
    requires WellFormed(h, kids) && p in h && (forall c :: c in l ==> c in kids[p]) && Matches(kids, l, f) && y in Ids(f)
    ensures y in h && exists c, k: nat :: c in l && Up(h, y, k) == c
    decreases f
  {
    hide SpellsList, Rooted, HasPlace;
    var c := f.id;
    assert c in l;
    assert c in h by {
      assert SpellsList(h, p, kids[p]);
      ListMember(h, p, kids[p], c);
    }
    if y == c {
      assert Up(h, y, 0) == c;
    } else if y in Ids(f.kids) {
      MatchIsBelow(h, kids, c, kids[c], f.kids, y);
      var d, k: nat :| d in kids[c] && Up(h, y, k) == d;
      assert SpellsList(h, c, kids[c]);
      ListMember(h, c, kids[c], d);
      UpAdds(h, y, k, 1);
      assert Up(h, d, 1) == Up(h, h[d].parent, 0);
      assert Up(h, y, k + 1) == c;
    } else {
      MatchIsBelow(h, kids, p, l[1..], f.rest, y);
      var d, k: nat :| d in l[1..] && Up(h, y, k) == d;
      assert d in l;
    }
  }

  lemma {:induction false} MemberMatched(kids: Kids, l: seq<Ptr>, f: Forest, c: Ptr)
    requires Matches(kids, l, f) && c in l
    ensures c in Ids(f)
  {
    if c != l[0] {
      assert c in l[1..];
      MemberMatched(kids, l[1..], f.rest, c);
    }
  }

  /** With a node its children are in the forest. */
  lemma {:induction false} MatchClosed(kids: Kids, l: seq<Ptr>, f: Forest, y: Ptr, c: Ptr)
    requires Matches(kids, l, f) && y in Ids(f) && y in kids && c in kids[y]
    ensures c in Ids(f)
    decreases f
  {
    if y == f.id {
      MemberMatched(kids, kids[y], f.kids, c);
    } else if y in Ids(f.kids) {
      MatchClosed(kids, kids[f.id], f.kids, y, c);
    } else {
      MatchClosed(kids, l[1..], f.rest, y, c);
    }
  }

  lemma {:induction false} BelowIsMatched(h: Heap, kids: Kids, x: Ptr, f: Forest, y: Ptr, k: nat)
    requires WellFormed(h, kids) && x in h && Matches(kids, kids[x], f) && y in h && Up(h, y, k) == x && y != x
    ensures y in Ids(f)
    decreases k
  {
    hide SpellsList, Rooted, Matches;
    var q := h[y].parent;
    assert HasPlace(h, kids, y);
    if q == NULL {
    } else if q == x {
      MemberMatched(kids, kids[x], f, y);
    } else {
      BelowIsMatched(h, kids, x, f, q, k - 1);
      MatchClosed(kids, kids[x], f, q, y);
    }
  }

  // ---- No node occurs twice ----

  /** A node that reaches itself is not rooted. */
  lemma {:induction false} CycleNotRooted(h: Heap, p: Ptr, n: nat, k: nat)
    requires NULL !in h && p in h && n > 0 && Up(h, p, n) == p
    ensures Up(h, p, k) != NULL
    decreases k
  {
    if k >= n {
      UpAdds(h, p, n, k - n);
      CycleNotRooted(h, p, n, k - n);
    } else if Up(h, p, k) == NULL {
      UpAdds(h, p, k, n - k);
      StaysNull(h, n - k);
    }
  }

  lemma NoCycle(h: Heap, p: Ptr, n: nat)
    requires NULL !in h && p in h && Rooted(h, p) && n > 0
    ensures Up(h, p, n) != p
  {
    if Up(h, p, n) == p {
      var k: nat :| Up(h, p, k) == NULL;
      CycleNotRooted(h, p, n, k);
    }
  }

  /** A node has at most one ancestor among siblings. */
  lemma OneSibling(h: Heap, kids: Kids, p: Ptr, c: Ptr, d: Ptr, y: Ptr, j: nat, k: nat)
    requires WellFormed(h, kids) && p in h && c in kids[p] && d in kids[p] && Up(h, y, j) == c && Up(h, y, k) == d
    requires j <= k
    ensures c == d
  {
    hide SpellsList, HasPlace;
    assert SpellsList(h, p, kids[p]);
    ListMember(h, p, kids[p], c);
    ListMember(h, p, kids[p], d);
    if j < k {
      UpAdds(h, y, j, k - j);
      assert Up(h, c, k - j) == Up(h, p, k - j - 1) == d;
      UpAdds(h, p, k - j - 1, 1);
      assert Up(h, d, 1) == Up(h, p, 0);
      NoCycle(h, p, k - j);
    }
  }

  lemma {:induction false} MatchDistinct(h: Heap, kids: Kids, p: Ptr, l: seq<Ptr>, f: Forest)
    requires WellFormed(h, kids) && p in h && (forall c :: c in l ==> c in kids[p]) && NoDup(l) && Matches(kids, l, f)
    ensures Distinct(f)
    decreases f
  {
    hide SpellsList, HasPlace, Rooted;
    if f.Tree? {
      var c := f.id;
      assert c in l;
      assert SpellsList(h, p, kids[p]);
      ListMember(h, p, kids[p], c);
      assert SpellsList(h, c, kids[c]);
      NoNullInList(h, c, kids[c]);
      MatchDistinct(h, kids, c, kids[c], f.kids);
      MatchDistinct(h, kids, p, l[1..], f.rest);
      KidsApart(h, kids, p, l, f);
    }
  }

  lemma KidsApart(h: Heap, kids: Kids, p: Ptr, l: seq<Ptr>, f: Forest)
    requires WellFormed(h, kids) && p in h && (forall c :: c in l ==> c in kids[p]) && NoDup(l) && Matches(kids, l, f)
    requires f.Tree? && f.id in h
    ensures f.id !in Ids(f.kids) && f.id !in Ids(f.rest) && Ids(f.kids) !! Ids(f.rest)
  {
    hide SpellsList, HasPlace;
    var c := f.id;
    assert c in l && c !in l[1..];
    forall y | y in Ids(f.kids) ensures y != c && y !in Ids(f.rest) {
      var k := KidsAbove(h, kids, c, f.kids, y);
      if y == c {
        NoCycle(h, c, k);
      }
      if y in Ids(f.rest) {
        MatchIsBelow(h, kids, p, l[1..], f.rest, y);
        var d, j: nat :| d in l[1..] && Up(h, y, j) == d;
        assert d in l;
        if j <= k {
          OneSibling(h, kids, p, d, c, y, j, k);
        } else {
          OneSibling(h, kids, p, c, d, y, k, j);
        }
      }
    }
    if c in Ids(f.rest) {
      MatchIsBelow(h, kids, p, l[1..], f.rest, c);
      var d, j: nat :| d in l[1..] && Up(h, c, j) == d;
      assert d in l && Up(h, c, 0) == c;
      OneSibling(h, kids, p, c, d, c, 0, j);
    }
  }

  /** How far above a node of its children's forest a node is. */
  lemma KidsAbove(h: Heap, kids: Kids, c: Ptr, f: Forest, y: Ptr) returns (k: nat)
    requires WellFormed(h, kids) && c in h && Matches(kids, kids[c], f) && y in Ids(f)
    ensures k > 0 && Up(h, y, k) == c && y in h
  {
    hide SpellsList, HasPlace, Rooted;
    MatchIsBelow(h, kids, c, kids[c], f, y);
    var d, j: nat :| d in kids[c] && Up(h, y, j) == d;
    assert SpellsList(h, c, kids[c]);
    ListMember(h, c, kids[c], d);
    UpAdds(h, y, j, 1);
    assert Up(h, d, 1) == Up(h, c, 0);
    k := j + 1;
  }

  /** The nodes below `x`. */
  ghost function Descendants(h: Heap, x: Ptr): set<Ptr> {
    set y | y in h && y != x && InSubtree(h, y, x)
  }

  /** The forest below a node of a well-formed store: all pointers spell it, and it holds exactly the
      node's descendants, each once. */
  lemma Below(h: Heap, kids: Kids, x: Ptr) returns (f: Forest)
    requires WellFormed(h, kids) && x in h
    ensures Linked(h, f, x, NULL) && Distinct(f) && h[x].child == First(f) && h[x].lastChild == Last(f, NULL)
    ensures Matches(kids, kids[x], f) && Ids(f) == Descendants(h, x)
  {
    hide SpellsList, HasPlace, Linked;
    var bound := ShallowBound(h, h.Keys);
    f := Unfold(h, kids, x, kids[x], 0, bound);
    assert kids[x][0..] == kids[x];
    MatchIsLinked(h, kids, x, 0, f);
    assert NoDup(kids[x]) by {
      assert SpellsList(h, x, kids[x]);
      NoNullInList(h, x, kids[x]);
    }
    MatchDistinct(h, kids, x, kids[x], f);
    LastOfMatch(kids, kids[x], f, NULL);
    EndsOfList(h, kids, x);
    forall y | y in Ids(f) ensures y in Descendants(h, x) {
      var k := KidsAbove(h, kids, x, f, y);
      if y == x {
        NoCycle(h, x, k);
      }
    }
    forall y | y in Descendants(h, x) ensures y in Ids(f) {
      var k: nat :| Up(h, y, k) == x;
      BelowIsMatched(h, kids, x, f, y, k);
    }
  }
}
