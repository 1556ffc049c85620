/** mxml-index.c: an array of nodes sorted in place by element name and attribute value, and a cursor. */
module NodeIndex {
  import opened XmlTree
  import opened NodeStore
  import opened NodeWalk
  import opened IndexSearch

  // ---- comparing nodes ----

  /** What the comparisons dereference: an element with the indexed attribute, if there is one. */
  predicate Indexable(h: Heap, attr: Option<Str>, x: Ptr) {
    x in h && h[x].v.Element? && (attr.Some? ==> GetAttr(h[x].v.attrs, attr.value).Some?)
  }

  predicate AllIndexable(h: Heap, attr: Option<Str>, s: seq<Ptr>) {
    forall i :: 0 <= i < |s| ==> Indexable(h, attr, s[i])
  }

  function AttrOf(h: Heap, attr: Str, x: Ptr): Str
    requires Indexable(h, Some(attr), x)
  {
    GetAttr(h[x].v.attrs, attr).value
  }

  /** index_compare */
  function Compare(h: Heap, attr: Option<Str>, x: Ptr, y: Ptr): int
    requires Indexable(h, attr, x) && Indexable(h, attr, y)
  {
    var diff := StrCmp(h[x].v.name, h[y].v.name);
    if diff != 0 then diff
    else if attr.Some? then StrCmp(AttrOf(h, attr.value, x), AttrOf(h, attr.value, y))
    else 0
  }

  /** index_find */
  function CompareQuery(h: Heap, attr: Option<Str>, element: Option<Str>, value: Option<Str>, x: Ptr): int
    requires Indexable(h, attr, x) && (value.Some? ==> attr.Some?)
  {
    var diff := if element.Some? then StrCmp(element.value, h[x].v.name) else 0;
    if diff != 0 then diff
    else if value.Some? then StrCmp(value.value, AttrOf(h, attr.value, x))
    else 0
  }

  predicate Leq(h: Heap, attr: Option<Str>, x: Ptr, y: Ptr) {
    Indexable(h, attr, x) && Indexable(h, attr, y) && Compare(h, attr, x, y) <= 0
  }

  lemma LeqTotal(h: Heap, attr: Option<Str>, x: Ptr, y: Ptr)
    requires Indexable(h, attr, x) && Indexable(h, attr, y)
    ensures Leq(h, attr, x, y) || Leq(h, attr, y, x)
    ensures Leq(h, attr, x, x)
    ensures Compare(h, attr, x, y) == -Compare(h, attr, y, x)
  {
    hide StrCmp;
    StrCmpEqual(h[x].v.name, h[y].v.name);
    StrCmpEqual(h[x].v.name, h[x].v.name);
    if attr.Some? {
      StrCmpEqual(AttrOf(h, attr.value, x), AttrOf(h, attr.value, y));
      StrCmpEqual(AttrOf(h, attr.value, x), AttrOf(h, attr.value, x));
    }
  }

  lemma LeqTrans(h: Heap, attr: Option<Str>, x: Ptr, y: Ptr, z: Ptr)
    requires Leq(h, attr, x, y) && Leq(h, attr, y, z)
    ensures Leq(h, attr, x, z)
  {
    hide StrCmp;
    StrCmpTrans(h[x].v.name, h[y].v.name, h[z].v.name);
    StrCmpEqual(h[x].v.name, h[y].v.name);
    StrCmpEqual(h[y].v.name, h[z].v.name);
    StrCmpEqual(h[x].v.name, h[z].v.name);
    if attr.Some? && h[x].v.name == h[y].v.name == h[z].v.name {
      StrCmpTrans(AttrOf(h, attr.value, x), AttrOf(h, attr.value, y), AttrOf(h, attr.value, z));
    }
  }

  // ---- sorting ----

  predicate Sorted(h: Heap, attr: Option<Str>, s: seq<Ptr>, lo: nat, hi: nat)
    requires hi <= |s|
  {
    forall i, j :: lo <= i < j < hi ==> Leq(h, attr, s[i], s[j])
  }

  /** Everything in [lo, mid) comes before everything in [mid, hi). */
  predicate Split(h: Heap, attr: Option<Str>, s: seq<Ptr>, lo: nat, mid: nat, hi: nat)
    requires hi <= |s|
  {
    forall i, j :: lo <= i < mid <= j < hi ==> Leq(h, attr, s[i], s[j])
  }

  /** A rearrangement within [lo, hi). */
  predicate Rearranged(s: seq<Ptr>, s': seq<Ptr>, lo: nat, hi: nat) {
    && |s'| == |s|
    && lo <= hi <= |s|
    && multiset(s') == multiset(s)
    && s'[..lo] == s[..lo] && s'[hi..] == s[hi..]
  }

  lemma RearrangedTrans(s: seq<Ptr>, t: seq<Ptr>, u: seq<Ptr>, lo: nat, mid: nat, mid': nat, hi: nat)
    requires Rearranged(s, t, lo, hi) && Rearranged(t, u, mid, mid') && lo <= mid && mid' <= hi
    ensures Rearranged(s, u, lo, hi)
  {
    assert u[..lo] == u[..mid][..lo] == t[..mid][..lo] == t[..lo];
    assert u[hi..] == u[mid'..][hi - mid'..] == t[mid'..][hi - mid'..] == t[hi..];
  }

  // Every value in the range after a rearrangement was in the range before.
  lemma RearrangedMember(s: seq<Ptr>, s': seq<Ptr>, lo: nat, hi: nat, j: nat) returns (i: nat)
    requires Rearranged(s, s', lo, hi) && lo <= j < hi
    ensures lo <= i < hi && s[i] == s'[j]
  {
    var mid, mid' := s[lo..hi], s'[lo..hi];
    MiddleMultiset(s, s', lo, hi);
    assert mid'[j - lo] == s'[j] && mid'[j - lo] in multiset(mid');
    var k :| 0 <= k < |mid| && mid[k] == s'[j];
    i := lo + k;
  }

  lemma MiddleMultiset(s: seq<Ptr>, s': seq<Ptr>, lo: nat, hi: nat)
    requires Rearranged(s, s', lo, hi)
    ensures multiset(s'[lo..hi]) == multiset(s[lo..hi])
  {
    MultisetParts(s, lo, hi);
    MultisetParts(s', lo, hi);
    var outside := multiset(s[..lo]) + multiset(s[hi..]);
    assert multiset(s[lo..hi]) == multiset(s) - outside;
    assert multiset(s'[lo..hi]) == multiset(s') - outside;
  }

  lemma MultisetParts(s: seq<Ptr>, lo: nat, hi: nat)
    requires lo <= hi <= |s|
    ensures multiset(s) == multiset(s[..lo]) + multiset(s[lo..hi]) + multiset(s[hi..])
  {
    assert s == s[..lo] + s[lo..hi] + s[hi..];
  }

  lemma RearrangedOutside(s: seq<Ptr>, s': seq<Ptr>, lo: nat, hi: nat, k: nat)
    requires Rearranged(s, s', lo, hi) && k < |s| && (k < lo || hi <= k)
    ensures s'[k] == s[k]
  {
    if k < lo {
      assert s'[k] == s'[..lo][k];
    } else {
      assert s'[k] == s'[hi..][k - hi];
    }
  }

  lemma AllIndexableKept(h: Heap, attr: Option<Str>, s: seq<Ptr>, s': seq<Ptr>)
    requires AllIndexable(h, attr, s) && multiset(s') == multiset(s)
    ensures AllIndexable(h, attr, s')
  {
    hide Indexable;
    forall i | 0 <= i < |s'|
      ensures Indexable(h, attr, s'[i])
    {
      assert s'[i] in multiset(s);
    }
  }

  // Rearranging on one side of a split point keeps the split.
  lemma SplitKept(h: Heap, attr: Option<Str>, s: seq<Ptr>, s': seq<Ptr>, lo: nat, mid: nat, hi: nat, from: nat, to: nat)
    requires hi <= |s| && Split(h, attr, s, lo, mid, hi) && Rearranged(s, s', from, to)
    requires (lo <= from && to <= mid) || (mid <= from && to <= hi)
    ensures Split(h, attr, s', lo, mid, hi)
  {
    hide Leq, Rearranged;
    assert |s'| == |s| by { RearrangedLength(s, s', from, to); }
    forall i, j | lo <= i < mid <= j < hi
      ensures Leq(h, attr, s'[i], s'[j])
    {
      var i', j' := i, j;
      if from <= i < to {
        i' := RearrangedMember(s, s', from, to, i);
      } else {
        RearrangedOutside(s, s', from, to, i);
      }
      if from <= j < to {
        j' := RearrangedMember(s, s', from, to, j);
      } else {
        RearrangedOutside(s, s', from, to, j);
      }
      assert Leq(h, attr, s[i'], s[j']);
    }
  }

  lemma RearrangedLength(s: seq<Ptr>, s': seq<Ptr>, lo: nat, hi: nat)
    requires Rearranged(s, s', lo, hi)
    ensures |s'| == |s| && lo <= hi <= |s|
  {
  }

  lemma SortedKept(h: Heap, attr: Option<Str>, s: seq<Ptr>, s': seq<Ptr>, lo: nat, hi: nat, from: nat, to: nat)
    requires hi <= |s| && Sorted(h, attr, s, lo, hi) && Rearranged(s, s', from, to) && hi <= from
    ensures Sorted(h, attr, s', lo, hi)
  {
    hide Leq;
    forall i, j | lo <= i < j < hi
      ensures Leq(h, attr, s'[i], s'[j])
    {
      RearrangedOutside(s, s', from, to, i);
      RearrangedOutside(s, s', from, to, j);
    }
  }

  // Exchanging two entries of the range.
  lemma SwapRearranges(s: seq<Ptr>, i: nat, j: nat, lo: nat, hi: nat)
    requires lo <= i < hi <= |s| && lo <= j < hi
    ensures Rearranged(s, s[i := s[j]][j := s[i]], lo, hi)
  {
  }

  lemma SwapMultiset(s: seq<Ptr>, i: nat, j: nat)
    requires i < |s| && j < |s|
    ensures multiset(s[i := s[j]][j := s[i]]) == multiset(s)
  {
  }

  lemma PivotSplits(h: Heap, attr: Option<Str>, s: seq<Ptr>, left: nat, p: nat, right: nat, pivot: Ptr)
    requires left <= p <= right < |s|
    requires forall k :: left <= k <= p ==> Leq(h, attr, s[k], pivot)
    requires forall k :: p <= k <= right ==> Leq(h, attr, pivot, s[k])
    ensures Split(h, attr, s, left, p, right + 1) && Split(h, attr, s, left, p + 1, right + 1)
  {
    hide Leq;
    forall i, j | left <= i <= p <= j < right + 1
      ensures Leq(h, attr, s[i], s[j])
    {
      LeqTrans(h, attr, s[i], pivot, s[j]);
    }
  }

  /** The nodes of an index, sorted and searched in place. */
  class Index {
    const h: Heap
    const attr: Option<Str>
    const nodes: array<Ptr>
    var curNode: nat

    constructor (h: Heap, attr: Option<Str>, found: seq<Ptr>)
      requires AllIndexable(h, attr, found)
      ensures this.h == h && this.attr == attr && nodes[..] == found && curNode == 0
      ensures fresh(nodes) && Valid()
    {
      this.h := h;
      this.attr := attr;
      nodes := new Ptr[|found|](i requires 0 <= i < |found| => found[i]);
      curNode := 0;
      new;
      assert nodes[..] == found;
    }

    ghost predicate Valid()
      reads this, nodes
    {
      AllIndexable(h, attr, nodes[..]) && curNode <= nodes.Length
    }

    method Swap(i: nat, j: nat, ghost lo: nat, ghost hi: nat, ghost before: seq<Ptr>)
      requires lo <= i < hi <= nodes.Length && lo <= j < hi
      requires Rearranged(before, nodes[..], lo, hi) && AllIndexable(h, attr, nodes[..])
      modifies nodes
      ensures nodes[i] == old(nodes[j]) && nodes[j] == old(nodes[i])
      ensures forall k :: 0 <= k < nodes.Length && k != i && k != j ==> nodes[k] == old(nodes[k])
      ensures Rearranged(before, nodes[..], lo, hi) && AllIndexable(h, attr, nodes[..])
    {
      hide Rearranged, Indexable;
      ghost var now := nodes[..];
      SwapRearranges(now, i, j, lo, hi);
      var temp := nodes[i];
      nodes[i] := nodes[j];
      nodes[j] := temp;
      assert nodes[..] == now[i := now[j]][j := now[i]];
      RearrangedTrans(before, now, nodes[..], lo, lo, hi, hi);
      AllIndexableKept(h, attr, now, nodes[..]) by { SwapMultiset(now, i, j); }
    }

    // One pass of the quicksort loop: everything up to the returned position comes before what is
    // at it, and it before everything after.
    method Partition(left: nat, right: nat) returns (tempr: nat)
      requires left <= right < nodes.Length && AllIndexable(h, attr, nodes[..])
      modifies nodes
      ensures Rearranged(old(nodes[..]), nodes[..], left, right + 1) && AllIndexable(h, attr, nodes[..])
      ensures left <= tempr <= right
      ensures Split(h, attr, nodes[..], left, tempr, right + 1)
      ensures Split(h, attr, nodes[..], left, tempr + 1, right + 1)
    {
      hide Compare, Indexable, Rearranged;
      ghost var before := nodes[..];
      RearrangedSelf(before, left, right + 1);
      var pivot := nodes[left];
      var templ := left;
      tempr := right;
      LeqTotal(h, attr, pivot, pivot);
      while templ < tempr
        invariant left <= templ <= right && left <= tempr <= right
        invariant Rearranged(before, nodes[..], left, right + 1) && AllIndexable(h, attr, nodes[..])
        invariant nodes[left] == pivot
        invariant forall k :: left <= k < templ ==> Compare(h, attr, nodes[k], pivot) <= 0
        invariant forall k :: tempr < k <= right ==> Compare(h, attr, nodes[k], pivot) > 0
        invariant templ >= tempr ==> Compare(h, attr, nodes[tempr], pivot) <= 0
        invariant templ < tempr ==> templ == left || Compare(h, attr, nodes[templ], pivot) <= 0
        decreases tempr - templ
      {
        ghost var t0 := templ;
        while templ < right && Compare(h, attr, nodes[templ], pivot) <= 0
          invariant t0 <= templ <= right
          invariant forall k :: left <= k < templ ==> Compare(h, attr, nodes[k], pivot) <= 0
        {
          templ := templ + 1;
        }
        while tempr > left && Compare(h, attr, nodes[tempr], pivot) > 0
          invariant left <= tempr <= right
          invariant forall k :: tempr < k <= right ==> Compare(h, attr, nodes[k], pivot) > 0
        {
          tempr := tempr - 1;
        }
        if templ < tempr {
          Swap(templ, tempr, left, right + 1, before);
        }
      }
      if Compare(h, attr, pivot, nodes[tempr]) > 0 {
        Swap(left, tempr, left, right + 1, before);
        LeqTotal(h, attr, pivot, pivot);
      }
      forall k | left <= k <= right
        ensures k <= tempr ==> Leq(h, attr, nodes[k], pivot)
        ensures tempr <= k ==> Leq(h, attr, pivot, nodes[k])
      {
        LeqTotal(h, attr, nodes[k], pivot);
        LeqTotal(h, attr, pivot, nodes[tempr]);
      }
      PivotSplits(h, attr, nodes[..], left, tempr, right, pivot);
    }

    /** mxmlIndexReset */
    method Reset() returns (r: Ptr)
      requires Valid()
      modifies this
      ensures Valid() && curNode == 0 && r == if nodes.Length > 0 then nodes[0] else NULL
    {
      curNode := 0;
      r := if nodes.Length > 0 then nodes[0] else NULL;
    }

    /** mxmlIndexEnum */
    method Enum() returns (r: Ptr)
      requires Valid()
      modifies this
      ensures Valid()
      ensures old(curNode) < nodes.Length ==> r == nodes[old(curNode)] && curNode == old(curNode) + 1
      ensures old(curNode) == nodes.Length ==> r == NULL && curNode == old(curNode)
    {
      if curNode < nodes.Length {
        r := nodes[curNode];
        curNode := curNode + 1;
      } else {
        r := NULL;
      }
    }

    // Where the first match stands, found by halving; nodes.Length if there is none.
    method FindFirst(element: Option<Str>, value: Option<Str>) returns (current: nat)
      requires Valid() && (value.Some? ==> attr.Some?) && nodes.Length > 0
      ensures current == Search(QuerySigns(h, attr, nodes[..], element, value), 0, nodes.Length - 1)
    {
      hide CompareQuery, Indexable;
      ghost var sg := QuerySigns(h, attr, nodes[..], element, value);
      var first, last := 0, nodes.Length - 1;
      while last - first > 1
        invariant 0 <= first <= last < nodes.Length
        invariant Search(sg, first, last) == Search(sg, 0, nodes.Length - 1)
      {
        current := (first + last) / 2;
        var diff := CompareQuery(h, attr, element, value, nodes[current]);
        assert diff == sg[current];
        if diff == 0 {
          ghost var back := Back(sg, current);
          while current > 0 && CompareQuery(h, attr, element, value, nodes[current - 1]) == 0
            invariant 0 <= current < nodes.Length && Back(sg, current) == back
          {
            current := current - 1;
          }
          return;
        } else if diff < 0 {
          last := current;
        } else {
          first := current;
        }
      }
      current := first;
      while current <= last
        invariant first <= current <= last + 1 && Scan(sg, current, last) == Scan(sg, first, last)
      {
        if CompareQuery(h, attr, element, value, nodes[current]) == 0 {
          return;
        }
        current := current + 1;
      }
      current := nodes.Length;
    }

    /** mxmlIndexFind: the first match of a query after a reset, the next one after that. */
    method Find(element: Option<Str>, value: Option<Str>) returns (r: Ptr)
      requires Valid()
      modifies this
      ensures Valid()
      ensures value.Some? && attr.None? ==> r == NULL && curNode == old(curNode)
      ensures element.None? && value.None? && old(curNode) < nodes.Length ==>
                r == nodes[old(curNode)] && curNode == old(curNode) + 1
      ensures element.None? && value.None? && old(curNode) == nodes.Length ==> r == NULL && curNode == old(curNode)
      ensures (element.Some? || value.Some?) && (value.Some? ==> attr.Some?) ==>
                var a := IndexSearch.Find(QuerySigns(h, attr, nodes[..], element, value), old(curNode));
                && curNode == a.cur
                && (a.at.Some? ==> a.at.value < nodes.Length && r == nodes[a.at.value])
                && (a.at.None? ==> r == NULL)
    {
      hide CompareQuery, Indexable, Search;
      if attr.None? && value.Some? {
        return NULL;
      }
      if element.None? && value.None? {
        r := Enum();
        return;
      }
      if nodes.Length == 0 {
        return NULL;
      }
      if curNode == 0 {
        var current := FindFirst(element, value);
        if current < nodes.Length {
          curNode := current + 1;
          return nodes[current];
        }
        curNode := nodes.Length;
        return NULL;
      } else if curNode < nodes.Length && CompareQuery(h, attr, element, value, nodes[curNode]) == 0 {
        r := nodes[curNode];
        curNode := curNode + 1;
        return;
      }
      curNode := nodes.Length;
      return NULL;
    }

    /** index_sort: recursion on the left of the pivot, a loop on its right. */
    method IndexSort(start: nat, right: nat)
      requires start <= right < nodes.Length && AllIndexable(h, attr, nodes[..])
      modifies nodes
      ensures Rearranged(old(nodes[..]), nodes[..], start, right + 1) && AllIndexable(h, attr, nodes[..])
      ensures Sorted(h, attr, nodes[..], start, right + 1)
      decreases right - start
    {
      hide Leq, Rearranged, AllIndexable, Sorted, Split;
      ghost var before := nodes[..];
      RearrangedSelf(before, start, right + 1);
      EmptyBefore(h, attr, before, start, right + 1);
      var left := start;
      while true
        invariant start <= left <= right
        invariant Rearranged(before, nodes[..], start, right + 1) && AllIndexable(h, attr, nodes[..])
        invariant Sorted(h, attr, nodes[..], start, left)
        invariant Split(h, attr, nodes[..], start, left, right + 1)
        decreases right - left
      {
        ghost var now := nodes[..];
        var tempr := Partition(left, right);
        ghost var parted := nodes[..];
        SortedKept(h, attr, now, parted, start, left, left, right + 1);
        SplitKept(h, attr, now, parted, start, left, right + 1, left, right + 1);
        RearrangedTrans(before, now, parted, start, left, right + 1, right + 1);
        if left + 1 < tempr {
          IndexSort(left, tempr - 1);
          ghost var sorted := nodes[..];
          SortedKept(h, attr, parted, sorted, start, left, left, tempr);
          SplitKept(h, attr, parted, sorted, start, left, right + 1, left, tempr);
          SplitKept(h, attr, parted, sorted, left, tempr, right + 1, left, tempr);
          SplitKept(h, attr, parted, sorted, left, tempr + 1, right + 1, left, tempr);
          RearrangedTrans(before, parted, sorted, start, left, tempr, right + 1);
        }
        PieceSorted(h, attr, nodes[..], start, left, tempr, right + 1);
        left := tempr + 1;
        if right <= left {
          break;
        }
      }
      LastSorted(h, attr, nodes[..], start, left, right + 1);
    }
  }

  lemma RearrangedSelf(s: seq<Ptr>, lo: nat, hi: nat)
    requires lo <= hi <= |s|
    ensures Rearranged(s, s, lo, hi)
  {
  }

  lemma EmptyBefore(h: Heap, attr: Option<Str>, s: seq<Ptr>, lo: nat, hi: nat)
    requires lo <= hi <= |s|
    ensures Sorted(h, attr, s, lo, lo) && Split(h, attr, s, lo, lo, hi)
  {
  }

  // Sorted up to `left`, and from there to the pivot, is sorted up to and with the pivot.
  lemma PieceSorted(h: Heap, attr: Option<Str>, s: seq<Ptr>, lo: nat, left: nat, p: nat, hi: nat)
    requires lo <= left <= p < hi <= |s|
    requires Sorted(h, attr, s, lo, left) && Split(h, attr, s, lo, left, hi)
    requires Sorted(h, attr, s, left, p) || p <= left + 1
    requires Split(h, attr, s, left, p, hi) && Split(h, attr, s, left, p + 1, hi)
    ensures Sorted(h, attr, s, lo, p + 1) && Split(h, attr, s, lo, p + 1, hi)
  {
    hide Leq;
  }

  lemma LastSorted(h: Heap, attr: Option<Str>, s: seq<Ptr>, lo: nat, left: nat, hi: nat)
    requires lo <= left <= hi <= |s| && hi <= left + 1
    requires Sorted(h, attr, s, lo, left) && Split(h, attr, s, lo, left, hi)
    ensures Sorted(h, attr, s, lo, hi)
  {
    hide Leq;
  }

  // ---- queries of a sorted index ----

  function QuerySigns(h: Heap, attr: Option<Str>, s: seq<Ptr>, element: Option<Str>, value: Option<Str>): (sg: Signs)
    requires AllIndexable(h, attr, s) && (value.Some? ==> attr.Some?)
    ensures |sg| == |s|
    ensures forall i :: 0 <= i < |s| ==> sg[i] == CompareQuery(h, attr, element, value, s[i])
  {
    seq(|s|, i requires 0 <= i < |s| => CompareQuery(h, attr, element, value, s[i]))
  }

  // Along an order of nodes, the comparisons with a named element only go down.
  lemma QueryDescends(h: Heap, attr: Option<Str>, element: Str, value: Option<Str>, x: Ptr, y: Ptr)
    requires Leq(h, attr, x, y) && (value.Some? ==> attr.Some?)
    ensures var dx, dy := CompareQuery(h, attr, Some(element), value, x), CompareQuery(h, attr, Some(element), value, y);
            (dx < 0 ==> dy < 0) && (dy > 0 ==> dx > 0)
  {
    hide StrCmp;
    CmpDescends(element, h[x].v.name, h[y].v.name);
    if value.Some? {
      CmpDescends(value.value, AttrOf(h, attr.value, x), AttrOf(h, attr.value, y));
    }
  }

  lemma CmpDescends(q: Str, a: Str, b: Str)
    ensures StrCmp(a, b) <= 0 && StrCmp(q, a) < 0 ==> StrCmp(q, b) < 0
    ensures StrCmp(a, b) <= 0 && StrCmp(q, b) > 0 ==> StrCmp(q, a) > 0
    ensures StrCmp(a, b) < 0 && StrCmp(q, a) <= 0 ==> StrCmp(q, b) < 0
    ensures StrCmp(a, b) < 0 && StrCmp(q, b) >= 0 ==> StrCmp(q, a) > 0
    ensures StrCmp(a, b) == 0 <==> a == b
    ensures StrCmp(q, a) == 0 <==> q == a
    ensures StrCmp(q, b) == 0 <==> q == b
  {
    hide StrCmp;
    StrCmpEqual(q, a);
    StrCmpEqual(q, b);
    StrCmpEqual(a, b);
    if StrCmp(a, b) <= 0 && StrCmp(q, a) <= 0 {
      StrCmpTrans(q, a, b);
    }
    if StrCmp(a, b) <= 0 && StrCmp(q, b) >= 0 {
      StrCmpTrans(a, b, q);
    }
  }

  /** What a query asks of a node of the index: this name, if one is given, and the first attribute of the
    * indexed name with this value, if one is given. */
  ghost predicate Answers(v: Value, attr: Option<Str>, element: Option<Str>, value: Option<Str>)
    requires value.Some? ==> attr.Some?
  {
    && v.Element?
    && (element.Some? ==> v.name == element.value)
    && (value.Some? ==> exists j :: Carries(v.attrs, attr.value, value, j))
  }

  /** The comparison of a query with a node is zero exactly if the node answers the query. */
  lemma QueryMeans(h: Heap, attr: Option<Str>, element: Option<Str>, value: Option<Str>, x: Ptr)
    requires Indexable(h, attr, x) && (value.Some? ==> attr.Some?)
    ensures CompareQuery(h, attr, element, value, x) == 0 <==> Answers(h[x].v, attr, element, value)
  {
    hide StrCmp, GetAttr, Carries;
    if element.Some? {
      StrCmpEqual(element.value, h[x].v.name);
    }
    if value.Some? {
      StrCmpEqual(value.value, AttrOf(h, attr.value, x));
      GetAttrMeans(h[x].v.attrs, attr.value, value);
    }
  }

  /** The positions of the nodes that answer a query, from one on. */
  ghost function Matching(h: Heap, attr: Option<Str>, s: seq<Ptr>, element: Option<Str>, value: Option<Str>, i: nat): seq<nat>
    requires AllIndexable(h, attr, s) && (value.Some? ==> attr.Some?)
    decreases |s| - i
  {
    if i >= |s| then []
    else (if Answers(h[s[i]].v, attr, element, value) then [i] else []) + Matching(h, attr, s, element, value, i + 1)
  }

  lemma {:induction false} MatchesAreZeros(h: Heap, attr: Option<Str>, s: seq<Ptr>, element: Option<Str>,
                                           value: Option<Str>, i: nat)
    requires AllIndexable(h, attr, s) && (value.Some? ==> attr.Some?)
    ensures Zeros(QuerySigns(h, attr, s, element, value), i) == Matching(h, attr, s, element, value, i)
    decreases |s| - i
  {
    hide CompareQuery, Indexable, Answers;
    if i < |s| {
      QueryMeans(h, attr, element, value, s[i]);
      MatchesAreZeros(h, attr, s, element, value, i + 1);
    }
  }

  /** A query of an index answers every node that matches, once and in index order, and then nothing. */
  ghost predicate AnswersAll(h: Heap, attr: Option<Str>, s: seq<Ptr>, element: Option<Str>, value: Option<Str>)
    requires AllIndexable(h, attr, s) && (value.Some? ==> attr.Some?)
  {
    forall k: nat ::
      IndexSearch.Answers(QuerySigns(h, attr, s, element, value), 0, k) == Padded(Matching(h, attr, s, element, value, 0), k)
  }

  lemma CorrectAnswersAll(h: Heap, attr: Option<Str>, s: seq<Ptr>, element: Option<Str>, value: Option<Str>)
    requires AllIndexable(h, attr, s) && (value.Some? ==> attr.Some?)
    ensures Correct(QuerySigns(h, attr, s, element, value)) <==> AnswersAll(h, attr, s, element, value)
  {
    hide Indexable, IndexSearch.Answers, Padded, Zeros, QuerySigns, Matching;
    MatchesAreZeros(h, attr, s, element, value, 0);
  }

  /** After a reset of a sorted index, repeated finds by element name, with or without a value, answer
    * exactly the matching nodes, in index order, each once, and then nothing. */
  lemma FindByElement(h: Heap, attr: Option<Str>, s: seq<Ptr>, element: Str, value: Option<Str>)
    requires AllIndexable(h, attr, s) && (value.Some? ==> attr.Some?)
    requires Sorted(h, attr, s, 0, |s|)
    ensures AnswersAll(h, attr, s, Some(element), value)
  {
    QuerySorted(h, attr, s, element, value);
    CorrectAnswersAll(h, attr, s, Some(element), value);
  }

  lemma QuerySorted(h: Heap, attr: Option<Str>, s: seq<Ptr>, element: Str, value: Option<Str>)
    requires AllIndexable(h, attr, s) && (value.Some? ==> attr.Some?)
    requires Sorted(h, attr, s, 0, |s|)
    ensures Correct(QuerySigns(h, attr, s, Some(element), value))
  {
    hide Indexable, CompareQuery, Leq, Correct;
    var sg := QuerySigns(h, attr, s, Some(element), value);
    forall i, j | 0 <= i < j < |sg|
      ensures (sg[i] < 0 ==> sg[j] < 0) && (sg[j] > 0 ==> sg[i] > 0)
    {
      QueryDescends(h, attr, element, value, s[i], s[j]);
    }
    SortedIsCorrect(sg);
  }

  function Values(h: Heap, attr: Str, s: seq<Ptr>): (vals: seq<Str>)
    requires AllIndexable(h, Some(attr), s)
    ensures |vals| == |s|
    ensures forall i :: 0 <= i < |s| ==> vals[i] == AttrOf(h, attr, s[i])
  {
    seq(|s|, i requires 0 <= i < |s| => AttrOf(h, attr, s[i]))
  }

  /** By value alone, finds answer exactly the matching nodes for every value if and only if the index has
    * at most two nodes or its attribute values are in order. */
  lemma FindByValue(h: Heap, attr: Str, s: seq<Ptr>)
    requires AllIndexable(h, Some(attr), s)
    ensures (forall v :: AnswersAll(h, Some(attr), s, None, Some(v))) <==> |s| <= 2 || InOrder(Values(h, attr, s))
  {
    hide StrCmp, Correct, InOrder, Indexable, AnswersAll;
    var vals := Values(h, attr, s);
    ValueOnly(vals);
    forall v ensures Correct(ValueSigns(vals, v)) <==> AnswersAll(h, Some(attr), s, None, Some(v)) {
      assert QuerySigns(h, Some(attr), s, None, Some(v)) == ValueSigns(vals, v);
      CorrectAnswersAll(h, Some(attr), s, None, Some(v));
    }
  }

  /** Along a sorted index the element names ascend, and where they agree the attribute values do. */
  lemma SortedAscends(h: Heap, attr: Option<Str>, s: seq<Ptr>, i: nat)
    requires AllIndexable(h, attr, s) && Sorted(h, attr, s, 0, |s|) && i + 1 < |s|
    ensures var v, w := h[s[i]].v, h[s[i + 1]].v;
            Precedes(v.name, w.name) || v.name == w.name
    ensures var v, w := h[s[i]].v, h[s[i + 1]].v;
            v.name == w.name && attr.Some? ==>
              exists a: Str, b: Str ::
                && (a == b || Precedes(a, b))
                && (exists j :: Carries(v.attrs, attr.value, Some(a), j))
                && (exists j :: Carries(w.attrs, attr.value, Some(b), j))
  {
    hide StrCmp, GetAttr, Carries, Precedes;
    assert Leq(h, attr, s[i], s[i + 1]);
    var v, w := h[s[i]].v, h[s[i + 1]].v;
    StrCmpMeans(v.name, w.name);
    if attr.Some? {
      var a, b := GetAttr(v.attrs, attr.value), GetAttr(w.attrs, attr.value);
      StrCmpMeans(a.value, b.value);
      GetAttrMeans(v.attrs, attr.value, a);
      GetAttrMeans(w.attrs, attr.value, b);
    }
  }

  // ---- building an index ----

  /** The wanted nodes of a list, in order. */
  function Select(h: Heap, l: seq<Ptr>, element: Option<Str>, attr: Option<Str>): seq<Ptr>
    requires forall x :: x in l ==> x in h
  {
    if l == [] then []
    else if Wanted(h[l[0]].v, element, attr, None) then [l[0]] + Select(h, l[1..], element, attr)
    else Select(h, l[1..], element, attr)
  }

  lemma {:induction false} SelectIndexable(h: Heap, l: seq<Ptr>, element: Option<Str>, attr: Option<Str>)
    requires forall x :: x in l ==> x in h
    ensures AllIndexable(h, attr, Select(h, l, element, attr))
  {
    if l != [] {
      SelectIndexable(h, l[1..], element, attr);
    }
  }

  // The first wanted node of a list is the first selected one; the search goes on behind it.
  lemma {:induction false} SelectFirst(h: Heap, l: seq<Ptr>, i: nat, element: Option<Str>, attr: Option<Str>) returns (j: nat)
    requires i <= |l| && NULL !in l && forall x :: x in l ==> x in h
    ensures var r := FirstWanted(h, l[i..], element, attr, None);
            && (r == NULL ==> Select(h, l[i..], element, attr) == [])
            && (r != NULL ==>
                  && i <= j < |l| && l[j] == r
                  && Select(h, l[i..], element, attr) == [r] + Select(h, l[j + 1..], element, attr))
    decreases |l| - i
  {
    hide Wanted;
    FirstWantedStep(h, l, i, element, attr, None);
    j := i;
    if i < |l| {
      assert l[i..][1..] == l[i + 1..];
      if !Wanted(h[l[i]].v, element, attr, None) {
        j := SelectFirst(h, l, i + 1, element, attr);
      }
    }
  }

  /** What an index of the nodes below `top` holds: the wanted elements in document order; without any
    * criterion, `top` itself and all elements. */
  function Indexed(h: Heap, f: Forest, top: Ptr, element: Option<Str>, attr: Option<Str>): seq<Ptr>
    requires forall x :: x in PreOrder(f) ==> x in h
  {
    (if element.None? && attr.None? then [top] else []) + Select(h, PreOrder(f), element, attr)
  }

  /** The search loop has these nodes and stands at the i-th one below `top`, or is through. */
  ghost predicate Gathering(h: Heap, f: Forest, top: Ptr, element: Option<Str>, attr: Option<Str>, found: seq<Ptr>,
                            current: Ptr, i: int)
    requires forall x :: x in PreOrder(f) ==> x in h
  {
    && -1 <= i < |PreOrder(f)|
    && if current == NULL then found == Indexed(h, f, top, element, attr)
       else
         && Below(h, f, top, current, i)
         && Indexed(h, f, top, element, attr) == found + ([current] + Select(h, PreOrder(f)[i + 1..], element, attr))
  }

  /** This is the first wanted element below `top` after the i-th node. */
  ghost predicate NextIs(h: Heap, f: Forest, top: Ptr, element: Option<Str>, attr: Option<Str>, i: int, next: Ptr) {
    && -1 <= i < |PreOrder(f)|
    && (forall x :: x in Range(f, i, top, Descend) ==> x in h)
    && next == FirstWanted(h, Range(f, i, top, Descend), element, attr, None)
  }

  // The loop of mxmlIndexNew, up to the sort.
  method Gather(h: Heap, top: Ptr, element: Option<Str>, attr: Option<Str>, ghost f: Forest) returns (found: seq<Ptr>)
    requires Below(h, f, top, top, -1) && forall x :: x in PreOrder(f) ==> x in h
    ensures found == Indexed(h, f, top, element, attr)
  {
    hide Below, Outside, PreOrder, Indexed, Gathering, Wanted, FirstWanted, Range;
    found := [];
    StandsInHeap(h, f, top, top, -1);
    var current := top;
    ghost var i := -1;
    if element.Some? || attr.Some? {
      current := FindElement(h, top, top, element, attr, None, Descend, f, -1);
    }
    i := GatherStart(h, f, top, element, attr, current);
    while current != NULL
      invariant Gathering(h, f, top, element, attr, found, current, i)
      decreases if current == NULL then 0 else |PreOrder(f)| + 1 - i
    {
      GatherBounds(h, f, top, element, attr, found, current, i);
      ghost var before, node, at := found, current, i;
      found := found + [current];
      current := FindElement(h, current, top, element, attr, None, Descend, f, i);
      i := GatherNext(h, f, top, element, attr, before, node, at, current);
    }
    GatherBounds(h, f, top, element, attr, found, current, i);
  }

  lemma GatherBounds(h: Heap, f: Forest, top: Ptr, element: Option<Str>, attr: Option<Str>, found: seq<Ptr>, current: Ptr, i: int)
    requires forall x :: x in PreOrder(f) ==> x in h
    requires Gathering(h, f, top, element, attr, found, current, i)
    ensures -1 <= i < |PreOrder(f)|
    ensures if current == NULL then found == Indexed(h, f, top, element, attr) else Below(h, f, top, current, i)
  {
    hide Below, PreOrder, Indexed, Select;
  }

  lemma GatherStart(h: Heap, f: Forest, top: Ptr, element: Option<Str>, attr: Option<Str>, current: Ptr) returns (i: int)
    requires Below(h, f, top, top, -1) && forall x :: x in PreOrder(f) ==> x in h
    requires if element.None? && attr.None? then current == top
             else NextIs(h, f, top, element, attr, -1, current)
    ensures Gathering(h, f, top, element, attr, [], current, i)
  {
    hide Below, PreOrder, Select, FirstWanted, Range;
    StandsInHeap(h, f, top, top, -1);
    assert PreOrder(f)[0..] == PreOrder(f);
    i := -1;
    if element.Some? || attr.Some? {
      i := NextFound(h, f, top, top, -1, element, attr, current);
    }
  }

  lemma GatherNext(h: Heap, f: Forest, top: Ptr, element: Option<Str>, attr: Option<Str>, found: seq<Ptr>, current: Ptr, i: int,
                   next: Ptr) returns (j: int)
    requires forall x :: x in PreOrder(f) ==> x in h
    requires current != NULL && Gathering(h, f, top, element, attr, found, current, i)
    requires NextIs(h, f, top, element, attr, i, next)
    ensures Gathering(h, f, top, element, attr, found + [current], next, j) && (next != NULL ==> i < j)
  {
    hide Below, PreOrder, Select, FirstWanted, Range, Indexed;
    j := NextFound(h, f, top, current, i, element, attr, next);
  }

  // From one search to the next.
  lemma NextFound(h: Heap, f: Forest, top: Ptr, node: Ptr, i: int, element: Option<Str>, attr: Option<Str>, next: Ptr)
    returns (j: int)
    requires Below(h, f, top, node, i) && forall x :: x in PreOrder(f) ==> x in h
    requires next == FirstWanted(h, Range(f, i, top, Descend), element, attr, None)
    ensures -1 <= j < |PreOrder(f)|
    ensures next == NULL ==> Select(h, PreOrder(f)[i + 1..], element, attr) == []
    ensures next != NULL ==>
              && i < j && Below(h, f, top, next, j)
              && Select(h, PreOrder(f)[i + 1..], element, attr) == [next] + Select(h, PreOrder(f)[j + 1..], element, attr)
  {
    hide Below, PreOrder, Select, Wanted, FirstWanted;
    StandsInHeap(h, f, top, node, i);
    RangeBelow(h, f, top, node, i);
    j := SelectFirst(h, PreOrder(f), i + 1, element, attr);
    if next == NULL {
      j := i;
    }
  }

  lemma {:induction false} SelectNoDup(h: Heap, l: seq<Ptr>, element: Option<Str>, attr: Option<Str>)
    requires NoDup(l) && forall x :: x in l ==> x in h
    ensures var s := Select(h, l, element, attr); NoDup(s) && forall x :: x in s ==> x in l
  {
    hide Wanted;
    if l != [] {
      SelectNoDup(h, l[1..], element, attr);
      assert l[0] !in l[1..];
      NoDupJoin([l[0]], Select(h, l[1..], element, attr));
    }
  }

  lemma IndexedNoDup(h: Heap, f: Forest, top: Ptr, element: Option<Str>, attr: Option<Str>)
    requires Below(h, f, top, top, -1) && forall x :: x in PreOrder(f) ==> x in h
    ensures NoDup(Indexed(h, f, top, element, attr))
  {
    hide Select, Distinct, PreOrder, Chained;
    ChainedDistinct(h, f, top);
    PreOrderNoDup(f);
    PreOrderIds(f);
    SelectNoDup(h, PreOrder(f), element, attr);
  }

  lemma NoDupKept(s: seq<Ptr>, t: seq<Ptr>)
    requires NoDup(s) && multiset(t) == multiset(s)
    ensures NoDup(t)
  {
    forall i, j | 0 <= i < j < |t|
      ensures t[i] != t[j]
    {
      if t[i] == t[j] {
        CountTwice(t, i, j);
        CountOnce(s, t[i]);
      }
    }
  }

  lemma CountTwice(s: seq<Ptr>, i: nat, j: nat)
    requires i < j < |s| && s[i] == s[j]
    ensures multiset(s)[s[i]] >= 2
  {
    assert s == s[..j] + [s[j]] + s[j + 1..];
    assert s[..j][i] == s[i];
    assert s[i] in multiset(s[..j]);
  }

  lemma {:induction false} CountOnce(s: seq<Ptr>, x: Ptr)
    requires NoDup(s)
    ensures multiset(s)[x] <= 1
  {
    if s != [] {
      CountOnce(s[1..], x);
      assert s == [s[0]] + s[1..];
    }
  }

  /** mxmlIndexNew: the wanted elements below a node, each once, sorted. */
  method IndexNew(h: Heap, top: Ptr, element: Option<Str>, attr: Option<Str>, ghost f: Forest) returns (ind: Index)
    requires Below(h, f, top, top, -1) && forall x :: x in PreOrder(f) ==> x in h
    requires element.None? && attr.None? ==> h[top].v.Element?
    ensures fresh(ind) && fresh(ind.nodes) && ind.Valid() && ind.h == h && ind.attr == attr && ind.curNode == 0
    ensures multiset(ind.nodes[..]) == multiset(Indexed(h, f, top, element, attr)) && NoDup(ind.nodes[..])
    ensures forall x :: x in ind.nodes[..] <==> Belongs(h, f, top, element, attr, x)
    ensures Sorted(h, attr, ind.nodes[..], 0, ind.nodes.Length)
  {
    hide Select, Leq, Indexable, PreOrder, Indexed, NoDup, Rearranged, Belongs;
    var found := Gather(h, top, element, attr, f);
    IndexedIndexable(h, f, top, element, attr);
    IndexedNoDup(h, f, top, element, attr);
    ind := new Index(h, attr, found);
    if |found| > 1 {
      ind.IndexSort(0, |found| - 1);
      RearrangedMultiset(found, ind.nodes[..], 0, |found|);
    }
    NoDupKept(found, ind.nodes[..]);
    IndexedMeans(h, f, top, element, attr);
    assert forall x :: x in ind.nodes[..] <==> x in multiset(ind.nodes[..]);
    assert forall x :: x in found <==> x in multiset(found);
  }

  /** What is in an index: an element below `top` with the name and with the attribute given, or, with neither
    * of them given, `top` itself. */
  ghost predicate Belongs(h: Heap, f: Forest, top: Ptr, element: Option<Str>, attr: Option<Str>, x: Ptr) {
    || (x == top && element.None? && attr.None?)
    || (x in PreOrder(f) && x in h && Matches(h[x].v, element, attr, None))
  }

  lemma IndexedMeans(h: Heap, f: Forest, top: Ptr, element: Option<Str>, attr: Option<Str>)
    requires forall x :: x in PreOrder(f) ==> x in h
    ensures forall x :: x in Indexed(h, f, top, element, attr) <==> Belongs(h, f, top, element, attr, x)
  {
    hide Matches, Select;
    forall x {
      SelectMeans(h, PreOrder(f), element, attr, x);
    }
  }

  lemma {:induction false} SelectMeans(h: Heap, l: seq<Ptr>, element: Option<Str>, attr: Option<Str>, x: Ptr)
    requires forall y :: y in l ==> y in h
    ensures x in Select(h, l, element, attr) <==> x in l && Matches(h[x].v, element, attr, None)
  {
    hide Matches, Wanted;
    if l != [] {
      WantedMeans(h[l[0]].v, element, attr, None);
      SelectMeans(h, l[1..], element, attr, x);
    }
  }

  lemma RearrangedMultiset(s: seq<Ptr>, s': seq<Ptr>, lo: nat, hi: nat)
    requires Rearranged(s, s', lo, hi)
    ensures multiset(s') == multiset(s)
  {
  }

  lemma IndexedIndexable(h: Heap, f: Forest, top: Ptr, element: Option<Str>, attr: Option<Str>)
    requires Below(h, f, top, top, -1) && forall x :: x in PreOrder(f) ==> x in h
    requires element.None? && attr.None? ==> h[top].v.Element?
    ensures AllIndexable(h, attr, Indexed(h, f, top, element, attr))
  {
    hide Select, PreOrder;
    SelectIndexable(h, PreOrder(f), element, attr);
  }

  // ---- a value that is not found ----

  function Holding(name: Str, attr: Str, value: Str): Node {
    Node(Element(name, [Attr(attr, Some(value))]), NULL, NULL, NULL, NULL, NULL, 1)
  }

  /** A sorted index of elements a, a and b with the values 2, 3 and 1: searched by value alone, the value 1
    * is not found. */
  lemma ValueNotFound(attr: Str) returns (h: Heap, s: seq<Ptr>)
    ensures AllIndexable(h, Some(attr), s) && |s| == 3 && Sorted(h, Some(attr), s, 0, 3)
    ensures h[s[2]].v == Element([98], [Attr(attr, Some([49]))])
    ensures !AnswersAll(h, Some(attr), s, None, Some([49]))
  {
    hide Correct;
    h := map[1 := Holding([97], attr, [50]), 2 := Holding([97], attr, [51]), 3 := Holding([98], attr, [49])];
    s := [1, 2, 3];
    var vals: seq<Str> := [[50], [51], [49]];
    assert Values(h, attr, s) == vals;
    assert QuerySigns(h, Some(attr), s, None, Some([49])) == ValueSigns(vals, [49]);
    MixedNamesFail();
    CorrectAnswersAll(h, Some(attr), s, None, Some([49]));
  }
}
