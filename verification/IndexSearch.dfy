/** The cursor search of mxmlIndexFind, seen only through the signs of its comparisons: what it answers
    over repeated calls, and exactly when that is all the matches in order. */
module IndexSearch {
  import opened XmlTree

  // The comparison of the query with each node of the index: 0 for a match.
  type Signs = seq<int>

  // ---- the search ----

  // Back from a match to the first one of its run.
  function Back(sg: Signs, c: nat): (r: nat)
    requires c < |sg|
    ensures r <= c
  {
    if c > 0 && sg[c - 1] == 0 then Back(sg, c - 1) else c
  }

  // The first match in [f, l], |sg| if there is none.
  function Scan(sg: Signs, f: nat, l: nat): (r: nat)
    requires l < |sg|
    ensures r <= |sg|
    decreases l + 1 - f
  {
    if f > l then |sg| else if sg[f] == 0 then f else Scan(sg, f + 1, l)
  }

  // The halving search; it probes strictly inside the range and scans what is left of it.
  function Search(sg: Signs, f: nat, l: nat): (r: nat)
    requires f <= l < |sg|
    ensures r <= |sg|
    decreases l - f
  {
    if l - f > 1 then
      var c := (f + l) / 2;
      if sg[c] == 0 then Back(sg, c)
      else if sg[c] < 0 then Search(sg, f, c)
      else Search(sg, c, l)
    else Scan(sg, f, l)
  }

  datatype Answer = Answer(at: Option<nat>, cur: nat)

  // One call: the position returned, if any, and the new cursor.
  function Find(sg: Signs, cur: nat): Answer {
    if |sg| == 0 then Answer(None, cur)
    else if cur == 0 then
      var r := Search(sg, 0, |sg| - 1);
      if r < |sg| then Answer(Some(r), r + 1) else Answer(None, |sg|)
    else if cur < |sg| && sg[cur] == 0 then Answer(Some(cur), cur + 1)
    else Answer(None, |sg|)
  }

  // The answers of k calls in a row.
  function Answers(sg: Signs, cur: nat, k: nat): (r: seq<Option<nat>>)
    ensures |r| == k
    decreases k
  {
    if k == 0 then []
    else
      var a := Find(sg, cur);
      [a.at] + Answers(sg, a.cur, k - 1)
  }

  // ---- what it should answer ----

  // The matches from position i on, in order.
  function Zeros(sg: Signs, i: nat): seq<nat>
    decreases |sg| - i
  {
    if i >= |sg| then [] else if sg[i] == 0 then [i] + Zeros(sg, i + 1) else Zeros(sg, i + 1)
  }

  function Padded(l: seq<nat>, k: nat): (r: seq<Option<nat>>)
    ensures |r| == k
  {
    if k == 0 then [] else if l == [] then [None] + Padded(l, k - 1) else [Some(l[0])] + Padded(l[1..], k - 1)
  }

  /** However often it is called after a reset: every match once, in index order, then nothing. */
  ghost predicate Correct(sg: Signs) {
    forall k: nat :: Answers(sg, 0, k) == Padded(Zeros(sg, 0), k)
  }

  /** The matches are next to each other, and the search finds the first one. */
  predicate Contiguous(sg: Signs) {
    forall i, j, k :: 0 <= i < j < k < |sg| && sg[i] == 0 && sg[k] == 0 ==> sg[j] == 0
  }

  predicate HasMatch(sg: Signs) {
    exists i :: 0 <= i < |sg| && sg[i] == 0
  }

  predicate FirstMatch(sg: Signs, r: nat) {
    r < |sg| && sg[r] == 0 && forall i :: 0 <= i < r ==> sg[i] != 0
  }

  // ---- answers from the cursor on ----

  lemma {:induction false} ZerosNone(sg: Signs, i: nat)
    requires forall j :: i <= j < |sg| ==> sg[j] != 0
    ensures Zeros(sg, i) == []
    decreases |sg| - i
  {
    if i < |sg| {
      ZerosNone(sg, i + 1);
    }
  }

  lemma {:induction false} ZerosSkip(sg: Signs, i: nat, r: nat)
    requires i <= r < |sg| && sg[r] == 0 && forall j :: i <= j < r ==> sg[j] != 0
    ensures Zeros(sg, i) == [r] + Zeros(sg, r + 1)
    decreases r - i
  {
    if i < r {
      ZerosSkip(sg, i + 1, r);
    }
  }

  lemma {:induction false} AnswersDone(sg: Signs, k: nat)
    requires |sg| > 0
    ensures Answers(sg, |sg|, k) == Padded([], k)
  {
    if k > 0 {
      AnswersDone(sg, k - 1);
    }
  }

  // Once the cursor stands inside or just after a run of matches, the calls enumerate the rest of it.
  lemma {:induction false} AnswersFrom(sg: Signs, cur: nat, k: nat)
    requires 0 < cur <= |sg| && Contiguous(sg) && sg[cur - 1] == 0
    ensures Answers(sg, cur, k) == Padded(Zeros(sg, cur), k)
    decreases k
  {
    if k > 0 {
      if cur < |sg| && sg[cur] == 0 {
        AnswersFrom(sg, cur + 1, k - 1);
        assert Zeros(sg, cur)[1..] == Zeros(sg, cur + 1);
      } else {
        ZerosNone(sg, cur);
        AnswersDone(sg, k - 1);
      }
    }
  }

  // Finding the first match of contiguous ones, or none when there is none, is enough.
  lemma FirstIsEnough(sg: Signs)
    requires Contiguous(sg)
    requires |sg| > 0 ==> var r := Search(sg, 0, |sg| - 1); if HasMatch(sg) then FirstMatch(sg, r) else r == |sg|
    ensures Correct(sg)
  {
    hide Search, Contiguous, HasMatch, FirstMatch, Answers, Padded, Zeros;
    forall k: nat ensures Answers(sg, 0, k) == Padded(Zeros(sg, 0), k) {
      if |sg| == 0 {
        ZerosNone(sg, 0);
        AnswersEmpty(sg, k);
      } else {
        AnswersStart(sg, k);
      }
    }
  }

  lemma AnswersStart(sg: Signs, k: nat)
    requires Contiguous(sg) && |sg| > 0
    requires var r := Search(sg, 0, |sg| - 1); if HasMatch(sg) then FirstMatch(sg, r) else r == |sg|
    ensures Answers(sg, 0, k) == Padded(Zeros(sg, 0), k)
  {
    hide Search, Contiguous;
    if k > 0 {
      var r := Search(sg, 0, |sg| - 1);
      if HasMatch(sg) {
        ZerosSkip(sg, 0, r);
        AnswersFrom(sg, r + 1, k - 1);
        assert Zeros(sg, 0)[1..] == Zeros(sg, r + 1);
      } else {
        ZerosNone(sg, 0);
        AnswersDone(sg, k - 1);
      }
    }
  }

  lemma {:induction false} AnswersEmpty(sg: Signs, k: nat)
    requires |sg| == 0
    ensures Answers(sg, 0, k) == Padded([], k)
  {
    if k > 0 {
      AnswersEmpty(sg, k - 1);
    }
  }

  // ---- sorted comparisons ----

  /** The comparisons only go down along the index, as they do when it is sorted by what is asked for. */
  predicate Descending(sg: Signs) {
    forall i, j :: 0 <= i < j < |sg| ==> (sg[i] < 0 ==> sg[j] < 0) && (sg[j] > 0 ==> sg[i] > 0)
  }

  lemma {:induction false} BackMeans(sg: Signs, c: nat)
    requires c < |sg| && sg[c] == 0
    ensures var r := Back(sg, c);
            sg[r] == 0 && (r > 0 ==> sg[r - 1] != 0) && forall i :: r <= i <= c ==> sg[i] == 0
  {
    if c > 0 && sg[c - 1] == 0 {
      BackMeans(sg, c - 1);
    }
  }

  lemma {:induction false} ScanMeans(sg: Signs, f: nat, l: nat)
    requires l < |sg|
    ensures var r := Scan(sg, f, l);
            && (r < |sg| ==> f <= r <= l && sg[r] == 0 && forall i :: f <= i < r ==> sg[i] != 0)
            && (r == |sg| ==> forall i :: f <= i <= l ==> sg[i] != 0)
    decreases l + 1 - f
  {
    if f <= l && sg[f] != 0 {
      ScanMeans(sg, f + 1, l);
    }
  }

  lemma {:induction false} SearchMeans(sg: Signs, f: nat, l: nat)
    requires Descending(sg) && f <= l < |sg|
    requires forall i :: (0 <= i < f || l < i < |sg|) ==> sg[i] != 0
    ensures var r := Search(sg, f, l); if HasMatch(sg) then FirstMatch(sg, r) else r == |sg|
    decreases l - f
  {
    if l - f > 1 {
      var c := (f + l) / 2;
      if sg[c] == 0 {
        BackMeans(sg, c);
      } else if sg[c] < 0 {
        SearchMeans(sg, f, c);
      } else {
        SearchMeans(sg, c, l);
      }
    } else {
      ScanMeans(sg, f, l);
    }
  }

  /** Along sorted comparisons, and along any at most two, the answers are exactly the matches. */
  lemma SortedIsCorrect(sg: Signs)
    requires Descending(sg) || |sg| <= 2
    ensures Correct(sg)
  {
    if |sg| > 0 {
      if |sg| <= 2 {
        ScanMeans(sg, 0, |sg| - 1);
      } else {
        SearchMeans(sg, 0, |sg| - 1);
      }
    }
    FirstIsEnough(sg);
  }

  // ---- conversely ----

  lemma {:induction false} ZerosContains(sg: Signs, i: nat, r: nat)
    requires i <= r < |sg| && sg[r] == 0
    ensures r in Zeros(sg, i)
    decreases r - i
  {
    if i < r {
      ZerosContains(sg, i + 1, r);
    }
  }

  // A correct search finds the first match.
  lemma CorrectFirst(sg: Signs)
    requires Correct(sg) && HasMatch(sg)
    ensures FirstMatch(sg, Search(sg, 0, |sg| - 1))
  {
    var i := LeastMatch(sg, 0);
    ZerosSkip(sg, 0, i);
    assert Answers(sg, 0, 1) == Padded(Zeros(sg, 0), 1);
    assert Answers(sg, 0, 1)[0] == Find(sg, 0).at;
    assert Padded(Zeros(sg, 0), 1)[0] == Some(i);
  }

  lemma {:induction false} LeastMatch(sg: Signs, i: nat) returns (r: nat)
    requires exists j :: i <= j < |sg| && sg[j] == 0
    ensures i <= r < |sg| && sg[r] == 0 && forall j :: i <= j < r ==> sg[j] != 0
    decreases |sg| - i
  {
    if sg[i] == 0 {
      r := i;
    } else {
      r := LeastMatch(sg, i + 1);
    }
  }

  // After a gap the calls answer nothing, so a correct search has no gap.
  lemma {:induction false} AnswersStop(sg: Signs, cur: nat, j: nat, k: nat)
    requires 0 < cur <= j < |sg| && sg[j] != 0
    ensures forall m :: 0 <= m < k && Answers(sg, cur, k)[m].Some? ==> Answers(sg, cur, k)[m].value < j
    decreases k
  {
    if k > 0 {
      if sg[cur] == 0 {
        AnswersStop(sg, cur + 1, j, k - 1);
      } else {
        AnswersDone(sg, k - 1);
        PaddedNone(k - 1);
      }
    }
  }

  lemma {:induction false} PaddedNone(k: nat)
    ensures forall m :: 0 <= m < k ==> Padded([], k)[m] == None
  {
    if k > 0 {
      PaddedNone(k - 1);
    }
  }

  lemma {:induction false} PaddedAll(l: seq<nat>, k: nat)
    requires k >= |l|
    ensures forall m :: 0 <= m < |l| ==> Padded(l, k)[m] == Some(l[m])
  {
    if l != [] {
      PaddedAll(l[1..], k - 1);
    }
  }

  lemma CorrectContiguous(sg: Signs)
    requires Correct(sg)
    ensures Contiguous(sg)
  {
    forall i, j, k | 0 <= i < j < k < |sg| && sg[i] == 0 && sg[k] == 0 ensures sg[j] == 0 {
      if sg[j] != 0 {
        CorrectFirst(sg);
        var r := Search(sg, 0, |sg| - 1);
        var zs := Zeros(sg, 0);
        ZerosContains(sg, 0, k);
        var m :| 0 <= m < |zs| && zs[m] == k;
        PaddedAll(zs, |zs|);
        assert Answers(sg, 0, |zs|)[m] == Some(k);
        assert Answers(sg, 0, |zs|) == [Some(r)] + Answers(sg, r + 1, |zs| - 1);
        AnswersStop(sg, r + 1, j, |zs| - 1);
      }
    }
  }

  // ---- the order of strings ----

  /** strcmp, as a sign: byte by byte, the shorter string first. */
  function StrCmp(a: Str, b: Str): int {
    if a == [] && b == [] then 0
    else if a == [] then -1
    else if b == [] then 1
    else if a[0] < b[0] then -1
    else if a[0] > b[0] then 1
    else StrCmp(a[1..], b[1..])
  }

  lemma {:induction false} StrCmpEqual(a: Str, b: Str)
    ensures StrCmp(a, b) == 0 <==> a == b
    ensures StrCmp(b, a) == -StrCmp(a, b)
  {
    if a != [] && b != [] && a[0] == b[0] {
      StrCmpEqual(a[1..], b[1..]);
      assert a == [a[0]] + a[1..] && b == [b[0]] + b[1..];
    }
  }

  /** One string comes before another in a dictionary of bytes: it is a prefix of it, or smaller at the first
    * place where they differ. */
  ghost predicate Precedes(a: Str, b: Str) {
    exists k :: DiffersAt(a, b, k)
  }

  predicate DiffersAt(a: Str, b: Str, k: nat) {
    k <= |a| && k < |b| && a[..k] == b[..k] && (k < |a| ==> a[k] < b[k])
  }

  /** strcmp is that order. */
  lemma {:induction false} StrCmpMeans(a: Str, b: Str)
    ensures StrCmp(a, b) < 0 <==> Precedes(a, b)
    ensures StrCmp(a, b) == 0 <==> a == b
  {
    StrCmpEqual(a, b);
    if b == [] {
    } else if a == [] || a[0] < b[0] {
      assert DiffersAt(a, b, 0);
    } else if a[0] == b[0] {
      StrCmpMeans(a[1..], b[1..]);
      forall k: nat ensures DiffersAt(a[1..], b[1..], k) <==> DiffersAt(a, b, k + 1) {
        DiffersNext(a, b, k);
      }
      if Precedes(a[1..], b[1..]) {
        var k: nat :| DiffersAt(a[1..], b[1..], k);
        assert DiffersAt(a, b, k + 1);
      }
      if Precedes(a, b) {
        var k: nat :| DiffersAt(a, b, k);
        assert k > 0 && DiffersAt(a[1..], b[1..], k - 1);
      }
    } else {
      forall k: nat ensures !DiffersAt(a, b, k) {
        if k > 0 && k <= |a| && k < |b| {
          assert a[..k][0] != b[..k][0];
        }
      }
    }
  }

  lemma DiffersNext(a: Str, b: Str, k: nat)
    requires a != [] && b != [] && a[0] == b[0]
    ensures DiffersAt(a[1..], b[1..], k) <==> DiffersAt(a, b, k + 1)
  {
    if k + 1 <= |a| && k + 1 < |b| {
      assert a[..k + 1] == [a[0]] + a[1..][..k] && b[..k + 1] == [b[0]] + b[1..][..k];
      assert a[1..][..k] == a[..k + 1][1..] && b[1..][..k] == b[..k + 1][1..];
    }
  }

  lemma {:induction false} StrCmpTrans(a: Str, b: Str, c: Str)
    requires StrCmp(a, b) <= 0 && StrCmp(b, c) <= 0
    ensures StrCmp(a, c) <= 0
    ensures StrCmp(a, b) < 0 || StrCmp(b, c) < 0 ==> StrCmp(a, c) < 0
  {
    if a != [] && b != [] && c != [] && a[0] == b[0] == c[0] {
      StrCmpTrans(a[1..], b[1..], c[1..]);
    }
  }

  // ---- searching by value alone ----

  /** The comparisons of a value with the values along the index. */
  function ValueSigns(vals: seq<Str>, v: Str): (sg: Signs)
    ensures |sg| == |vals|
    ensures forall i :: 0 <= i < |vals| ==> sg[i] == StrCmp(v, vals[i])
  {
    seq(|vals|, i requires 0 <= i < |vals| => StrCmp(v, vals[i]))
  }

  predicate InOrder(vals: seq<Str>) {
    forall i, j :: 0 <= i < j < |vals| ==> StrCmp(vals[i], vals[j]) <= 0
  }

  lemma InOrderDescends(vals: seq<Str>, v: Str)
    requires InOrder(vals)
    ensures Descending(ValueSigns(vals, v))
  {
    hide StrCmp;
    var sg := ValueSigns(vals, v);
    forall i, j | 0 <= i < j < |sg|
      ensures (sg[i] < 0 ==> sg[j] < 0) && (sg[j] > 0 ==> sg[i] > 0)
    {
      if sg[i] < 0 {
        StrCmpTrans(v, vals[i], vals[j]);
      }
      if sg[j] > 0 {
        StrCmpEqual(v, vals[j]);
        StrCmpEqual(v, vals[i]);
        StrCmpTrans(vals[i], vals[j], v);
      }
    }
  }

  // A search to the right of a probe that did not match stays there, and likewise to the left.
  lemma {:induction false} SearchStays(sg: Signs, f: nat, l: nat)
    requires f <= l < |sg|
    ensures var r := Search(sg, f, l);
            (sg[f] != 0 ==> r > f) && (sg[l] != 0 ==> r < l || r == |sg|)
    decreases l - f
  {
    if l - f > 1 {
      var c := (f + l) / 2;
      if sg[c] == 0 {
        BackMeans(sg, c);
      } else if sg[c] < 0 {
        SearchStays(sg, f, c);
      } else {
        SearchStays(sg, c, l);
      }
    } else {
      ScanMeans(sg, f, l);
    }
  }

  // A correct search for the value at position m has got as far as the range [f, l].
  predicate Arrives(vals: seq<Str>, m: nat, f: nat, l: nat)
    requires f <= l < |vals| && m < |vals|
  {
    var sg := ValueSigns(vals, vals[m]);
    && Contiguous(sg) && FirstMatch(sg, Search(sg, f, l))
    && (f > 0 ==> sg[f] != 0) && (l < |vals| - 1 ==> sg[l] != 0)
  }

  // What a probe says about the value looked for.
  lemma ProbeTells(vals: seq<Str>, m: nat, f: nat, l: nat)
    requires l - f > 1 && f <= m <= l < |vals| && Arrives(vals, m, f, l)
    ensures var c := (f + l) / 2;
            var d := StrCmp(vals[m], vals[c]);
            && (c <= m ==> d >= 0) && (m <= c ==> d <= 0)
            && (d > 0 ==> Arrives(vals, m, c, l)) && (d < 0 ==> Arrives(vals, m, f, c))
            && (d == 0 ==> forall k :: m <= k <= c || c <= k <= m ==> vals[k] == vals[m])
  {
    hide StrCmp;
    var c := (f + l) / 2;
    var sg := ValueSigns(vals, vals[m]);
    StrCmpEqual(vals[m], vals[m]);
    if sg[c] < 0 {
      SearchStays(sg, f, c);
    } else if sg[c] > 0 {
      SearchStays(sg, c, l);
    } else {
      forall k | m <= k <= c || c <= k <= m
        ensures vals[k] == vals[m]
      {
        StrCmpEqual(vals[m], vals[k]);
      }
    }
  }

  // The searches for two neighbouring values go the same way until a probe tells them apart.
  lemma {:induction false} NeighboursInOrder(vals: seq<Str>, f: nat, l: nat, i: nat)
    requires f <= i && i + 1 <= l < |vals| && |vals| > 2
    requires Arrives(vals, i, f, l) && Arrives(vals, i + 1, f, l)
    ensures StrCmp(vals[i], vals[i + 1]) <= 0
    decreases l - f
  {
    hide StrCmp, Arrives;
    StrCmpEqual(vals[i], vals[i + 1]);
    if l - f > 1 {
      var c := (f + l) / 2;
      ProbeTells(vals, i, f, l);
      ProbeTells(vals, i + 1, f, l);
      var a, b := StrCmp(vals[i], vals[c]), StrCmp(vals[i + 1], vals[c]);
      StrCmpEqual(vals[i + 1], vals[c]);
      if a > 0 && b > 0 {
        NeighboursInOrder(vals, c, l, i);
      } else if a < 0 && b < 0 {
        NeighboursInOrder(vals, f, c, i);
      } else if a <= 0 && b >= 0 {
        StrCmpTrans(vals[i], vals[c], vals[i + 1]);
      }
    } else {
      ProbedEnds(vals, i);
    }
  }

  // A range of two is only reached past a probe at one of its ends, which would have been a match.
  lemma ProbedEnds(vals: seq<Str>, i: nat)
    requires i + 1 < |vals| && |vals| > 2
    ensures !(Arrives(vals, i, i, i + 1) && Arrives(vals, i + 1, i, i + 1))
  {
    hide StrCmp;
    StrCmpEqual(vals[i], vals[i]);
    StrCmpEqual(vals[i + 1], vals[i + 1]);
  }

  lemma {:induction false} NeighboursSuffice(vals: seq<Str>, i: nat, j: nat)
    requires forall k :: 0 <= k && k + 1 < |vals| ==> StrCmp(vals[k], vals[k + 1]) <= 0
    requires i < j < |vals|
    ensures StrCmp(vals[i], vals[j]) <= 0
  {
    hide StrCmp;
    assert StrCmp(vals[j - 1], vals[j - 1 + 1]) <= 0;
    if i < j - 1 {
      NeighboursSuffice(vals, i, j - 1);
      StrCmpTrans(vals[i], vals[j - 1], vals[j]);
    }
  }

  lemma CorrectArrives(vals: seq<Str>, m: nat)
    requires m < |vals| && Correct(ValueSigns(vals, vals[m]))
    ensures Arrives(vals, m, 0, |vals| - 1)
  {
    hide StrCmp, Correct, Contiguous, Search, FirstMatch;
    var sg := ValueSigns(vals, vals[m]);
    StrCmpEqual(vals[m], vals[m]);
    assert sg[m] == 0;
    CorrectContiguous(sg);
    CorrectFirst(sg);
  }

  /** Searching by value alone works for every value exactly when the index has at most two nodes or its
    * values happen to be in order; sorting by element name first does not make them so. */
  lemma ValueOnly(vals: seq<Str>)
    ensures (forall v :: Correct(ValueSigns(vals, v))) <==> |vals| <= 2 || InOrder(vals)
  {
    hide StrCmp, Correct, Arrives;
    if |vals| <= 2 || InOrder(vals) {
      forall v ensures Correct(ValueSigns(vals, v)) {
        if |vals| > 2 {
          InOrderDescends(vals, v);
        }
        SortedIsCorrect(ValueSigns(vals, v));
      }
    } else if forall v :: Correct(ValueSigns(vals, v)) {
      forall k | 0 <= k && k + 1 < |vals| ensures StrCmp(vals[k], vals[k + 1]) <= 0 {
        CorrectArrives(vals, k);
        CorrectArrives(vals, k + 1);
        NeighboursInOrder(vals, 0, |vals| - 1, k);
      }
      forall i, j | 0 <= i < j < |vals| ensures StrCmp(vals[i], vals[j]) <= 0 {
        NeighboursSuffice(vals, i, j);
      }
    }
  }

  // Values that are not in order: 2, 3 and 1. The value 1 is not found.
  lemma MixedNamesFail()
    ensures var vals := [[50], [51], [49]];
            !Correct(ValueSigns(vals, [49])) && Zeros(ValueSigns(vals, [49]), 0) == [2]
  {
    var vals: seq<Str> := [[50], [51], [49]];
    var sg := ValueSigns(vals, [49]);
    assert sg[0] == -1 && sg[1] == -1 && sg[2] == 0;
    ZerosSkip(sg, 0, 2);
    assert Search(sg, 0, 2) == 3 by {
      assert Search(sg, 0, 2) == Search(sg, 0, 1) == Scan(sg, 0, 1);
    }
    if Correct(sg) {
      CorrectFirst(sg);
    }
  }
}
