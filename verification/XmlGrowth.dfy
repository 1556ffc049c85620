/** How the parser's tree grows: what is in it stays, so the finished tree shows every step of its making. */
module XmlGrowth {
  import opened Utf8
  import opened XmlTree
  import opened XmlWriter
  import opened XmlReader
  import opened XmlRoundTrip

  // ---- What the parser can put into a tree ----

  /** An attribute list as the parser builds it. */
  predicate Parsed(attrs: seq<Attr>) {
    && (forall i :: 0 <= i < |attrs| ==> attrs[i].value.Some?)
    && (forall i, j :: 0 <= i < j < |attrs| ==> attrs[i].name != attrs[j].name)
  }

  /** A value with children as the parser puts it inside an element. */
  predicate Made(v: Value, kids: Doc) {
    match v
    case Opaque(t) => t != [] && kids.Nil?
    case Element(n, attrs) => Parsed(attrs) && (Unclosed(n) ==> attrs == [] && kids.Nil?)
  }

  /** A forest as the parser builds it: text is not empty, has no children, and does not follow text. */
  predicate MadeAll(d: Doc) {
    match d
    case Nil => true
    case Cons(v, kids, rest) =>
      && Made(v, kids) && MadeAll(kids) && MadeAll(rest)
      && !(v.Opaque? && rest.Cons? && rest.v.Opaque?)
  }

  /** A root may have children below a special name. */
  predicate MadeRoot(d: Doc) {
    && d.Cons? && d.rest.Nil? && d.v.Element? && Parsed(d.v.attrs) && MadeAll(d.kids)
    && (Unclosed(d.v.name) ==> d.v.attrs == [])
  }

  predicate MadeStack(p: Stack) {
    match p
    case Empty => true
    case Push(n, attrs, kids, up) =>
      && Parsed(attrs) && MadeAll(kids) && (Unclosed(n) ==> attrs == [] && up.Empty?)
      && MadeStack(up)
  }

  predicate Sound(st: State) {
    && MadeStack(st.parent)
    && (st.first.Cons? ==> MadeRoot(st.first))
    && (st.parent.Push? ==> st.opaqueType && st.first.Nil?)
    && (st.opaqueType ==> st.parent.Push? || st.first.Cons?)
  }

  /** What holds whenever the main loop is at a new character. */
  predicate Consistent(st: State) {
    Sound(st) && (st.parent.Push? ==> !EndsInText(st.parent.kids))
  }

  lemma {:induction false} MadeAppend(d: Doc, v: Value, kids: Doc)
    requires MadeAll(d) && Made(v, kids) && MadeAll(kids) && !(EndsInText(d) && v.Opaque?)
    ensures MadeAll(Append(d, Cons(v, kids, Nil)))
    ensures EndsInText(Append(d, Cons(v, kids, Nil))) == v.Opaque?
  {
    hide Made;
    if d.Cons? {
      MadeAppend(d.rest, v, kids);
    }
  }

  // ---- What one tag does ----

  /** A tag adds a leaf, opens an element or closes one. */
  datatype Move = Leaf(v: Value) | Down(v: Value) | Up

  predicate Allowed(st: State, m: Move) {
    match m
    case Leaf(v) => v.Element? && Made(v, Nil) && !SecondRoot(st)
    case Down(v) => v.Element? && Parsed(v.attrs) && (Unclosed(v.name) ==> v.attrs == [] && st.parent.Empty?) && !SecondRoot(st)
    case Up => st.parent.Push?
  }

  function Apply(st: State, m: Move): State
    requires Allowed(st, m)
  {
    match m
    case Leaf(v) => AddNode(st, v, Nil)
    case Down(v) => Descend(st, v.name, v.attrs)
    case Up => AddNode(st.(parent := st.parent.up), Element(st.parent.name, st.parent.attrs), st.parent.kids)
  }

  lemma {:induction false} ParsedElement(s: Str, attrs: seq<Attr>)
    requires Parsed(attrs)
    ensures var r := ParseElement(s, attrs); r.TagScan? ==> Parsed(r.attrs)
    decreases |s|
  {
    hide Next, ScanAttr;
    var n := Next(s);
    if n.Scan? && n.ch != EOF {
      if IsSpace(n.ch) {
        ParsedElement(n.rest, attrs);
      } else if n.ch !in {SLASH, QM, LT, GT} {
        var a := ScanAttr(n.ch, n.rest, attrs);
        FreshAttr(n.ch, n.rest, attrs);
        if a.AttrScan? {
          ParsedElement(a.rest, attrs + [a.attr]);
        }
      }
    }
  }

  lemma FreshAttr(ch: nat, s: Str, attrs: seq<Attr>)
    requires Parsed(attrs)
    ensures var a := ScanAttr(ch, s, attrs); a.AttrScan? ==> Parsed(attrs + [a.attr])
  {
    hide AttrName, AttrValue, SkipSpace, CStr, Next;
  }

  /** The name of a special element, without the last `drop` characters collected. */
  function Named(n: Scan, drop: nat): Scan {
    if n.Stop? then n else Scan(GT, if drop <= |n.buf| then n.buf[..|n.buf| - drop] else n.buf, n.rest)
  }

  /** The name that the tag at hand gives to an element, and what is behind it. */
  function TagText(s: Str): (n: Scan)
    ensures n.Scan? ==> EOF <= n.ch
  {
    var n := TagName(s, []);
    if n.Stop? then n
    else if n.buf == COMMENT then Named(Until(n.rest, n.buf, EndsComment), 0)
    else if n.buf == CDATA then Named(Until(n.rest, n.buf, EndsCdata), 2)
    else if At(n.buf, 0) == QM then Named(Until(n.rest, n.buf, EndsDirective), 0)
    else if At(n.buf, 0) == EXCL then Named(Declaration(n.ch, n.rest, n.buf), 0)
    else if At(n.buf, 0) == SLASH then Stop(Malformed)
    else n
  }

  /** The move is what the text of the tag says. */
  predicate Spelled(m: Move, s: Str) {
    !m.Up? ==>
      && m.v.Element? && TagText(s).Scan? && m.v.name == TagText(s).buf
      && (IsSpace(TagText(s).ch) ==>
            var t := ParseElement(TagText(s).rest, []);
            t.TagScan? && t.attrs == m.v.attrs)
  }

  /** Whatever a tag does is one of these moves. */
  lemma TagMoves(st: State, s: Str) returns (m: Move)
    ensures var r := Tag(st, s);
            && (!r.Failed? ==> Spelled(m, s))
            && (r.Step? ==> Allowed(st, m) && r.st == Apply(st, m))
            && (r.Ended? ==> Allowed(st, m) && m.Leaf? && r.last == Apply(st, m))
  {
    hide TagName, Until, Declaration, ParseElement, SkipToGt, AddNode, ExpectGt, Parsed;
    NoneParsed();
    m := Up;
    var n := TagName(s, []);
    if n.Scan? {
      if n.buf == COMMENT {
        m := SpecialMoves(st, Until(n.rest, n.buf, EndsComment), 0, false);
      } else if n.buf == CDATA {
        m := SpecialMoves(st, Until(n.rest, n.buf, EndsCdata), 2, false);
      } else if At(n.buf, 0) == QM {
        m := SpecialMoves(st, Until(n.rest, n.buf, EndsDirective), 0, true);
      } else if At(n.buf, 0) == EXCL {
        m := SpecialMoves(st, Declaration(n.ch, n.rest, n.buf), 0, true);
      } else if At(n.buf, 0) != SLASH {
        m := OpenMoves(st, n);
      }
    }
  }

  lemma NoneParsed()
    ensures Parsed([])
  {
  }

  lemma SpecialMoves(st: State, n: Scan, drop: nat, descend: bool) returns (m: Move)
    ensures var r := AddSpecial(st, n, drop, descend);
            && !r.Ended? && (r.Step? ==> Allowed(st, m) && r.st == Apply(st, m))
            && (r.Step? ==> !m.Up? && m.v.Element? && n.Scan? && m.v.name == Named(n, drop).buf)
  {
    hide AddNode;
    m := Up;
    if n.Scan? {
      var name := Named(n, drop).buf;
      m := if descend && st.parent.Empty? then Down(Element(name, [])) else Leaf(Element(name, []));
    }
  }

  lemma OpenMoves(st: State, n: Scan) returns (m: Move)
    requires n.Scan? && EOF <= n.ch && !Unclosed(n.buf)
    ensures var r := OpenElement(st, n);
            && (!r.Failed? ==>
                  && !m.Up? && m.v.Element? && m.v.name == n.buf
                  && (IsSpace(n.ch) ==> var t := ParseElement(n.rest, []); t.TagScan? && t.attrs == m.v.attrs))
            && (r.Step? ==> Allowed(st, m) && r.st == Apply(st, m))
            && (r.Ended? ==> Allowed(st, m) && m.Leaf? && r.last == Apply(st, m))
  {
    hide ParseElement, AddNode, ExpectGt, Parsed;
    NoneParsed();
    ParsedElement(n.rest, []);
    var t := if IsSpace(n.ch) then ParseElement(n.rest, [])
             else if n.ch == SLASH then EndTag(ExpectGt(n.ch, n.rest), [])
             else TagScan(n.ch, [], n.rest);
    m := Up;
    if t.TagScan? {
      m := if t.ch == EOF || t.ch == SLASH then Leaf(Element(n.buf, t.attrs)) else Down(Element(n.buf, t.attrs));
    }
  }

  lemma ApplyKeeps(st: State, m: Move)
    requires Sound(st) && Allowed(st, m)
    ensures Consistent(Apply(st, m).(buf := []))
  {
    hide Parsed;
    match m
    case Leaf(v) =>
      if st.parent.Push? {
        MadeAppend(st.parent.kids, v, Nil);
      }
    case Down(v) =>
    case Up =>
      var p := st.parent;
      assert MadeStack(p.up);
      if p.up.Push? {
        MadeAppend(p.up.kids, Element(p.name, p.attrs), p.kids);
      }
  }

  lemma FlushKeeps(st: State)
    requires Consistent(st) && st.buf != []
    ensures Sound(Flush(st)) && Flush(st).buf == []
    ensures !st.opaqueType || st.parent.Empty? ==> Flush(st) == st.(buf := [])
  {
    hide Parsed;
    if st.opaqueType && st.parent.Push? {
      MadeAppend(st.parent.kids, Opaque(st.buf), Nil);
    }
  }

  // ---- The finished tree shows every move ----

  /** What a forest has behind another one, if it starts with it. */
  function Behind(d: Doc, start: Doc): Option<Doc> {
    if start.Nil? then Some(d)
    else if d.Cons? && d.v == start.v && d.kids == start.kids then Behind(d.rest, start.rest)
    else None
  }

  lemma {:induction false} BehindAppend(d: Doc, start: Doc, v: Value, kids: Doc, m: Doc)
    requires Behind(d, Append(start, Cons(v, kids, Nil))) == Some(m)
    ensures Behind(d, start) == Some(Cons(v, kids, m))
  {
    if start.Cons? {
      BehindAppend(d.rest, start.rest, v, kids, m);
    } else {
      assert Append(start, Cons(v, kids, Nil)) == Cons(v, kids, Nil);
      assert Behind(d.rest, Nil) == Some(d.rest);
    }
  }

  lemma {:induction false} BehindNext(d: Doc, start: Doc, v: Value, kids: Doc, m: Doc)
    requires Behind(d, start) == Some(Cons(v, kids, m))
    ensures Behind(d, Append(start, Cons(v, kids, Nil))) == Some(m)
  {
    if start.Cons? {
      BehindNext(d.rest, start.rest, v, kids, m);
    } else {
      assert Append(start, Cons(v, kids, Nil)) == Cons(v, kids, Nil);
      assert Behind(d.rest, Nil) == Some(d.rest);
    }
  }

  lemma {:induction false} BehindItself(d: Doc)
    ensures Behind(d, d) == Some(Nil)
  {
    if d.Cons? {
      BehindItself(d.rest);
    }
  }

  /** The children that an open element has in the finished tree, if that tree can come of the stack. */
  function Final(p: Stack, t: Doc): Option<Doc>
    requires p.Push?
    decreases p, 0
  {
    if p.up.Empty? then
      if t.Cons? && t.rest.Nil? && t.v == Element(p.name, p.attrs) then Some(t.kids) else None
    else
      var siblings := Left(p.up, t);
      if siblings.Some? && siblings.value.Cons? && siblings.value.v == Element(p.name, p.attrs)
      then Some(siblings.value.kids) else None
  }

  /** The children that an open element is still to get. */
  function Left(p: Stack, t: Doc): Option<Doc>
    requires p.Push?
    decreases p, 1
  {
    var all := Final(p, t);
    if all.None? then None else Behind(all.value, p.kids)
  }

  /** The finished tree and one move: what the move adds is the next child there. */
  predicate Shows(st: State, m: Move, t: Doc) {
    if st.parent.Empty? then
      match m
      case Leaf(v) => t == Cons(v, Nil, Nil)
      case Down(v) => t.Cons? && t.rest.Nil? && t.v == v
      case Up => false
    else
      var left := Left(st.parent, t);
      && left.Some?
      && match m
         case Leaf(v) => left.value.Cons? && left.value.v == v && left.value.kids.Nil?
         case Down(v) => left.value.Cons? && left.value.v == v
         case Up => left.value.Nil?
  }

  /** What the finished tree must show of a state. */
  predicate Grown(st: State, t: Doc) {
    if st.parent.Push? then Left(st.parent, t).Some? else st.first.Cons? ==> t == st.first
  }

  function WithChild(p: Stack, v: Value, kids: Doc): Stack
    requires p.Push?
  {
    Push(p.name, p.attrs, Append(p.kids, Cons(v, kids, Nil)), p.up)
  }

  lemma ChildShown(p: Stack, v: Value, kids: Doc, t: Doc)
    requires p.Push? && Left(WithChild(p, v, kids), t).Some?
    ensures Left(p, t) == Some(Cons(v, kids, Left(WithChild(p, v, kids), t).value))
  {
    var p' := WithChild(p, v, kids);
    SameFinal(p, p', t);
    BehindAppend(Final(p, t).value, p.kids, v, kids, Left(p', t).value);
  }

  lemma ChildTaken(p: Stack, v: Value, kids: Doc, m: Doc, t: Doc)
    requires p.Push? && Left(p, t) == Some(Cons(v, kids, m))
    ensures Left(WithChild(p, v, kids), t) == Some(m)
  {
    SameFinal(p, WithChild(p, v, kids), t);
    BehindNext(Final(p, t).value, p.kids, v, kids, m);
  }

  // Below an element just opened, its children are still to come.
  lemma OpenLeft(p: Stack, v: Value, kids: Doc, t: Doc)
    requires v.Element?
    requires if p.Empty? then t == Cons(v, kids, Nil)
             else Left(p, t).Some? && Left(p, t).value.Cons? && Left(p, t).value.v == v && Left(p, t).value.kids == kids
    ensures Left(Push(v.name, v.attrs, Nil, p), t) == Some(kids)
  {
  }

  lemma SameFinal(p: Stack, p': Stack, t: Doc)
    requires p.Push? && p'.Push? && (p'.name, p'.attrs, p'.up) == (p.name, p.attrs, p.up)
    ensures Final(p', t) == Final(p, t)
  {
  }

  lemma MoveShown(st: State, m: Move, t: Doc)
    requires Sound(st) && Allowed(st, m) && Grown(Apply(st, m), t)
    ensures Grown(st, t) && Shows(st, m, t)
  {
    hide MadeStack, MadeRoot, Parsed, Final, Left;
    match m
    case Leaf(v) =>
      if st.parent.Push? {
        ChildShown(st.parent, v, Nil, t);
      }
    case Down(v) =>
      OpenShown(Apply(st, m).parent, t);
    case Up =>
      var p := st.parent;
      if p.up.Push? {
        ChildShown(p.up, Element(p.name, p.attrs), p.kids, t);
      }
      ClosedShown(p, t);
  }

  // An element just opened is to be found in the finished tree.
  lemma OpenShown(p: Stack, t: Doc)
    requires p.Push? && p.kids.Nil? && Left(p, t).Some?
    ensures if p.up.Empty? then t == Cons(Element(p.name, p.attrs), Left(p, t).value, Nil)
            else
              && Left(p.up, t).Some? && Left(p.up, t).value.Cons?
              && Left(p.up, t).value.v == Element(p.name, p.attrs) && Left(p.up, t).value.kids == Left(p, t).value
  {
  }

  // An element just closed has all its children.
  lemma ClosedShown(p: Stack, t: Doc)
    requires p.Push?
    requires if p.up.Empty? then t == Cons(Element(p.name, p.attrs), p.kids, Nil)
             else
               && Left(p.up, t).Some? && Left(p.up, t).value.Cons?
               && Left(p.up, t).value.v == Element(p.name, p.attrs) && Left(p.up, t).value.kids == p.kids
    ensures Left(p, t) == Some(Nil)
  {
    BehindItself(p.kids);
  }

  lemma FinishGrown(st: State, t: Doc)
    requires Sound(st) && Finish(st) == Tree(t)
    ensures MadeRoot(t) && Grown(st, t)
    ensures st.parent.Push? ==> Left(st.parent, t) == Some(Nil)
  {
    hide Parsed;
    if st.parent.Push? {
      ClosedShown(st.parent, t);
    }
  }

  lemma FlushGrown(st: State, t: Doc)
    requires Consistent(st) && st.buf != [] && Grown(Flush(st), t)
    ensures Grown(st, t)
    ensures st.parent.Push? ==>
              && Left(Flush(st).parent, t).Some?
              && Left(st.parent, t) == Some(Cons(Opaque(st.buf), Nil, Left(Flush(st).parent, t).value))
  {
    hide MadeStack, MadeRoot, Parsed, Left;
    if st.parent.Push? {
      ChildShown(st.parent, Opaque(st.buf), Nil, t);
    }
  }

  // The outcome of a tag, and of the main loop after it.
  function AfterTag(r: Step): Outcome {
    match r
    case Step(st, rest) => LoadLoop(rest, st.(buf := []))
    case Ended(last) => Finish(last)
    case Failed(why) => Failure(why)
  }

  // The collected characters play no part in these.
  lemma BufferAside(st: State, buf: Str, t: Doc)
    ensures Consistent(st.(buf := buf)) <==> Consistent(st)
    ensures Sound(st.(buf := buf)) <==> Sound(st)
    ensures Grown(st.(buf := buf), t) <==> Grown(st, t)
    ensures Finish(st.(buf := buf)) == Finish(st)
  {
  }

  lemma ConsistentSound(st: State)
    requires Consistent(st)
    ensures Sound(st)
  {
  }

  /** A whole load: the finished tree shows every state it went through, and is one the parser can build. */
  lemma {:induction false} Grows(s: Str, st: State, t: Doc)
    requires Consistent(st) && LoadLoop(s, st) == Tree(t)
    ensures MadeRoot(t) && Grown(st, t)
    decreases |s|, 0
  {
    hide Next, Tag, Decoded, Finish, Flush, Consistent, Sound, MadeRoot, Grown, Encode;
    var n := Next(s);
    ConsistentSound(st);
    if n.ch == EOF {
      FinishGrown(st, t);
    } else if n.ch == LT {
      if st.buf != [] {
        FlushKeeps(st);
        BufferAside(Flush(st), [], t);
        var m := TagGrows(n.rest, Flush(st).(buf := []), t);
        FlushGrown(st, t);
      } else {
        BufferAside(st, [], t);
        var m := TagGrows(n.rest, st.(buf := []), t);
      }
    } else if n.ch == AMP {
      var buf := st.buf + Encode(Decoded(n).ch);
      BufferAside(st, buf, t);
      Grows(Decoded(n).rest, st.(buf := buf), t);
    } else {
      CharGrows(n, st, t);
    }
  }

  // A character that is neither `<` nor `&`.
  lemma {:induction false} CharGrows(n: Scan, st: State, t: Doc)
    requires Consistent(st) && n.Scan? && n.ch >= 0 && n.ch != LT
    requires var st1 := if IsSpace(n.ch) && !st.opaqueType && st.buf != [] then Flush(st) else st;
             LoadLoop(n.rest, if st1.opaqueType || !IsSpace(n.ch) then st1.(buf := st1.buf + Encode(n.ch)) else st1) == Tree(t)
    ensures MadeRoot(t) && Grown(st, t)
    decreases |n.rest|, 1
  {
    hide LoadLoop, Finish, Flush, Consistent, Sound, MadeRoot, Grown, Encode;
    if IsSpace(n.ch) && !st.opaqueType && st.buf != [] {
      FlushKeeps(st);
    }
    var st1 := if IsSpace(n.ch) && !st.opaqueType && st.buf != [] then Flush(st) else st;
    assert st1 == st.(buf := st1.buf);
    var buf := if st1.opaqueType || !IsSpace(n.ch) then st1.buf + Encode(n.ch) else st1.buf;
    BufferAside(st, buf, t);
    Grows(n.rest, st.(buf := buf), t);
  }

  lemma {:induction false} TagGrows(z: Str, st: State, t: Doc) returns (m: Move)
    requires Sound(st) && AfterTag(Tag(st, z)) == Tree(t)
    ensures MadeRoot(t) && Grown(st, t)
    ensures var r := Tag(st, z);
            && !r.Failed? && Spelled(m, z) && Allowed(st, m) && Shows(st, m, t)
            && (r.Step? ==> r.st == Apply(st, m) && Consistent(r.st.(buf := [])) && LoadLoop(r.rest, r.st.(buf := [])) == Tree(t))
            && (r.Ended? ==> m.Leaf? && Finish(Apply(st, m)) == Tree(t))
    decreases |z|, 1
  {
    hide LoadLoop, Finish, Tag, Consistent, Sound, MadeRoot, Grown, Shows, Apply, Allowed, Spelled;
    var r := Tag(st, z);
    m := TagMoves(st, z);
    match r
    case Step(st2, rest) =>
      ApplyKeeps(st, m);
      Grows(rest, st2.(buf := []), t);
      BufferAside(st2, [], t);
      MoveShown(st, m, t);
    case Ended(last) =>
      ApplyKeeps(st, m);
      BufferAside(last, [], t);
      ConsistentSound(last);
      FinishGrown(last, t);
      MoveShown(st, m, t);
    case Failed(_) =>
  }

  /** Where the main loop stands before a tag, inside an element or at the start. */
  lemma AtTag(z: Str, st: State, t: Doc) returns (m: Move)
    requires Sound(st) && st.buf == [] && LoadLoop([LT] + z, st) == Tree(t)
    ensures var r := Tag(st, z);
            && !r.Failed? && Spelled(m, z) && Allowed(st, m) && Shows(st, m, t)
            && (r.Step? ==> r.st == Apply(st, m) && Consistent(r.st.(buf := [])) && LoadLoop(r.rest, r.st.(buf := [])) == Tree(t))
            && (r.Ended? ==> m.Leaf? && Finish(Apply(st, m)) == Tree(t))
  {
    hide LoadLoop, Finish, Tag, Consistent, Sound, MadeRoot, Grown, Shows, Apply, Allowed, Spelled;
    LoadTag(z, st);
    assert st.(buf := []) == st;
    m := TagGrows(z, st, t);
  }
}
