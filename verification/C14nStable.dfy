/**
  When canonicalizing the canonical form changes nothing: exactly when no element declares what is
  in force already. `Written` is the document the canonical form describes.
 */
module C14nStable {
  import opened Ordering
  import opened C14nTree
  import opened C14nSpec
  import opened C14nNamespaces
  import opened C14nTokens
  import opened C14nRecommendation
  import opened C14nRules
  import opened C14nAttributes
  import opened C14nIdempotent
  import opened C14nTextSource

  // ----- The document that is written -----

  function Written(cfg: Config, n: Node, chain: Chain, st: Stack): NodeList
    requires WindowOk(st)
    decreases n
  {
    match n
    case Element(name, ns, _, attrs, children, visible, _) =>
      var chain' := [FrameOf(n)] + chain;
      var inner := WrittenList(cfg, children, chain', StackBelow(cfg, st, chain', n));
      if visible then
        Cons(Element(name, ns, NamespaceAxis(cfg, st, chain', n).list, ShowAll(AttrsAxis(cfg, attrs, chain, true)),
                     inner, true, {}), Nil)
      else inner
    case Text(_, visible) => if visible then Cons(n, Nil) else Nil
    case Comment(_, visible) => if visible && cfg.withComments then Cons(n, Nil) else Nil
    case PI(_, _, visible) => if visible then Cons(n, Nil) else Nil
    case _ => Nil
  }

  function WrittenList(cfg: Config, l: NodeList, chain: Chain, st: Stack): NodeList
    requires WindowOk(st)
    decreases l
  {
    match l
    case Nil => Nil
    case Cons(n, tail) => Append(Written(cfg, n, chain, st), WrittenList(cfg, tail, chain, st))
  }

  /** Omitted elements show neither namespaces nor attributes of their own, which would stand outside any tag. */
  ghost predicate Quiet(cfg: Config, n: Node, chain: Chain)
    decreases n
  {
    n.Element? ==>
      var chain' := [FrameOf(n)] + chain;
      (n.visible || ShowsNothing(cfg, chain', n)) && QuietIn(cfg, n.children, chain')
  }

  ghost predicate QuietIn(cfg: Config, l: NodeList, chain: Chain)
    decreases l
  {
    l.Cons? ==> Quiet(cfg, l.head, chain) && QuietIn(cfg, l.tail, chain)
  }

  lemma {:induction false} NodeWritten(cfg: Config, n: Node, chain: Chain, st: Stack, pos: Position, atDoc: bool)
    requires WindowOk(st) && Quiet(cfg, n, chain)
    ensures LiteralList(Written(cfg, n, chain, st), pos, atDoc) == Canon(cfg, n, chain, st, pos, atDoc)
    decreases n
  {
    if n.Element? {
      hide NamespaceAxis, AttrsAxis, DeclTokens, AttrTokens, CanonList, LiteralList, WrittenList, QuietIn, ShowsNothing;
      hide ElementTokens;
      var chain' := [FrameOf(n)] + chain;
      var below := StackBelow(cfg, st, chain', n);
      var pos1, atDoc1 := if n.visible && atDoc then Inside else pos, atDoc && !n.visible;
      ListWritten(cfg, n.children, chain', below, pos1, atDoc1);
      CanonElement(cfg, n, chain, st, pos, atDoc);
      if n.visible {
        VisibleWritten(cfg, n, chain, st, pos, atDoc);
      } else {
        OmittedWritten(cfg, n, chain, st, pos, atDoc);
      }
    } else {
      LeafWritten(cfg, n, chain, st, pos, atDoc);
    }
  }

  lemma LeafWritten(cfg: Config, n: Node, chain: Chain, st: Stack, pos: Position, atDoc: bool)
    requires !n.Element? && WindowOk(st)
    ensures LiteralList(Written(cfg, n, chain, st), pos, atDoc) == Canon(cfg, n, chain, st, pos, atDoc)
  {
  }

  lemma VisibleWritten(cfg: Config, n: Node, chain: Chain, st: Stack, pos: Position, atDoc: bool)
    requires n.Element? && n.visible && WindowOk(st)
    requires var chain' := [FrameOf(n)] + chain;
             var below, pos1 := StackBelow(cfg, st, chain', n), if atDoc then Inside else pos;
             LiteralList(WrittenList(cfg, n.children, chain', below), pos1, false) ==
             CanonList(cfg, n.children, chain', below, pos1, false)
    ensures LiteralList(Written(cfg, n, chain, st), pos, atDoc) == Canon(cfg, n, chain, st, pos, atDoc)
  {
    hide NamespaceAxis, AttrsAxis, DeclTokens, AttrTokens, CanonList, WrittenList, ShowAll;
    CanonElement(cfg, n, chain, st, pos, atDoc);
    ShowAllTokens(AttrsAxis(cfg, n.attrs, chain, true));
    var e := Written(cfg, n, chain, st).head;
    OneLiteral(e, pos, atDoc);
    LiteralElement(e, pos, atDoc);
  }

  lemma OneLiteral(n: Node, pos: Position, atDoc: bool)
    ensures LiteralList(Cons(n, Nil), pos, atDoc) == Literal(n, pos, atDoc)
  {
    hide Literal;
    assert LiteralList(Nil, Literal(n, pos, atDoc).pos, atDoc).tokens == [];
    assert Literal(n, pos, atDoc).tokens + [] == Literal(n, pos, atDoc).tokens;
  }

  lemma LiteralElement(e: Node, pos: Position, atDoc: bool)
    requires e.Element? && e.visible
    ensures var body := LiteralList(e.children, if atDoc then Inside else pos, false);
            Literal(e, pos, atDoc) ==
            Out(ElementTokens(e, e.nsDefs, e.attrs, body.tokens), if atDoc then After else body.pos)
  {
    hide LiteralList, DeclTokens, AttrTokens;
  }

  lemma OmittedWritten(cfg: Config, n: Node, chain: Chain, st: Stack, pos: Position, atDoc: bool)
    requires n.Element? && !n.visible && WindowOk(st) && ShowsNothing(cfg, [FrameOf(n)] + chain, n)
    ensures var chain' := [FrameOf(n)] + chain;
            Canon(cfg, n, chain, st, pos, atDoc) ==
            CanonList(cfg, n.children, chain', StackBelow(cfg, st, chain', n), pos, atDoc)
  {
    hide StartTag, CanonList, StackBelow, ShowsNothing;
    var chain' := [FrameOf(n)] + chain;
    OmittedNothing(cfg, st, chain', n);
    var body := CanonList(cfg, n.children, chain', StackBelow(cfg, st, chain', n), pos, atDoc);
    assert [] + body.tokens + [] == body.tokens;
  }

  lemma {:induction false} ListWritten(cfg: Config, l: NodeList, chain: Chain, st: Stack, pos: Position, atDoc: bool)
    requires WindowOk(st) && QuietIn(cfg, l, chain)
    ensures LiteralList(WrittenList(cfg, l, chain, st), pos, atDoc) == CanonList(cfg, l, chain, st, pos, atDoc)
    decreases l
  {
    hide Canon, Written, Quiet, Literal;
    if l.Cons? {
      var first := Canon(cfg, l.head, chain, st, pos, atDoc);
      NodeWritten(cfg, l.head, chain, st, pos, atDoc);
      ListWritten(cfg, l.tail, chain, st, first.pos, atDoc);
      LiteralAppend(Written(cfg, l.head, chain, st), WrittenList(cfg, l.tail, chain, st), pos, atDoc);
    }
  }

  // ----- Documents as they are written -----

  /** Everything is shown, declarations and attributes are in order. */
  ghost predicate Finished(cfg: Config, n: Node)
    decreases n
  {
    match n
    case Element(_, _, nsDefs, attrs, children, visible, hidden) =>
      && visible && hidden == {} && Sorted(nsDefs, NsBefore) && (forall ns :: ns in nsDefs ==> ns.prefix != "xml")
      && InsertVisible([], attrs) == attrs && FinishedIn(cfg, children)
    case Text(_, visible) => visible
    case Comment(_, visible) => visible && cfg.withComments
    case PI(_, _, visible) => visible
    case _ => false
  }

  ghost predicate FinishedIn(cfg: Config, l: NodeList)
    decreases l
  {
    l.Cons? ==> Finished(cfg, l.head) && FinishedIn(cfg, l.tail)
  }

  /** Declarations that all say something new; the empty default says something only against another one. */
  ghost predicate News(defs: seq<Ns>, chain: Chain) {
    forall ns :: ns in defs ==>
      Search(chain, ns.prefix) != Some(ns) &&
      (ns == DEFAULT_UNDECLARED ==> Search(chain, "").Some? && Search(chain, "").value.href != "")
  }

  ghost predicate Tidy(n: Node, chain: Chain)
    decreases n
  {
    n.Element? ==> News(n.nsDefs, chain) && TidyIn(n.children, [FrameOf(n)] + chain)
  }

  ghost predicate TidyIn(l: NodeList, chain: Chain)
    decreases l
  {
    l.Cons? ==> Tidy(l.head, chain) && TidyIn(l.tail, chain)
  }

  /** With everything shown, the recommended declarations are the given ones if and only if these are news. */
  lemma NewsIff(frame: Frame, chain: Chain)
    requires Sorted(frame.nsDefs, NsBefore) && forall ns :: ns in frame.nsDefs ==> ns.prefix != "xml"
    ensures RecommendedDecls(Axis(chain, {}), Axis([frame] + chain, {}), true) == frame.nsDefs
            <==> News(frame.nsDefs, chain)
  {
    hide Axis, Search, RecommendedDecls;
    var prev, axis := Axis(chain, {}), Axis([frame] + chain, {});
    var l, defs := RecommendedDecls(prev, axis, true), frame.nsDefs;
    AxisMembers(chain, {});
    AxisMembers([frame] + chain, {});
    RecommendedMembers(prev, axis, true);
    SortedDistinct(defs);
    forall ns: Ns ensures ns.prefix != "xml" ==>
      (ns in axis <==> if HasPrefix(defs, ns.prefix) then ns in defs else ns in prev)
    {
      if ns.prefix != "xml" { OwnOrAbove(frame, chain, ns); }
    }
    DefaultInForce(chain);
    if News(defs, chain) {
      forall ns ensures ns in l <==> ns in defs {
        NewsMember(defs, prev, axis, chain, ns);
      }
      SameSorted(l, defs);
    }
  }

  ghost predicate HasPrefix(defs: seq<Ns>, p: string) {
    exists ns :: ns in defs && ns.prefix == p
  }

  lemma OwnOrAbove(frame: Frame, chain: Chain, ns: Ns)
    requires ns.prefix != "xml" && DistinctPrefixes(frame.nsDefs)
    ensures Search([frame] + chain, ns.prefix) == Some(ns) <==>
            if HasPrefix(frame.nsDefs, ns.prefix) then ns in frame.nsDefs else Search(chain, ns.prefix) == Some(ns)
  {
    hide Search;
    SearchStep(frame, chain, ns.prefix);
    var k := DefIndex(frame.nsDefs, ns.prefix);
    if k < |frame.nsDefs| {
      assert frame.nsDefs[k] in frame.nsDefs;
      if ns in frame.nsDefs && ns != frame.nsDefs[k] { DistinctMembers(frame.nsDefs, ns, frame.nsDefs[k]); }
    }
  }

  lemma DefaultInForce(chain: Chain)
    ensures NonemptyDefault(Axis(chain, {})) <==> Search(chain, "").Some? && Search(chain, "").value.href != ""
  {
    hide Axis, Search;
    AxisMembers(chain, {});
    if Search(chain, "").Some? { assert Search(chain, "").value.prefix == ""; }
  }

  lemma NewsMember(defs: seq<Ns>, prev: seq<Ns>, axis: seq<Ns>, chain: Chain, ns: Ns)
    requires DistinctPrefixes(defs) && (forall x :: x in defs ==> x.prefix != "xml") && News(defs, chain)
    requires prev == Axis(chain, {})
    requires forall x: Ns :: x in axis ==> x.prefix != "xml"
    requires forall x: Ns :: x.prefix != "xml" ==>
               (x in axis <==> if HasPrefix(defs, x.prefix) then x in defs else x in prev)
    ensures ((ns in axis && ns !in prev && ns != DEFAULT_UNDECLARED)
             || (ns == DEFAULT_UNDECLARED && !NonemptyDefault(axis) && NonemptyDefault(prev)))
            <==> ns in defs
  {
    hide Axis, Search;
    AxisMembers(chain, {});
    DefaultInForce(chain);
    if ns == DEFAULT_UNDECLARED {
      if ns in defs {
        if x :| x in axis && x.prefix == "" && x.href != "" {
          assert x in defs && x != ns;
          DistinctMembers(defs, x, ns);
        }
      } else if NonemptyDefault(prev) {
        var x :| x in prev && x.prefix == "" && x.href != "";
        if HasPrefix(defs, "") {
          var y :| y in defs && y.prefix == "";
          assert y in axis && y.href != "";
        } else {
          assert x in axis;
        }
      }
    } else if ns in defs {
      assert HasPrefix(defs, ns.prefix);
    }
  }

  lemma {:induction false} NodeTidyIff(cfg: Config, n: Node, chain: Chain, pos: Position, atDoc: bool,
                                       t: seq<Token>, u: seq<Token>)
    requires Finished(cfg, n) && (chain != [] ==> chain[0].visible)
    ensures var c, r := Stackless(cfg, n, chain, Axis(chain, {}), pos, atDoc), Literal(n, pos, atDoc);
            c.pos == r.pos && Exactly(Tidy(n, chain), c.tokens, r.tokens, t, u)
    decreases n
  {
    if n.Element? {
      hide Axis, RecommendedDecls, DeclTokens, AttrTokens, StacklessList, LiteralList, ElementTokens, News,
           InsertVisible;
      var chain' := [FrameOf(n)] + chain;
      var pos1 := if atDoc then Inside else pos;
      var close := Optional(true, Close(NsPrefix(n.ns), n.name));
      var decls := RecommendedDecls(Axis(chain, {}), Axis(chain', {}), true);
      var b := StacklessList(cfg, n.children, chain', Axis(chain', {}), pos1, false).tokens;
      var d := LiteralList(n.children, pos1, false).tokens;
      ListTidyIff(cfg, n.children, chain', pos1, false, close + t, close + u);
      StacklessElement(cfg, n, chain, Axis(chain, {}), pos, atDoc);
      LiteralElement(n, pos, atDoc);
      NewsIff(FrameOf(n), chain);
      assert AttrsAxis(cfg, n.attrs, chain, true) == n.attrs;
      if ElementTokens(n, decls, n.attrs, b) + t == ElementTokens(n, n.nsDefs, n.attrs, d) + u {
        ElementApart(n, decls, n.nsDefs, n.attrs, b, d, t, u);
        Cancel(close, t, u);
      }
    } else {
      LeafTidy(cfg, n, chain, pos, atDoc, t, u);
    }
  }

  lemma LeafTidy(cfg: Config, n: Node, chain: Chain, pos: Position, atDoc: bool, t: seq<Token>, u: seq<Token>)
    requires !n.Element? && Finished(cfg, n)
    ensures Stackless(cfg, n, chain, Axis(chain, {}), pos, atDoc) == Literal(n, pos, atDoc)
    ensures var c := Literal(n, pos, atDoc).tokens; c + t == c + u ==> t == u
  {
    hide Axis;
    var c := Literal(n, pos, atDoc).tokens;
    if c + t == c + u { Cancel(c, t, u); }
  }

  lemma {:induction false} ListTidyIff(cfg: Config, l: NodeList, chain: Chain, pos: Position, atDoc: bool,
                                       t: seq<Token>, u: seq<Token>)
    requires FinishedIn(cfg, l) && (chain != [] ==> chain[0].visible)
    ensures var c, r := StacklessList(cfg, l, chain, Axis(chain, {}), pos, atDoc), LiteralList(l, pos, atDoc);
            c.pos == r.pos && Exactly(TidyIn(l, chain), c.tokens, r.tokens, t, u)
    decreases l
  {
    hide Axis, Stackless, Literal, Finished, Tidy;
    if l.Cons? {
      var a, b := Stackless(cfg, l.head, chain, Axis(chain, {}), pos, atDoc), Literal(l.head, pos, atDoc);
      var c := StacklessList(cfg, l.tail, chain, Axis(chain, {}), a.pos, atDoc).tokens;
      var d := LiteralList(l.tail, a.pos, atDoc).tokens;
      NodeTidyIff(cfg, l.head, chain, pos, atDoc, c + t, d + u);
      ListTidyIff(cfg, l.tail, chain, a.pos, atDoc, t, u);
      Assoc(a.tokens, c, t);
      Assoc(b.tokens, d, u);
    } else {
      assert [] + t == t && [] + u == u;
    }
  }

  lemma {:induction false} FinishedShown(cfg: Config, l: NodeList)
    requires FinishedIn(cfg, l)
    ensures AllShown(l)
    decreases l
  {
    if l.Cons? {
      if l.head.Element? { FinishedShown(cfg, l.head.children); }
      FinishedShown(cfg, l.tail);
    }
  }

  /** A finished document is its own canonical form if and only if all its declarations are news. */
  lemma FinishedIff(cfg: Config, doc: NodeList)
    requires !cfg.exclusive && FinishedIn(cfg, doc)
    ensures CanonDocument(cfg, doc) == LiteralList(doc, Before, true).tokens <==> TidyIn(doc, [])
  {
    hide FinishedIn, StacklessList, LiteralList, CanonDocument, TidyIn, AllShown, ElementwiseList;
    FinishedShown(cfg, doc);
    ShownElementwise(doc, []);
    NothingSuperfluous(cfg, doc);
    ListTidyIff(cfg, doc, [], Before, true, [], []);
    var c, r := CanonDocument(cfg, doc), LiteralList(doc, Before, true).tokens;
    assert Axis([], {}) == [];
    assert c + [] == c && r + [] == r;
  }

  // ----- What is written is finished -----

  lemma {:induction false} AppendFinished(cfg: Config, a: NodeList, b: NodeList)
    requires FinishedIn(cfg, a) && FinishedIn(cfg, b)
    ensures FinishedIn(cfg, Append(a, b))
    decreases a
  {
    hide Finished;
    if a.Cons? { AppendFinished(cfg, a.tail, b); }
  }

  lemma {:induction false} AppendTidy(a: NodeList, b: NodeList, chain: Chain)
    ensures TidyIn(Append(a, b), chain) <==> TidyIn(a, chain) && TidyIn(b, chain)
    decreases a
  {
    hide Tidy;
    if a.Cons? { AppendTidy(a.tail, b, chain); }
  }

  lemma WrittenElement(cfg: Config, st: Stack, chain: Chain, e: Node, parents: Chain)
    requires !cfg.exclusive && e.Element? && WindowOk(st) && KeysOk(e.attrs) && FramesOk(parents)
    ensures var list, attrs := NamespaceAxis(cfg, st, chain, e).list, ShowAll(AttrsAxis(cfg, e.attrs, parents, true));
            && Sorted(list, NsBefore) && (forall ns :: ns in list ==> ns.prefix != "xml")
            && InsertVisible([], attrs) == attrs
  {
    hide InclusiveAxis, Axis, Search, AttrsAxis, InsertVisible, ShowAll, KeysOk;
    InclusiveEffect(st, chain, e.hidden, e.visible);
    AxisMembers(chain, e.hidden);
    var l := AttrsAxis(cfg, e.attrs, parents, true);
    AttrsAxisOrdered(cfg, e.attrs, parents, true);
    ShowAllOrdered(l);
    ShowAllTokens(l);
    assert forall a :: a in ShowAll(l) ==> a.visible;
    AttrsStay(cfg, ShowAll(l));
  }

  lemma AttrsStay(cfg: Config, l: seq<Attr>)
    requires Ordered(l) && KeysOk(l) && forall a :: a in l ==> a.visible
    ensures InsertVisible([], l) == l
  {
    hide InsertVisible;
    OrderedAttrsStay(cfg, l, []);
  }

  lemma {:induction false} NodeFinished(cfg: Config, n: Node, chain: Chain, st: Stack)
    requires !cfg.exclusive && WindowOk(st) && UniqueAttrs(n) && FramesOk(chain)
    ensures FinishedIn(cfg, Written(cfg, n, chain, st))
    decreases n
  {
    if n.Element? {
      hide NamespaceAxis, AttrsAxis, ShowAll, InsertVisible, UniqueAttrsIn, KeysOk, WrittenList;
      var chain' := [FrameOf(n)] + chain;
      ListFinished(cfg, n.children, chain', StackBelow(cfg, st, chain', n));
      WrittenElement(cfg, st, chain', n, chain);
    }
  }

  lemma {:induction false} ListFinished(cfg: Config, l: NodeList, chain: Chain, st: Stack)
    requires !cfg.exclusive && WindowOk(st) && UniqueAttrsIn(l) && FramesOk(chain)
    ensures FinishedIn(cfg, WrittenList(cfg, l, chain, st))
    decreases l
  {
    hide UniqueAttrs, Written;
    if l.Cons? {
      NodeFinished(cfg, l.head, chain, st);
      ListFinished(cfg, l.tail, chain, st);
      AppendFinished(cfg, Written(cfg, l.head, chain, st), WrittenList(cfg, l.tail, chain, st));
    }
  }

  // ----- The condition on the source -----

  /** Some of these declarations is in force already. */
  ghost predicate Repeats(l: seq<Ns>, ctx: Ctx) {
    exists ns :: ns in l && ns.prefix in ctx && ctx[ns.prefix] == ns.href
  }

  /**
    Somewhere in the source xmlns="" is superfluous, or an element shows a namespace that its
    nearest output ancestor does not, although it is in force: `prev` is the axis of that ancestor,
    `last` the default namespace rendered last, `ctx` what is in force.
   */
  ghost predicate Restates(n: Node, chain: Chain, prev: seq<Ns>, last: string, ctx: Ctx)
    decreases n
  {
    n.Element? &&
    var chain' := [FrameOf(n)] + chain;
    var axis := Axis(chain', n.hidden);
    var decls := RecommendedDecls(prev, axis, true);
    if n.visible then
      || Superfluous(prev, axis, true, last)
      || Repeats(decls, ctx)
      || RestatesIn(n.children, chain', axis, LastRendered(axis, last), Declare(ctx, decls))
    else RestatesIn(n.children, chain', prev, last, ctx)
  }

  ghost predicate RestatesIn(l: NodeList, chain: Chain, prev: seq<Ns>, last: string, ctx: Ctx)
    decreases l
  {
    l.Cons? && (Restates(l.head, chain, prev, last, ctx) || RestatesIn(l.tail, chain, prev, last, ctx))
  }

  /** What is in force is what the written ancestors declare. */
  ghost predicate Tells(chain: Chain, ctx: Ctx) {
    forall p :: p != "xml" ==>
      (Search(chain, p).Some? <==> p in ctx) && (p in ctx ==> Search(chain, p).value.href == ctx[p])
  }

  /** The namespaces of the nearest output ancestor are in force, and no default if it has none. */
  ghost predicate Holds(prev: seq<Ns>, ctx: Ctx) {
    && (forall ns :: ns in prev && ns != DEFAULT_UNDECLARED ==> ns.prefix in ctx && ctx[ns.prefix] == ns.href)
    && (!NonemptyDefault(prev) ==> Bound(ctx, "") == "")
  }

  lemma {:induction false} DeclareAt(ctx: Ctx, l: seq<Ns>, p: string)
    requires DistinctPrefixes(l)
    ensures forall ns :: ns in l && ns.prefix == p ==> p in Declare(ctx, l) && Declare(ctx, l)[p] == ns.href
    ensures (forall ns :: ns in l ==> ns.prefix != p) ==>
            (p in Declare(ctx, l) <==> p in ctx) && (p in ctx ==> Declare(ctx, l)[p] == ctx[p])
    decreases l
  {
    if l != [] {
      assert l == [l[0]] + l[1..];
      assert forall i :: 0 <= i < |l[1..]| ==> l[1..][i] == l[i + 1];
      DeclareAt(ctx[l[0].prefix := l[0].href], l[1..], p);
      forall ns | ns in l[1..] ensures ns.prefix != l[0].prefix { TailApart(l, ns); }
    }
  }

  lemma TellsBelow(frame: Frame, chain: Chain, ctx: Ctx)
    requires Tells(chain, ctx) && DistinctPrefixes(frame.nsDefs)
    ensures Tells([frame] + chain, Declare(ctx, frame.nsDefs))
  {
    hide Search, Declare;
    var defs := frame.nsDefs;
    forall p | p != "xml"
      ensures var r := Search([frame] + chain, p);
              (r.Some? <==> p in Declare(ctx, defs))
                && (p in Declare(ctx, defs) ==> r.value.href == Declare(ctx, defs)[p])
    {
      SearchStep(frame, chain, p);
      DeclareAt(ctx, defs, p);
      var k := DefIndex(defs, p);
      if k < |defs| { assert defs[k] in defs; }
    }
  }

  lemma HoldsBelow(prev: seq<Ns>, axis: seq<Ns>, ctx: Ctx)
    requires Holds(prev, ctx) && DistinctPrefixes(axis)
    ensures Holds(axis, Declare(ctx, RecommendedDecls(prev, axis, true)))
  {
    hide RecommendedDecls, Declare;
    var l := RecommendedDecls(prev, axis, true);
    RecommendedMembers(prev, axis, true);
    SortedDistinct(l);
    forall ns | ns in axis && ns != DEFAULT_UNDECLARED
      ensures ns.prefix in Declare(ctx, l) && Declare(ctx, l)[ns.prefix] == ns.href
    {
      DeclareAt(ctx, l, ns.prefix);
      if ns !in l {
        forall x | x in l ensures x.prefix != ns.prefix {
          if x.prefix == ns.prefix && x in axis { DistinctMembers(axis, x, ns); }
        }
      }
    }
    if !NonemptyDefault(axis) {
      DeclareAt(ctx, l, "");
    }
  }

  /** Declarations are news in what is written exactly if they do not repeat what is in force. */
  lemma NewsUnlessRepeated(prev: seq<Ns>, axis: seq<Ns>, chain: Chain, ctx: Ctx)
    requires Tells(chain, ctx) && Holds(prev, ctx) && DistinctPrefixes(axis)
    requires forall ns :: ns in axis ==> ns.prefix != "xml"
    ensures News(RecommendedDecls(prev, axis, true), chain) <==> !Repeats(RecommendedDecls(prev, axis, true), ctx)
  {
    hide Search, RecommendedDecls;
    var l := RecommendedDecls(prev, axis, true);
    RecommendedMembers(prev, axis, true);
    forall ns | ns in l
      ensures Search(chain, ns.prefix) == Some(ns) <==> ns.prefix in ctx && ctx[ns.prefix] == ns.href
    {
      var r := Search(chain, ns.prefix);
      assert r.Some? ==> r.value == Ns(r.value.prefix, r.value.href) && ns == Ns(ns.prefix, ns.href);
    }
    if DEFAULT_UNDECLARED in l {
      var x :| x in prev && x.prefix == "" && x.href != "";
      assert x.prefix in ctx;
    }
  }

  /** A superfluous xmlns="" is no news. */
  lemma SuperfluousNoNews(prev: seq<Ns>, axis: seq<Ns>, last: string, chain: Chain, ctx: Ctx)
    requires Tells(chain, ctx) && Holds(prev, ctx) && Superfluous(prev, axis, true, last)
    ensures !News([DEFAULT_UNDECLARED] + RecommendedDecls(prev, axis, true), chain)
  {
    hide Search, RecommendedDecls;
    var l := [DEFAULT_UNDECLARED] + RecommendedDecls(prev, axis, true);
    assert DEFAULT_UNDECLARED in l;
    var r := Search(chain, "");
    assert Bound(ctx, "") == "";
    if r.Some? { assert r.value.href == ctx[""]; }
  }

  lemma {:induction false} NodeStable(cfg: Config, n: Node, chain: Chain, st: Stack, prev: seq<Ns>, rchain: Chain,
                                      ctx: Ctx)
    requires !cfg.exclusive && WindowHolds(st, prev) && Tells(rchain, ctx) && Holds(prev, ctx)
    ensures TidyIn(Written(cfg, n, chain, st), rchain) <==> !Restates(n, chain, prev, LastDefault(st), ctx)
    decreases n
  {
    if n.Element? {
      hide Axis, Tells, Holds, WindowHolds, AttrsAxis, WrittenList, TidyIn, RestatesIn, LastDefault, InclusiveAxis;
      hide RecommendedDecls, Declare, News, Repeats, Superfluous, LastRendered;
      var chain' := [FrameOf(n)] + chain;
      WindowOks(st, prev);
      WindowStep(st, prev, chain', n.hidden, n.visible);
      if n.visible {
        VisibleStable(cfg, n, chain, st, prev, rchain, ctx);
      } else {
        ListStable(cfg, n.children, chain', StackBelow(cfg, st, chain', n), prev, rchain, ctx);
      }
    } else {
      hide *;
      WindowOks(st, prev);
      LeafStable(cfg, n, chain, st, prev, rchain, ctx);
    }
  }

  lemma LeafStable(cfg: Config, n: Node, chain: Chain, st: Stack, prev: seq<Ns>, rchain: Chain, ctx: Ctx)
    requires !n.Element? && WindowOk(st)
    ensures TidyIn(Written(cfg, n, chain, st), rchain) && !Restates(n, chain, prev, LastDefault(st), ctx)
  {
  }

  lemma VisibleStable(cfg: Config, n: Node, chain: Chain, st: Stack, prev: seq<Ns>, rchain: Chain, ctx: Ctx)
    requires !cfg.exclusive && WindowHolds(st, prev) && Tells(rchain, ctx) && Holds(prev, ctx)
    requires n.Element? && n.visible
    ensures TidyIn(Written(cfg, n, chain, st), rchain) <==> !Restates(n, chain, prev, LastDefault(st), ctx)
    decreases n, 0
  {
    hide Axis, Tells, Holds, WindowHolds, AttrsAxis, WrittenList, TidyIn, RestatesIn, LastDefault, InclusiveAxis;
    hide RecommendedDecls, Declare, News, Repeats, Superfluous, LastRendered, ShowAll;
    var chain' := [FrameOf(n)] + chain;
    var axis := Axis(chain', n.hidden);
    var decls := RecommendedDecls(prev, axis, true);
    WindowOks(st, prev);
    var e := Written(cfg, n, chain, st).head;
    OneTidy(e, rchain);
    ElementDecls(st, prev, chain', n.hidden, true);
    AxisMembers(chain', n.hidden);
    WindowStep(st, prev, chain', n.hidden, true);
    if Superfluous(prev, axis, true, LastDefault(st)) {
      SuperfluousNoNews(prev, axis, LastDefault(st), rchain, ctx);
    } else {
      assert [] + decls == decls && e.nsDefs == decls;
      RecommendedMembers(prev, axis, true);
      SortedDistinct(decls);
      NewsUnlessRepeated(prev, axis, rchain, ctx);
      HoldsBelow(prev, axis, ctx);
      TellsBelow(FrameOf(e), rchain, ctx);
      ListStable(cfg, n.children, chain', StackBelow(cfg, st, chain', n), axis, [FrameOf(e)] + rchain,
                 Declare(ctx, decls));
    }
  }

  lemma OneTidy(n: Node, chain: Chain)
    ensures TidyIn(Cons(n, Nil), chain) <==> Tidy(n, chain)
  {
    hide Tidy;
  }

  lemma {:induction false} ListStable(cfg: Config, l: NodeList, chain: Chain, st: Stack, prev: seq<Ns>, rchain: Chain,
                                      ctx: Ctx)
    requires !cfg.exclusive && WindowHolds(st, prev) && Tells(rchain, ctx) && Holds(prev, ctx)
    ensures TidyIn(WrittenList(cfg, l, chain, st), rchain) <==> !RestatesIn(l, chain, prev, LastDefault(st), ctx)
    decreases l
  {
    hide WindowHolds, Tells, Holds, Written, Restates, Tidy, LastDefault;
    WindowOks(st, prev);
    if l.Cons? {
      NodeStable(cfg, l.head, chain, st, prev, rchain, ctx);
      ListStable(cfg, l.tail, chain, st, prev, rchain, ctx);
      AppendTidy(Written(cfg, l.head, chain, st), WrittenList(cfg, l.tail, chain, st), rchain);
    }
  }

  /**
    For every document without repeated attributes whose omitted elements show nothing of their
    own: the canonical form is the literal serialization of a document, and the canonical form of
    that document is the same if and only if in the source no xmlns="" is superfluous and no
    element shows a namespace that is in force although its nearest output ancestor hides it.
   */
  lemma StableIff(cfg: Config, doc: NodeList)
    requires !cfg.exclusive && QuietIn(cfg, doc, []) && UniqueAttrsIn(doc)
    ensures var canonical := WrittenList(cfg, doc, [], EMPTY_STACK);
            && LiteralList(canonical, Before, true).tokens == CanonDocument(cfg, doc)
            && (CanonDocument(cfg, canonical) == CanonDocument(cfg, doc)
                <==> !RestatesIn(doc, [], [], "", map[]))
  {
    hide QuietIn, UniqueAttrsIn, LiteralList, TidyIn, RestatesIn, FinishedIn, CanonList, WindowHolds;
    var canonical := WrittenList(cfg, doc, [], EMPTY_STACK);
    ListWritten(cfg, doc, [], EMPTY_STACK, Before, true);
    ListFinished(cfg, doc, [], EMPTY_STACK);
    FinishedIff(cfg, canonical);
    StartStable();
    ListStable(cfg, doc, [], EMPTY_STACK, [], [], map[]);
  }

  lemma StartStable()
    ensures WindowHolds(EMPTY_STACK, []) && LastDefault(EMPTY_STACK) == "" && Tells([], map[]) && Holds([], map[])
  {
    assert EMPTY_STACK.tab[0..] == Entries([], {});
  }
}
