/**
  Canonicalizing the canonical form changes nothing.

  `Rebuild` is the document the canonical form describes: the shown elements with the written
  declarations and attributes only. Its literal serialization is the canonical form, and so is
  its canonical form.
 */
module C14nIdempotent {
  import opened Ordering
  import opened C14nTree
  import opened C14nSpec
  import opened C14nNamespaces
  import opened C14nRecommendation
  import opened C14nAttributes

  function Append(a: NodeList, b: NodeList): NodeList {
    match a
    case Nil => b
    case Cons(n, tail) => Cons(n, Append(tail, b))
  }

  function ShowAll(l: seq<Attr>): seq<Attr> {
    if l == [] then [] else [l[0].(visible := true)] + ShowAll(l[1..])
  }

  function Rebuild(cfg: Config, n: Node, chain: Chain, prev: seq<Ns>): NodeList
    decreases n
  {
    match n
    case Element(name, ns, nsDefs, attrs, children, visible, hidden) =>
      var chain' := [FrameOf(n)] + chain;
      var axis := Axis(chain', hidden);
      var inner := RebuildList(cfg, children, chain', if visible then axis else prev);
      if visible then
        Cons(Element(name, ns, RecommendedDecls(prev, axis, true), ShowAll(AttrsAxis(cfg, attrs, chain, true)), inner,
                     true, {}), Nil)
      else inner
    case Text(_, visible) => if visible then Cons(n, Nil) else Nil
    case Comment(_, visible) => if visible && cfg.withComments then Cons(n, Nil) else Nil
    case PI(_, _, visible) => if visible then Cons(n, Nil) else Nil
    case _ => Nil
  }

  function RebuildList(cfg: Config, l: NodeList, chain: Chain, prev: seq<Ns>): NodeList
    decreases l
  {
    match l
    case Nil => Nil
    case Cons(n, tail) => Append(Rebuild(cfg, n, chain, prev), RebuildList(cfg, tail, chain, prev))
  }

  /** A document written down as it stands. */
  function Literal(n: Node, pos: Position, atDoc: bool): Out
    decreases n
  {
    match n
    case Element(name, ns, nsDefs, attrs, children, _, _) =>
      var body := LiteralList(children, if atDoc then Inside else pos, false);
      Out([Open(NsPrefix(ns), name)] + DeclTokens(nsDefs) + AttrTokens(attrs) + [Gt] + body.tokens
          + [Close(NsPrefix(ns), name)],
          if atDoc then After else body.pos)
    case Text(content, _) => Out([Chars(content)], pos)
    case Comment(content, _) => Out([CommentTok(pos == After, content, pos == Before)], pos)
    case PI(target, content, _) => Out([PITok(pos == After, target, content, pos == Before)], pos)
    case _ => Out([], pos)
  }

  function LiteralList(l: NodeList, pos: Position, atDoc: bool): Out
    decreases l
  {
    match l
    case Nil => Out([], pos)
    case Cons(n, tail) =>
      var first := Literal(n, pos, atDoc);
      var rest := LiteralList(tail, first.pos, atDoc);
      Out(first.tokens + rest.tokens, rest.pos)
  }

  // ----- Joining lists -----

  /** One run of nodes after another. */
  function Then(a: Out, b: Out): Out {
    Out(a.tokens + b.tokens, b.pos)
  }

  lemma ThenAssociative(a: Out, b: Out, c: Out)
    ensures Then(Then(a, b), c) == Then(a, Then(b, c))
  {
    assert (a.tokens + b.tokens) + c.tokens == a.tokens + (b.tokens + c.tokens);
  }

  lemma {:induction false} LiteralAppend(a: NodeList, b: NodeList, pos: Position, atDoc: bool)
    ensures LiteralList(Append(a, b), pos, atDoc) ==
            Then(LiteralList(a, pos, atDoc), LiteralList(b, LiteralList(a, pos, atDoc).pos, atDoc))
    decreases a
  {
    match a
    case Nil =>
      assert [] + LiteralList(b, pos, atDoc).tokens == LiteralList(b, pos, atDoc).tokens;
    case Cons(n, t) =>
      var head := Literal(n, pos, atDoc);
      var tail := LiteralList(t, head.pos, atDoc);
      LiteralAppend(t, b, head.pos, atDoc);
      ThenAssociative(head, tail, LiteralList(b, tail.pos, atDoc));
  }

  lemma {:induction false} StacklessAppend(cfg: Config, a: NodeList, b: NodeList, chain: Chain, prev: seq<Ns>,
                                           pos: Position, atDoc: bool)
    ensures var first := StacklessList(cfg, a, chain, prev, pos, atDoc);
            StacklessList(cfg, Append(a, b), chain, prev, pos, atDoc) ==
            Then(first, StacklessList(cfg, b, chain, prev, first.pos, atDoc))
    decreases a
  {
    match a
    case Nil =>
      var rest := StacklessList(cfg, b, chain, prev, pos, atDoc);
      assert [] + rest.tokens == rest.tokens;
    case Cons(n, t) =>
      var head := Stackless(cfg, n, chain, prev, pos, atDoc);
      var tail := StacklessList(cfg, t, chain, prev, head.pos, atDoc);
      StacklessAppend(cfg, t, b, chain, prev, head.pos, atDoc);
      ThenAssociative(head, tail, StacklessList(cfg, b, chain, prev, tail.pos, atDoc));
  }

  // ----- Attributes -----

  lemma {:induction false} ShowAllTokens(l: seq<Attr>)
    ensures AttrTokens(ShowAll(l)) == AttrTokens(l) && |ShowAll(l)| == |l|
    ensures forall i :: 0 <= i < |l| ==> ShowAll(l)[i] == l[i].(visible := true)
  {
    if l != [] {
      ShowAllTokens(l[1..]);
      assert ShowAll(l)[1..] == ShowAll(l[1..]);
    }
  }

  lemma BeforeShown(a: Attr, b: Attr)
    requires KeyOk(a) && KeyOk(b)
    ensures AttrBefore(a.(visible := true), b.(visible := true)) == AttrBefore(a, b)
  {
    CompareByKey(a, b);
    CompareByKey(a.(visible := true), b.(visible := true));
  }

  lemma ShowAllOrdered(l: seq<Attr>)
    requires Ordered(l)
    ensures Ordered(ShowAll(l)) && KeysOk(ShowAll(l))
  {
    ShowAllTokens(l);
    var m := ShowAll(l);
    forall i, j | 0 <= i < j < |m| ensures AttrBefore(m[i], m[j]) && !SameKey(m[i], m[j]) {
      assert l[i] in l && l[j] in l;
      BeforeShown(l[i], l[j]);
      CompareAntisymmetric(l[i], l[j]);
    }
    forall a | a in m ensures KeyOk(a) {
      var i :| 0 <= i < |m| && m[i] == a;
      assert l[i] in l;
    }
  }

  /** Attributes that are already in order, all shown below a shown parent, are written as they stand. */
  lemma OrderedAttrsStay(cfg: Config, l: seq<Attr>, parents: Chain)
    requires Ordered(l) && KeysOk(l) && (forall a :: a in l ==> a.visible) && (parents != [] ==> parents[0].visible)
    ensures AttrsAxis(cfg, l, parents, true) == l
  {
    VisibleOrdered([], l);
    OrderedUnique(InsertVisible([], l), l);
  }

  // ----- Namespaces -----

  /** The nonempty binding of a prefix, if it has one. */
  function Binding(chain: Chain, p: string): Option<Ns> {
    match Search(chain, p)
    case None => None
    case Some(ns) => if ns == DEFAULT_UNDECLARED then None else Some(ns)
  }

  /** In the rebuilt document exactly the namespaces of the nearest output ancestor are bound. */
  ghost predicate Represents(rchain: Chain, prev: seq<Ns>) {
    forall ns :: ns != DEFAULT_UNDECLARED && ns.prefix != "xml" ==>
        (ns in prev <==> Binding(rchain, ns.prefix) == Some(ns))
  }

  /** Two axes with the same nonempty namespace nodes get the same declarations. */
  lemma SameDecls(p: seq<Ns>, q: seq<Ns>, a: seq<Ns>, b: seq<Ns>)
    requires DistinctPrefixes(a) && DistinctPrefixes(b)
    requires forall ns :: ns != DEFAULT_UNDECLARED ==> (ns in p <==> ns in q) && (ns in a <==> ns in b)
    ensures RecommendedDecls(p, a, true) == RecommendedDecls(q, b, true)
  {
    RecommendedMembers(p, a, true);
    RecommendedMembers(q, b, true);
    assert NonemptyDefault(a) <==> NonemptyDefault(b);
    assert NonemptyDefault(p) <==> NonemptyDefault(q);
    SameSorted(RecommendedDecls(p, a, true), RecommendedDecls(q, b, true));
  }

  ghost predicate InScopeAll(prev: seq<Ns>, chain: Chain) {
    forall ns :: ns in prev ==> Search(chain, ns.prefix).Some?
  }

  /** The declarations of a rebuilt element bring its bindings up to its source axis. */
  lemma DeclsRepresent(rchain: Chain, prev: seq<Ns>, chain: Chain, attrs: seq<Attr>)
    requires Represents(rchain, prev) && InScopeAll(prev, chain)
    ensures var axis := Axis(chain, {});
            var frame := Frame(RecommendedDecls(prev, axis, true), attrs, true);
            Represents([frame] + rchain, axis)
  {
    hide Axis, RecommendedDecls, Search, DefIndex;
    var axis := Axis(chain, {});
    var decls := RecommendedDecls(prev, axis, true);
    var frame := Frame(decls, attrs, true);
    AxisMembers(chain, {});
    RecommendedMembers(prev, axis, true);
    SortedDistinct(decls);
    forall ns | ns != DEFAULT_UNDECLARED && ns.prefix != "xml"
      ensures ns in axis <==> Binding([frame] + rchain, ns.prefix) == Some(ns)
    {
      SearchStep(frame, rchain, ns.prefix);
      BindingRepresents(rchain, prev, chain, decls, ns);
    }
  }

  lemma BindingRepresents(rchain: Chain, prev: seq<Ns>, chain: Chain, decls: seq<Ns>, ns: Ns)
    requires Represents(rchain, prev) && InScopeAll(prev, chain) && ns != DEFAULT_UNDECLARED && ns.prefix != "xml"
    requires decls == RecommendedDecls(prev, Axis(chain, {}), true)
    ensures var k := DefIndex(decls, ns.prefix);
            ns in Axis(chain, {}) <==> (if k < |decls| then decls[k] == ns else Binding(rchain, ns.prefix) == Some(ns))
  {
    var axis := Axis(chain, {});
    AxisMembers(chain, {});
    RecommendedMembers(prev, axis, true);
    SortedDistinct(decls);
    var k := DefIndex(decls, ns.prefix);
    if k < |decls| {
      assert decls[k] in decls;
      if ns in axis && decls[k] != ns {
        if decls[k] in axis { DistinctMembers(axis, decls[k], ns); }
      }
    } else if ns in axis {
      assert ns !in decls;
    } else if ns in prev {
      // the prefix is in scope with another meaning, which then had to be declared
      var other := Search(chain, ns.prefix).value;
      assert other in axis && other != ns;
      OnlyOne(rchain, prev, ns, other);
    }
  }

  lemma OnlyOne(rchain: Chain, prev: seq<Ns>, ns: Ns, other: Ns)
    requires Represents(rchain, prev) && ns in prev && ns != DEFAULT_UNDECLARED && ns.prefix != "xml"
    requires other.prefix == ns.prefix && other != ns
    ensures other == DEFAULT_UNDECLARED || other !in prev
    ensures ns.prefix == "" ==> NonemptyDefault(prev)
  {
  }

  // ----- Whole documents -----

  /** Attributes are shown only with their elements, and are well-formed. */
  ghost predicate AttrsElementwise(n: Node)
    decreases n
  {
    n.Element? ==>
      KeysOk(n.attrs) && (n.visible || InsertVisible([], n.attrs) == []) && AllAttrsElementwise(n.children)
  }

  ghost predicate AllAttrsElementwise(l: NodeList)
    decreases l
  {
    l.Cons? ==> AttrsElementwise(l.head) && AllAttrsElementwise(l.tail)
  }

  /** Declarations depend on the nonempty namespace nodes of the nearest output ancestor only. */
  ghost predicate SameNodes(p: seq<Ns>, q: seq<Ns>) {
    forall ns :: ns != DEFAULT_UNDECLARED ==> (ns in p <==> ns in q)
  }

  /** The axis of a rebuilt element has the nonempty namespace nodes of the source axis. */
  lemma SameAxis(chain: Chain, rchain: Chain)
    requires Represents(rchain, Axis(chain, {}))
    ensures DistinctPrefixes(Axis(chain, {})) && DistinctPrefixes(Axis(rchain, {}))
    ensures SameNodes(Axis(chain, {}), Axis(rchain, {}))
  {
    hide Axis;
    AxisMembers(chain, {});
    AxisMembers(rchain, {});
  }

  /** What an element of the source and the rebuilt element have in common. */
  lemma RebuiltStartTag(cfg: Config, n: Node, chain: Chain, prev: seq<Ns>, rchain: Chain, attrs: seq<Attr>)
    requires n.Element? && n.visible && n.hidden == {} && KeysOk(n.attrs) && FramesOk(chain)
    requires Represents(rchain, prev) && InScopeAll(prev, chain) && (rchain != [] ==> rchain[0].visible)
    requires attrs == ShowAll(AttrsAxis(cfg, n.attrs, chain, true))
    ensures var axis := Axis([FrameOf(n)] + chain, {});
            var decls := RecommendedDecls(prev, axis, true);
            var raxis := Axis([Frame(decls, attrs, true)] + rchain, {});
            && RecommendedDecls(prev, raxis, true) == decls
            && AttrsAxis(cfg, attrs, rchain, true) == attrs
            && AttrTokens(attrs) == AttrTokens(AttrsAxis(cfg, n.attrs, chain, true))
            && Represents([Frame(decls, attrs, true)] + rchain, axis)
            && (forall ns :: ns != DEFAULT_UNDECLARED ==> (ns in axis <==> ns in raxis))
            && InScopeAll(axis, [FrameOf(n)] + chain)
  {
    hide RecommendedDecls, AttrsAxis, ShowAll, Represents, Search, KeysOk;
    var chain' := [FrameOf(n)] + chain;
    var axis := Axis(chain', {});
    var decls := RecommendedDecls(prev, axis, true);
    var rchain' := [Frame(decls, attrs, true)] + rchain;
    forall ns | ns in prev ensures Search(chain', ns.prefix).Some? { SearchStep(FrameOf(n), chain, ns.prefix); }
    DeclsRepresent(rchain, prev, chain', attrs);
    AxisMembers(chain', {});
    SameAxis(chain', rchain');
    SameDecls(prev, prev, axis, Axis(rchain', {}));
    AttrsAxisOrdered(cfg, n.attrs, chain, true);
    ShowAllOrdered(AttrsAxis(cfg, n.attrs, chain, true));
    ShowAllTokens(AttrsAxis(cfg, n.attrs, chain, true));
    OrderedAttrsStay(cfg, attrs, rchain);
  }

  lemma {:induction false} NodeIdempotent(cfg: Config, n: Node, chain: Chain, prev: seq<Ns>, rchain: Chain,
                                          rprev: seq<Ns>, pos: Position, atDoc: bool)
    requires Elementwise(n, chain) && AttrsElementwise(n) && FramesOk(chain)
    requires Represents(rchain, prev) && InScopeAll(prev, chain) && (rchain != [] ==> rchain[0].visible)
             && SameNodes(prev, rprev)
    ensures StacklessList(cfg, Rebuild(cfg, n, chain, prev), rchain, rprev, pos, atDoc)
            == Stackless(cfg, n, chain, prev, pos, atDoc)
    ensures LiteralList(Rebuild(cfg, n, chain, prev), pos, atDoc) == Stackless(cfg, n, chain, prev, pos, atDoc)
    decreases n
  {
    hide *;
    if !n.Element? {
      LeafIdempotent(cfg, n, chain, prev, rchain, rprev, pos, atDoc);
    } else if n.visible {
      VisibleIdempotent(cfg, n, chain, prev, rchain, rprev, pos, atDoc);
    } else {
      OmittedIdempotent(cfg, n, chain, prev, rchain, rprev, pos, atDoc);
    }
  }

  lemma LeafIdempotent(cfg: Config, n: Node, chain: Chain, prev: seq<Ns>, rchain: Chain, rprev: seq<Ns>, pos: Position,
                       atDoc: bool)
    requires !n.Element?
    ensures StacklessList(cfg, Rebuild(cfg, n, chain, prev), rchain, rprev, pos, atDoc)
            == Stackless(cfg, n, chain, prev, pos, atDoc)
    ensures LiteralList(Rebuild(cfg, n, chain, prev), pos, atDoc) == Stackless(cfg, n, chain, prev, pos, atDoc)
  {
  }

  lemma OmittedIdempotent(cfg: Config, n: Node, chain: Chain, prev: seq<Ns>, rchain: Chain, rprev: seq<Ns>,
                          pos: Position, atDoc: bool)
    requires n.Element? && !n.visible
    requires Elementwise(n, chain) && AttrsElementwise(n) && FramesOk(chain)
    requires Represents(rchain, prev) && InScopeAll(prev, chain) && (rchain != [] ==> rchain[0].visible)
             && SameNodes(prev, rprev)
    ensures StacklessList(cfg, Rebuild(cfg, n, chain, prev), rchain, rprev, pos, atDoc)
            == Stackless(cfg, n, chain, prev, pos, atDoc)
    ensures LiteralList(Rebuild(cfg, n, chain, prev), pos, atDoc) == Stackless(cfg, n, chain, prev, pos, atDoc)
    decreases n, 0
  {
    hide Represents, SameNodes, Axis, LiteralList, StacklessList, RebuildList;
    var chain' := [FrameOf(n)] + chain;
    forall ns | ns in prev ensures Search(chain', ns.prefix).Some? { SearchStep(FrameOf(n), chain, ns.prefix); }
    ListIdempotent(cfg, n.children, chain', prev, rchain, rprev, pos, atDoc);
    assert NewNodes([], prev) == [];
    OmittedWritesNothing(cfg, n, chain, prev, pos, atDoc);
  }

  lemma OmittedWritesNothing(cfg: Config, n: Node, chain: Chain, prev: seq<Ns>, pos: Position, atDoc: bool)
    requires n.Element? && !n.visible && InsertVisible([], n.attrs) == [] && Axis([FrameOf(n)] + chain, n.hidden) == []
    ensures Stackless(cfg, n, chain, prev, pos, atDoc) ==
            StacklessList(cfg, n.children, [FrameOf(n)] + chain, prev, pos, atDoc)
  {
    hide StacklessList, Axis;
    var body := StacklessList(cfg, n.children, [FrameOf(n)] + chain, prev, pos, atDoc);
    assert NewNodes([], prev) == [];
    assert RecommendedDecls(prev, Axis([FrameOf(n)] + chain, n.hidden), false) == [];
    assert AttrsAxis(cfg, n.attrs, chain, false) == [];
    assert [] + body.tokens + [] == body.tokens;
  }

  lemma VisibleIdempotent(cfg: Config, n: Node, chain: Chain, prev: seq<Ns>, rchain: Chain, rprev: seq<Ns>,
                          pos: Position, atDoc: bool)
    requires n.Element? && n.visible
    requires Elementwise(n, chain) && AttrsElementwise(n) && FramesOk(chain)
    requires Represents(rchain, prev) && InScopeAll(prev, chain) && (rchain != [] ==> rchain[0].visible)
             && SameNodes(prev, rprev)
    ensures StacklessList(cfg, Rebuild(cfg, n, chain, prev), rchain, rprev, pos, atDoc)
            == Stackless(cfg, n, chain, prev, pos, atDoc)
    ensures LiteralList(Rebuild(cfg, n, chain, prev), pos, atDoc) == Stackless(cfg, n, chain, prev, pos, atDoc)
    decreases n, 0
  {
    hide RecommendedDecls, AttrsAxis, ShowAll, Represents, Search, KeysOk;
    var chain' := [FrameOf(n)] + chain;
    var axis := Axis(chain', {});
    var attrs := ShowAll(AttrsAxis(cfg, n.attrs, chain, true));
    var decls := RecommendedDecls(prev, axis, true);
    var rchain' := [Frame(decls, attrs, true)] + rchain;
    var raxis := Axis(rchain', {});
    var pos1 := if atDoc then Inside else pos;
    RebuiltStartTag(cfg, n, chain, prev, rchain, attrs);
    AxisMembers(rchain', {});
    SameDecls(prev, rprev, raxis, raxis);
    ListIdempotent(cfg, n.children, chain', axis, rchain', raxis, pos1, false);
    var inner := RebuildList(cfg, n.children, chain', axis);
    var e := Element(n.name, n.ns, decls, attrs, inner, true, {});
    assert Rebuild(cfg, n, chain, prev) == Cons(e, Nil);
    assert FrameOf(e) == Frame(decls, attrs, true);
    var r := Stackless(cfg, n, chain, prev, pos, atDoc);
    assert Stackless(cfg, e, rchain, rprev, pos, atDoc) == r;
    assert Literal(e, pos, atDoc) == r;
    assert r.tokens + [] == r.tokens;
  }

  lemma {:induction false} ListIdempotent(cfg: Config, l: NodeList, chain: Chain, prev: seq<Ns>, rchain: Chain,
                                          rprev: seq<Ns>, pos: Position, atDoc: bool)
    requires ElementwiseList(l, chain) && AllAttrsElementwise(l) && FramesOk(chain)
    requires Represents(rchain, prev) && InScopeAll(prev, chain) && (rchain != [] ==> rchain[0].visible)
             && SameNodes(prev, rprev)
    ensures StacklessList(cfg, RebuildList(cfg, l, chain, prev), rchain, rprev, pos, atDoc)
            == StacklessList(cfg, l, chain, prev, pos, atDoc)
    ensures LiteralList(RebuildList(cfg, l, chain, prev), pos, atDoc) == StacklessList(cfg, l, chain, prev, pos, atDoc)
    decreases l
  {
    if l.Cons? {
      var first := Stackless(cfg, l.head, chain, prev, pos, atDoc);
      NodeIdempotent(cfg, l.head, chain, prev, rchain, rprev, pos, atDoc);
      ListIdempotent(cfg, l.tail, chain, prev, rchain, rprev, first.pos, atDoc);
      StacklessAppend(cfg, Rebuild(cfg, l.head, chain, prev), RebuildList(cfg, l.tail, chain, prev), rchain, rprev,
                      pos, atDoc);
      LiteralAppend(Rebuild(cfg, l.head, chain, prev), RebuildList(cfg, l.tail, chain, prev), pos, atDoc);
    }
  }

  // ----- The rebuilt document meets the conditions of NothingSuperfluous -----

  ghost predicate AllShown(l: NodeList)
    decreases l
  {
    l.Cons? ==>
      (l.head.Element? ==> l.head.visible && l.head.hidden == {} && AllShown(l.head.children)) && AllShown(l.tail)
  }

  lemma {:induction false} ShownElementwise(l: NodeList, chain: Chain)
    requires AllShown(l)
    ensures ElementwiseList(l, chain)
    decreases l
  {
    if l.Cons? {
      if l.head.Element? { ShownElementwise(l.head.children, [FrameOf(l.head)] + chain); }
      ShownElementwise(l.tail, chain);
    }
  }

  lemma {:induction false} AppendShown(a: NodeList, b: NodeList)
    requires AllShown(a) && AllShown(b)
    ensures AllShown(Append(a, b))
    decreases a
  {
    if a.Cons? { AppendShown(a.tail, b); }
  }

  lemma {:induction false} RebuildShown(cfg: Config, l: NodeList, chain: Chain, prev: seq<Ns>)
    ensures AllShown(RebuildList(cfg, l, chain, prev))
    decreases l
  {
    if l.Cons? {
      var n := l.head;
      if n.Element? {
        var chain' := [FrameOf(n)] + chain;
        RebuildShown(cfg, n.children, chain', if n.visible then Axis(chain', n.hidden) else prev);
      }
      RebuildShown(cfg, l.tail, chain, prev);
      AppendShown(Rebuild(cfg, n, chain, prev), RebuildList(cfg, l.tail, chain, prev));
    }
  }

  /**
    For every document and every choice of visible elements, the canonical form is the literal
    serialization of a document whose own canonical form is the same.
   */
  lemma CanonicalFormIsCanonical(cfg: Config, doc: NodeList)
    requires !cfg.exclusive && ElementwiseList(doc, []) && AllAttrsElementwise(doc)
    ensures var canonical := RebuildList(cfg, doc, [], []);
            && LiteralList(canonical, Before, true).tokens == CanonDocument(cfg, doc)
            && CanonDocument(cfg, canonical) == CanonDocument(cfg, doc)
  {
    var canonical := RebuildList(cfg, doc, [], []);
    ListIdempotent(cfg, doc, [], [], [], [], Before, true);
    RebuildShown(cfg, doc, [], []);
    ShownElementwise(canonical, []);
    NothingSuperfluous(cfg, doc);
    NothingSuperfluous(cfg, canonical);
  }
}
