/**
  Documents whose canonical form is not what the Recommendations ask for, one for each part of
  the exact conditions.
 */
module C14nDepartures {
  import opened Ordering
  import opened C14nTree
  import opened C14nSpec
  import opened C14nTokens
  import opened C14nNamespaces
  import opened C14nRecommendation
  import opened C14nRules
  import opened C14nExclusive
  import opened C14nConformance
  import opened C14nIdempotent

  // ----- A superfluous xmlns="" -----

  lemma AxisOfOne(frame: Frame)
    requires frame.nsDefs == [Ns("", "u")]
    ensures Axis([frame], {}) == [Ns("", "u")]
  {
    assert Unshadowed(frame.nsDefs[1..], {""}) == [];
    assert Unshadowed(frame.nsDefs, {}) == [Ns("", "u")];
    assert InScope([frame], {}) == [Ns("", "u")];
    assert Shown([Ns("", "u")][1..], {}) == [];
  }

  /** Elements that hide the only namespace in scope have an empty axis. */
  lemma {:induction false} AxisHidden(chain: Chain)
    requires forall f, ns :: f in chain && ns in f.nsDefs ==> ns == Ns("", "u")
    ensures Axis(chain, {""}) == []
  {
    var axis := Axis(chain, {""});
    AxisMembers(chain, {""});
    forall ns ensures ns !in axis {
      if SearchPos(chain, ns.prefix).Some? {
        var pos := SearchPos(chain, ns.prefix).value;
        assert chain[pos.0] in chain && chain[pos.0].nsDefs[pos.1] in chain[pos.0].nsDefs;
      }
    }
    HeadIn(axis);
  }

  lemma HeadIn(l: seq<Ns>)
    ensures l == [] || l[0] in l
  {
  }

  /** A visible element without attributes. */
  function Plain(name: string, nsDefs: seq<Ns>, hidden: set<string>, children: NodeList): Node {
    Element(name, Some(Ns("", "u")), nsDefs, [], children, true, hidden)
  }

  function PlainTokens(name: string, decls: seq<Ns>, body: seq<Token>): seq<Token> {
    [Open("", name)] + DeclTokens(decls) + [Gt] + body + [Close("", name)]
  }

  lemma PlainCanon(cfg: Config, n: Node, chain: Chain, st: Stack, prev: seq<Ns>, pos: Position, atDoc: bool)
    requires !cfg.exclusive && WindowHolds(st, prev) && (chain != [] ==> chain[0].visible)
    requires n.Element? && n == Plain(n.name, n.nsDefs, n.hidden, n.children)
    ensures var chain' := [FrameOf(n)] + chain;
            var axis := Axis(chain', n.hidden);
            Canon(cfg, n, chain, st, pos, atDoc).tokens ==
            PlainTokens(n.name, (if Superfluous(prev, axis, true, LastDefault(st)) then [DEFAULT_UNDECLARED] else [])
                        + RecommendedDecls(prev, axis, true),
                        CanonList(cfg, n.children, chain', StackAfter(st, chain', n.hidden, true),
                                  if atDoc then Inside else pos, false).tokens)
  {
    hide Axis, InclusiveAxis, RecommendedDecls, Superfluous, LastDefault, DeclTokens, CanonList;
    var chain' := [FrameOf(n)] + chain;
    ElementDecls(st, prev, chain', n.hidden, true);
    assert chain'[1..] == chain;
    NoAttrs(cfg, chain);
  }

  lemma PlainRecommended(cfg: Config, n: Node, chain: Chain, prev: seq<Ns>, place: Position)
    requires !cfg.exclusive && (chain != [] ==> chain[0].visible)
    requires n.Element? && n == Plain(n.name, n.nsDefs, n.hidden, n.children)
    ensures var axis := Axis([FrameOf(n)] + chain, n.hidden);
            Recommended(cfg, n, chain, prev, place) ==
            PlainTokens(n.name, RecommendedDecls(prev, axis, true),
                        RecommendedList(cfg, n.children, [FrameOf(n)] + chain, axis, Inside))
  {
    hide Axis, RecommendedDecls, DeclTokens, RecommendedList;
    assert RecommendedAttrs(cfg, [], chain, true) == [] && AttrTokens([]) == [];
  }

  lemma NoAttrs(cfg: Config, chain: Chain)
    requires chain != [] ==> chain[0].visible
    ensures AttrTokens(AttrsAxis(cfg, [], chain, true)) == []
  {
  }

  /**
    A grandparent renders a default namespace, the parent hides it and so does the element: the
    parent has already written xmlns="", and the element writes it again.
   */
  lemma SuperfluousUndeclaration(cfg: Config)
    requires !cfg.exclusive
    ensures var d := Ns("", "u");
            var doc := Cons(Plain("g", [d], {},
                                  Cons(Plain("p", [], {""}, Cons(Plain("c", [], {""}, Nil), Nil)), Nil)), Nil);
            && CanonDocument(cfg, doc) ==
               PlainTokens("g", [d], PlainTokens("p", [DEFAULT_UNDECLARED], PlainTokens("c", [DEFAULT_UNDECLARED], [])))
            && RecommendedDocument(cfg, doc) ==
               PlainTokens("g", [d], PlainTokens("p", [DEFAULT_UNDECLARED], PlainTokens("c", [], [])))
  {
    hide Axis, InclusiveAxis, RecommendedDecls, Superfluous, LastDefault, LastRendered, DeclTokens, Canon, Recommended,
         PlainTokens;
    var d := Ns("", "u");
    var c := Plain("c", [], {""}, Nil);
    var p := Plain("p", [], {""}, Cons(c, Nil));
    var g := Plain("g", [d], {}, Cons(p, Nil));
    var chain1, chain2, chain3 := [FrameOf(g)] + [], [FrameOf(p), FrameOf(g)], [FrameOf(c), FrameOf(p), FrameOf(g)];
    assert chain1 == [FrameOf(g)] && chain2 == [FrameOf(p)] + chain1 && chain3 == [FrameOf(c)] + chain2;
    AxisOfOne(FrameOf(g));
    AxisHidden(chain2);
    AxisHidden(chain3);
    var st1 := StackAfter(EMPTY_STACK, chain1, {}, true);
    var st2 := StackAfter(st1, chain2, {""}, true);
    StartHolds();
    WindowStep(EMPTY_STACK, [], chain1, {}, true);
    WindowStep(st1, [d], chain2, {""}, true);
    PlainCanon(cfg, g, [], EMPTY_STACK, [], Before, true);
    PlainCanon(cfg, p, chain1, st1, [d], Inside, false);
    PlainCanon(cfg, c, chain2, st2, [], Inside, false);
    PlainRecommended(cfg, g, [], [], Before);
    PlainRecommended(cfg, p, chain1, [d], Inside);
    PlainRecommended(cfg, c, chain2, [], Inside);
    SmallDecls();
    OneNode(cfg, g, [], EMPTY_STACK, [], Before, true);
    OneNode(cfg, p, chain1, st1, [d], Inside, false);
    OneNode(cfg, c, chain2, st2, [], Inside, false);
    var st3 := StackAfter(st2, chain3, {""}, true);
    assert CanonList(cfg, Nil, chain3, st3, Inside, false).tokens
           == RecommendedList(cfg, Nil, chain3, [], Inside) == [];
    assert [DEFAULT_UNDECLARED] + [] == [DEFAULT_UNDECLARED];
    assert [] + [d] == [d] && [] + [DEFAULT_UNDECLARED] == [DEFAULT_UNDECLARED];
  }

  lemma StartHolds()
    ensures WindowHolds(EMPTY_STACK, []) && LastDefault(EMPTY_STACK) == ""
  {
    assert EMPTY_STACK.tab[0..] == Entries([], {});
  }

  lemma OneNode(cfg: Config, n: Node, chain: Chain, st: Stack, prev: seq<Ns>, pos: Position, atDoc: bool)
    requires WindowOk(st)
    ensures CanonList(cfg, Cons(n, Nil), chain, st, pos, atDoc).tokens == Canon(cfg, n, chain, st, pos, atDoc).tokens
    ensures RecommendedList(cfg, Cons(n, Nil), chain, prev, pos) == Recommended(cfg, n, chain, prev, pos)
  {
    hide Canon, Recommended;
  }

  /** The three axes of that document. */
  lemma SmallDecls()
    ensures var d := Ns("", "u");
            && LastRendered([d], "") == LastRendered([], "u") == "u"
            && !Superfluous([], [d], true, "") && RecommendedDecls([], [d], true) == [d]
            && !Superfluous([d], [], true, "u") && RecommendedDecls([d], [], true) == [DEFAULT_UNDECLARED]
            && Superfluous([], [], true, "u") && RecommendedDecls([], [], true) == []
  {
    var d := Ns("", "u");
    assert d in [d];
    assert NewNodes([d][1..], []) == [] && NewNodes([d], []) == [d];
    assert InsertAll([d], [d][1..], PrefixLess) == [d] && InsertAll([], [d], PrefixLess) == [d];
  }

  // ----- A namespace hidden in the middle -----

  const A := Ns("a", "u")

  ghost predicate DeclaresA(chain: Chain) {
    chain != [] && chain[|chain| - 1].nsDefs == [A] && forall f :: f in chain ==> f.nsDefs == [] || f.nsDefs == [A]
  }

  lemma {:induction false} FindsA(chain: Chain, p: string)
    requires DeclaresA(chain) && p != "xml"
    ensures Search(chain, p) == if p == "a" then Some(A) else None
    decreases chain
  {
    var head := chain[0];
    assert chain == [head] + chain[1..] && head in chain;
    assert DefIndex([], p) == 0;
    assert [A][1..] == [] && DefIndex([A], p) == if p == "a" then 0 else 1;
    SearchStep(head, chain[1..], p);
    if |chain| > 1 {
      assert chain[1..][|chain| - 2] == chain[|chain| - 1] && forall f :: f in chain[1..] ==> f in chain;
      FindsA(chain[1..], p);
    }
  }

  lemma AxisA(chain: Chain, hidden: set<string>)
    requires DeclaresA(chain)
    ensures Axis(chain, hidden) == if "a" in hidden then [] else [A]
  {
    hide Search, Axis, DeclaresA;
    var axis := Axis(chain, hidden);
    AxisMembers(chain, hidden);
    assert |axis| > 1 ==> axis[0] in axis && axis[1] in axis && axis[0] != axis[1];
    forall ns ensures ns in axis <==> ns == A && "a" !in hidden {
      if ns.prefix != "xml" { FindsA(chain, ns.prefix); }
    }
    if axis != [] { assert axis[0] in axis; }
  }

  lemma DeclsA()
    ensures RecommendedDecls([], [A], true) == [A]
    ensures RecommendedDecls([A], [A], true) == RecommendedDecls([A], [], true) == []
    ensures LastRendered([A], "") == LastRendered([], "") == ""
  {
    assert A in [A] && [A][1..] == [];
    assert NewNodes([A], []) == [A] && NewNodes([A], [A]) == [];
    assert InsertAll([], [A], PrefixLess) == [A];
  }

  function Inner(defs: seq<Ns>): Node {
    Plain("c", defs, {}, Nil)
  }

  function Middle(hidden: set<string>, defs: seq<Ns>): Node {
    Plain("p", [], hidden, Cons(Inner(defs), Nil))
  }

  function Outer(hidden: set<string>, defs: seq<Ns>): Node {
    Plain("g", [A], {}, Cons(Middle(hidden, defs), Nil))
  }

  /** One element without attributes below a shown one, where no default namespace was rendered. */
  lemma OnePlain(cfg: Config, n: Node, chain: Chain, st: Stack, prev: seq<Ns>, pos: Position, atDoc: bool)
    requires !cfg.exclusive && WindowHolds(st, prev) && LastDefault(st) == "" && (chain != [] ==> chain[0].visible)
    requires n.Element? && n == Plain(n.name, n.nsDefs, n.hidden, n.children)
    ensures var chain' := [FrameOf(n)] + chain;
            var axis := Axis(chain', n.hidden);
            var below := StackAfter(st, chain', n.hidden, true);
            && CanonList(cfg, Cons(n, Nil), chain, st, pos, atDoc).tokens ==
               PlainTokens(n.name, RecommendedDecls(prev, axis, true),
                           CanonList(cfg, n.children, chain', below, if atDoc then Inside else pos, false).tokens)
            && WindowHolds(below, axis) && LastDefault(below) == LastRendered(axis, "")
  {
    hide Axis, RecommendedDecls, LastDefault, LastRendered, DeclTokens, CanonList, PlainTokens, InclusiveAxis;
    var chain' := [FrameOf(n)] + chain;
    PlainCanon(cfg, n, chain, st, prev, pos, atDoc);
    OneNode(cfg, n, chain, st, prev, pos, atDoc);
    WindowStep(st, prev, chain', n.hidden, true);
    var decls := RecommendedDecls(prev, Axis(chain', n.hidden), true);
    assert [] + decls == decls;
  }

  /** Three nested elements without attributes: what each declares is read off the three axes. */
  lemma Nested(cfg: Config, hidden: set<string>, defs: seq<Ns>)
    requires !cfg.exclusive && (defs == [] || defs == [A])
    ensures var axis := if "a" in hidden then [] else [A];
            CanonDocument(cfg, Cons(Outer(hidden, defs), Nil)) ==
            PlainTokens("g", [A], PlainTokens("p", [], PlainTokens("c", RecommendedDecls(axis, [A], true), [])))
    ensures ExtraOfList(Cons(Outer(hidden, defs), Nil), [], [], "") == 0
  {
    hide Axis, RecommendedDecls, LastDefault, LastRendered, PlainTokens, ExtraOfList, StackAfter, CanonList,
         WindowHolds;
    var g, p, c := Outer(hidden, defs), Middle(hidden, defs), Inner(defs);
    var chain1, chain2, chain3 := [FrameOf(g)] + [], [FrameOf(p), FrameOf(g)], [FrameOf(c), FrameOf(p), FrameOf(g)];
    assert chain1 == [FrameOf(g)] && chain2 == [FrameOf(p)] + chain1 && chain3 == [FrameOf(c)] + chain2;
    AxisA(chain1, {});
    AxisA(chain2, hidden);
    AxisA(chain3, {});
    var axis := Axis(chain2, hidden);
    StartHolds();
    WindowOks(EMPTY_STACK, []);
    DeclsA();
    OnePlain(cfg, g, [], EMPTY_STACK, [], Before, true);
    var st1 := StackAfter(EMPTY_STACK, chain1, {}, true);
    WindowOks(st1, [A]);
    OnePlain(cfg, p, chain1, st1, [A], Inside, false);
    var st2 := StackAfter(st1, chain2, hidden, true);
    WindowOks(st2, axis);
    OnePlain(cfg, c, chain2, st2, axis, Inside, false);
    var st3 := StackAfter(st2, chain3, {}, true);
    WindowOks(st3, [A]);
    NoNode(cfg, chain3, st3, Inside, false);
    NestedExtra(g, p, c, axis);
  }

  lemma NoNode(cfg: Config, chain: Chain, st: Stack, pos: Position, atDoc: bool)
    requires WindowOk(st)
    ensures CanonList(cfg, Nil, chain, st, pos, atDoc).tokens == []
  {
  }

  lemma NestedExtra(g: Node, p: Node, c: Node, axis: seq<Ns>)
    requires g.Element? && p.Element? && c.Element? && g.visible && p.visible && c.visible
    requires g.children == Cons(p, Nil) && p.children == Cons(c, Nil) && c.children == Nil
    requires Axis([FrameOf(g)], g.hidden) == [A] && axis == Axis([FrameOf(p), FrameOf(g)], p.hidden)
    requires axis == [] || axis == [A]
    ensures ExtraOfList(Cons(g, Nil), [], [], "") == 0
  {
    hide Axis, LastRendered;
    DeclsA();
    var chain1, chain2, chain3 := [FrameOf(g)] + [], [FrameOf(p)] + [FrameOf(g)],
        [FrameOf(c)] + [FrameOf(p), FrameOf(g)];
    assert chain1 == [FrameOf(g)] && chain2 == [FrameOf(p), FrameOf(g)];
    assert Extra(c, chain2, axis, "") == 0 by { assert ExtraOfList(Nil, chain3, Axis(chain3, c.hidden), "") == 0; }
    assert ExtraOfList(p.children, chain2, axis, "") == 0;
    assert Extra(p, chain1, [A], "") == 0;
    assert ExtraOfList(g.children, chain1, [A], "") == 0;
    assert Extra(g, [], [], "") == 0;
  }

  /**
    A namespace is rendered, hidden at the child and shown again below: it is declared twice, and
    canonicalizing the canonical form drops the second declaration. No xmlns="" is superfluous
    there, so their absence is not what makes canonical form stable.
   */
  lemma DeclaredAgain(cfg: Config)
    requires !cfg.exclusive
    ensures var doc, again := Cons(Outer({"a"}, []), Nil), Cons(Outer({}, [A]), Nil);
            && ExtraOfList(doc, [], [], "") == 0
            && CanonDocument(cfg, doc) == LiteralList(again, Before, true).tokens
            && CanonDocument(cfg, doc) ==
               PlainTokens("g", [A], PlainTokens("p", [], PlainTokens("c", [A], [])))
            && CanonDocument(cfg, again) ==
               PlainTokens("g", [A], PlainTokens("p", [], PlainTokens("c", [], [])))
  {
    hide CanonDocument, RecommendedDecls, ExtraOfList, PlainTokens, LiteralList;
    DeclsA();
    Nested(cfg, {"a"}, []);
    Nested(cfg, {}, [A]);
    PlainLiteral("c", [A], Nil, Inside, false);
    PlainLiteral("p", [], Cons(Inner([A]), Nil), Inside, false);
    PlainLiteral("g", [A], Cons(Middle({}, [A]), Nil), Before, true);
  }

  lemma PlainLiteral(name: string, nsDefs: seq<Ns>, children: NodeList, pos: Position, atDoc: bool)
    ensures LiteralList(Nil, pos, atDoc).tokens == []
    ensures LiteralList(Cons(Plain(name, nsDefs, {}, children), Nil), pos, atDoc).tokens ==
            PlainTokens(name, nsDefs, LiteralList(children, if atDoc then Inside else pos, false).tokens)
  {
    hide DeclTokens;
    assert AttrTokens([]) == [];
  }

  // ----- Elements without declarations -----

  ghost predicate Bare(chain: Chain) {
    forall f :: f in chain ==> f.nsDefs == []
  }

  lemma {:induction false} NothingInScope(chain: Chain, p: string)
    requires Bare(chain) && p != "xml"
    ensures Search(chain, p).None?
  {
    if chain != [] {
      assert chain == [chain[0]] + chain[1..] && chain[0] in chain;
      SearchStep(chain[0], chain[1..], p);
      NothingInScope(chain[1..], p);
    }
  }

  lemma NoAxis(chain: Chain, hidden: set<string>)
    requires Bare(chain)
    ensures Axis(chain, hidden) == []
  {
    hide Search, Axis;
    AxisMembers(chain, hidden);
    forall ns ensures ns !in Axis(chain, hidden) {
      if ns.prefix != "xml" { NothingInScope(chain, ns.prefix); }
    }
    HeadIn(Axis(chain, hidden));
  }

  lemma {:induction false} NothingListed(chain: Chain, prefixes: seq<string>, hidden: set<string>)
    requires Bare(chain)
    ensures ListedNs(chain, prefixes, hidden) == []
  {
    hide SearchPos;
    if prefixes != [] {
      NothingListed(chain, prefixes[1..], hidden);
      if InclusiveName(prefixes[0]) != "xml" { NothingInScope(chain, InclusiveName(prefixes[0])); }
    }
  }

  /** Such an element, whose attributes are all hidden, declares nothing, and an omitted one pushes nothing. */
  lemma BareElement(cfg: Config, chain: Chain, e: Node)
    requires e.Element? && Bare(chain) && e.ns == None && AttrUses(e.attrs) == [] && (e.visible ==> !cfg.exclusive)
    ensures NamespaceAxis(cfg, EMPTY_STACK, chain, e) == AxisOut(EMPTY_STACK, [])
    ensures Axis(chain, e.hidden) == []
  {
    hide Axis, Search, ListedNs;
    NoAxis(chain, e.hidden);
    if cfg.exclusive {
      NothingListed(chain, cfg.inclusivePrefixes, e.hidden);
      AttrPushes(e.attrs, AxisOut(EMPTY_STACK, []), e.hidden, e.visible);
      OmittedList(e.attrs, AxisOut(EMPTY_STACK, []), e.hidden);
    }
  }

  lemma {:induction false} OmittedList(attrs: seq<Attr>, out: AxisOut, hidden: set<string>)
    requires WindowOk(out.st)
    ensures RenderAttrs(attrs, out, hidden, false).list == out.list
    decreases attrs
  {
    if attrs != [] { OmittedList(attrs[1..], RenderAttr(attrs[0], out, hidden, false), hidden); }
  }

  // ----- A line feed inside the document element -----

  /** An omitted document element without attributes and declarations. */
  function Root(children: NodeList): Node {
    Element("r", None, [], [], children, false, {})
  }

  const PROCESS := PI("p", "", true)

  lemma RootWritesNothing(cfg: Config, children: NodeList)
    ensures Canon(cfg, Root(children), [], EMPTY_STACK, Before, true) ==
            CanonList(cfg, children, [FrameOf(Root(children))], EMPTY_STACK, Before, true)
    ensures Recommended(cfg, Root(children), [], [], Before)
            == RecommendedList(cfg, children, [FrameOf(Root(children))], [], Inside)
    ensures ExcRecommended(cfg, Root(children), [], map[], Before) ==
            ExcRecommendedList(cfg, children, [FrameOf(Root(children))], map[], Inside)
  {
    hide CanonList, RecommendedList, ExcRecommendedList, Axis, NamespaceAxis;
    var n := Root(children);
    var chain := [FrameOf(n)];
    assert chain == [FrameOf(n)] + [];
    BareElement(cfg, chain, n);
    NothingWritten(cfg, n, chain);
    var body := CanonList(cfg, children, chain, EMPTY_STACK, Before, true);
    assert [] + body.tokens + [] == body.tokens;
    var rule, exclusive := RecommendedList(cfg, children, chain, [], Inside),
        ExcRecommendedList(cfg, children, chain, map[], Inside);
    assert ElementTokens(n, [], [], rule) == rule && ElementTokens(n, [], [], exclusive) == exclusive;
  }

  lemma NothingWritten(cfg: Config, n: Node, chain: Chain)
    requires n.Element? && n == Root(n.children) && chain == [FrameOf(n)]
    requires NamespaceAxis(cfg, EMPTY_STACK, chain, n) == AxisOut(EMPTY_STACK, [])
    ensures StartTag(cfg, EMPTY_STACK, chain, n) == [] && StackBelow(cfg, EMPTY_STACK, chain, n) == EMPTY_STACK
    ensures RecommendedDecls([], [], false) == [] && RecommendedAttrs(cfg, [], [], false) == []
  {
    hide NamespaceAxis;
    assert NewNodes([], []) == [];
    assert AttrsAxis(cfg, [], [], false) == [];
  }

  /** One processing instruction in a list of its own. */
  lemma OneInstruction(cfg: Config, chain: Chain, st: Stack, prev: seq<Ns>, ctx: Ctx, pos: Position, place: Position)
    requires WindowOk(st)
    ensures CanonList(cfg, Cons(PROCESS, Nil), chain, st, pos, true)
            == Out([PITok(pos == After, "p", "", pos == Before)], pos)
    ensures RecommendedList(cfg, Cons(PROCESS, Nil), chain, prev, place)
            == [PITok(place == After, "p", "", place == Before)]
    ensures ExcRecommendedList(cfg, Cons(PROCESS, Nil), chain, ctx, place)
            == [PITok(place == After, "p", "", place == Before)]
  {
  }

  /**
    A processing instruction shown inside an omitted document element: the canonicalizer still
    stands before the document element and writes a line feed after it, in both modes.
   */
  lemma InstructionInside(cfg: Config)
    ensures var doc := Cons(Root(Cons(PROCESS, Nil)), Nil);
            && CanonDocument(cfg, doc) == [PITok(false, "p", "", true)]
            && RecommendedDocument(cfg, doc) == ExcRecommendedDocument(cfg, doc) == [PITok(false, "p", "", false)]
            && MisplacedIn(cfg, doc, Before, false)
  {
    hide Canon, Recommended, ExcRecommended;
    var children := Cons(PROCESS, Nil);
    RootWritesNothing(cfg, children);
    OneInstruction(cfg, [FrameOf(Root(children))], EMPTY_STACK, [], map[], Before, Inside);
    assert Misplaced(cfg, PROCESS, Inside, false);
    assert MisplacedIn(cfg, children, Inside, false);
  }

  /**
    A processing instruction after a document element that shows no element: the canonicalizer
    takes it to stand before, and writes the line feed on the other side.
   */
  lemma InstructionAfter(cfg: Config)
    ensures var doc := Cons(Root(Nil), Cons(PROCESS, Nil));
            && CanonDocument(cfg, doc) == [PITok(false, "p", "", true)]
            && RecommendedDocument(cfg, doc) == ExcRecommendedDocument(cfg, doc) == [PITok(true, "p", "", false)]
            && MisplacedIn(cfg, doc, Before, false)
  {
    hide Canon, Recommended, ExcRecommended;
    RootWritesNothing(cfg, Nil);
    var ctx: Ctx := map[];
    OneInstruction(cfg, [], EMPTY_STACK, [], ctx, Before, After);
    var first := Canon(cfg, Root(Nil), [], EMPTY_STACK, Before, true);
    assert first == Out([], Before);
    assert [] + [PITok(false, "p", "", true)] == [PITok(false, "p", "", true)];
    assert [] + [PITok(true, "p", "", false)] == [PITok(true, "p", "", false)];
    assert Misplaced(cfg, PROCESS, After, false);
    assert MisplacedIn(cfg, Cons(PROCESS, Nil), After, false);
  }

  // ----- An attribute that hiding brings back -----

  const XML := Some(Ns("xml", XML_NAMESPACE))

  /** A shown element that hides its own xml:lang, and its omitted parent. */
  const SPEAKER := Element("c", None, [], [Attr(XML, "lang", "fr", false)], Nil, true, {})
  const LISTENER := Element("r", None, [], [Attr(XML, "lang", "en", false)], Cons(SPEAKER, Nil), false, {})

  lemma HiddenAttr(a: Attr)
    requires !a.visible
    ensures InsertVisible([], [a]) == [] && ShownAttrs([a]) == [] && AttrUses([a]) == []
  {
    assert [a][1..] == [];
    assert InsertVisible([], [a][1..]) == [] && ShownAttrs([a][1..]) == [] && AttrUses([a][1..]) == [];
  }

  lemma SpeakerAttrs(cfg: Config)
    requires !cfg.exclusive
    ensures AttrsAxis(cfg, SPEAKER.attrs, [FrameOf(LISTENER)], true) == LISTENER.attrs
    ensures RecommendedAttrs(cfg, SPEAKER.attrs, [FrameOf(LISTENER)], true) == []
    ensures AttrsAxis(cfg, LISTENER.attrs, [], false) == RecommendedAttrs(cfg, LISTENER.attrs, [], false) == []
    ensures |Returned(cfg, SPEAKER.attrs, [FrameOf(LISTENER)], true)| == 1
            && Returned(cfg, LISTENER.attrs, [], false) == []
  {
    var own, outer := SPEAKER.attrs[0], LISTENER.attrs[0];
    HiddenAttr(own);
    HiddenAttr(outer);
    assert ImportFrame([], [outer]) == [outer] by { assert [outer][1..] == []; }
    assert ImportXml([], [FrameOf(LISTENER)]) == [outer] by { assert [FrameOf(LISTENER)][1..] == []; }
    assert own in [own] && "lang" in XmlKeys([own]);
    assert XmlBeyond([outer], XmlKeys([own])) == [] by { assert [outer][1..] == []; }
    assert Inherited(XmlKeys([own]), [FrameOf(LISTENER)]) == [] by { assert [FrameOf(LISTENER)][1..] == []; }
    AttrsCompared(cfg, SPEAKER.attrs, [FrameOf(LISTENER)], true);
  }

  lemma SpeakerTokens(cfg: Config)
    requires !cfg.exclusive
    ensures var chain := [FrameOf(LISTENER)];
            && Canon(cfg, SPEAKER, chain, EMPTY_STACK, Before, true).tokens
              == [Open("", "c"), Attribute("xml", "lang", "en"), Gt, Close("", "c")]
            && Recommended(cfg, SPEAKER, chain, [], Inside) == [Open("", "c"), Gt, Close("", "c")]
  {
    hide AttrsAxis, RecommendedAttrs, NamespaceAxis, Axis, Canon, Recommended, StackBelow;
    var chain := [FrameOf(LISTENER)];
    var chain' := [FrameOf(SPEAKER)] + chain;
    SpeakerAttrs(cfg);
    HiddenAttr(SPEAKER.attrs[0]);
    BareElement(cfg, chain', SPEAKER);
    CanonElement(cfg, SPEAKER, chain, EMPTY_STACK, Before, true);
    SpeakerRule(cfg, chain');
    assert CanonList(cfg, Nil, chain', StackBelow(cfg, EMPTY_STACK, chain', SPEAKER), Inside, false).tokens == [];
    assert AttrTokens(LISTENER.attrs) == [Attribute("xml", "lang", "en")] by { assert LISTENER.attrs[1..] == []; }
  }

  lemma SpeakerRule(cfg: Config, chain: Chain)
    requires chain == [FrameOf(SPEAKER)] + [FrameOf(LISTENER)] && Axis(chain, {}) == []
    requires RecommendedAttrs(cfg, SPEAKER.attrs, [FrameOf(LISTENER)], true) == []
    ensures Recommended(cfg, SPEAKER, [FrameOf(LISTENER)], [], Inside) == [Open("", "c"), Gt, Close("", "c")]
  {
    hide RecommendedAttrs, Axis;
    assert NewNodes([], []) == [] && RecommendedDecls([], [], true) == [];
    assert RecommendedList(cfg, Nil, chain, [], Inside) == [];
    assert DeclTokens([]) == [] && AttrTokens([]) == [];
  }

  lemma ListenerTokens(cfg: Config)
    requires !cfg.exclusive
    ensures Canon(cfg, LISTENER, [], EMPTY_STACK, Before, true).tokens ==
            CanonList(cfg, LISTENER.children, [FrameOf(LISTENER)], EMPTY_STACK, Before, true).tokens
    ensures Recommended(cfg, LISTENER, [], [], Before)
            == RecommendedList(cfg, LISTENER.children, [FrameOf(LISTENER)], [], Inside)
  {
    hide AttrsAxis, RecommendedAttrs, NamespaceAxis, Axis, CanonList, RecommendedList;
    var chain := [FrameOf(LISTENER)];
    assert chain == [FrameOf(LISTENER)] + [];
    SpeakerAttrs(cfg);
    HiddenAttr(LISTENER.attrs[0]);
    BareElement(cfg, chain, LISTENER);
    assert NewNodes([], []) == [] && RecommendedDecls([], [], false) == [];
    var body := CanonList(cfg, LISTENER.children, chain, EMPTY_STACK, Before, true);
    assert [] + body.tokens + [] == body.tokens;
    var rule := RecommendedList(cfg, LISTENER.children, chain, [], Inside);
    assert ElementTokens(LISTENER, [], [], rule) == rule;
  }

  /**
    A shown element hides its own xml:lang, and its omitted parent has one: the parent's is
    written for it, where the rule has none.
   */
  lemma LanguageReturns(cfg: Config)
    requires !cfg.exclusive
    ensures var doc := Cons(LISTENER, Nil);
            && CanonDocument(cfg, doc) == [Open("", "c"), Attribute("xml", "lang", "en"), Gt, Close("", "c")]
            && RecommendedDocument(cfg, doc) == [Open("", "c"), Gt, Close("", "c")]
            && ReturnedIn(cfg, doc, []) == 1
  {
    hide Canon, Recommended, Returned, StackBelow;
    var chain := [FrameOf(LISTENER)];
    assert chain == [FrameOf(LISTENER)] + [];
    SpeakerAttrs(cfg);
    SpeakerTokens(cfg);
    ListenerTokens(cfg);
    OneNode(cfg, SPEAKER, chain, EMPTY_STACK, [], Before, true);
    assert RecommendedList(cfg, Cons(SPEAKER, Nil), chain, [], Inside) == Recommended(cfg, SPEAKER, chain, [], Inside);
    OneNode(cfg, LISTENER, [], EMPTY_STACK, [], Before, true);
    assert ReturnedCount(cfg, SPEAKER, chain) == 1;
    assert ReturnedIn(cfg, Cons(SPEAKER, Nil), chain) == 1;
  }
}
