/**
  The text of canonical documents. What is written is XML if the names, comments and processing
  instructions of the source are, and it has the tokens of the canonical form exactly when the
  namespace URIs are plain and no comment or processing instruction has a carriage return.
 */
module C14nTextSource {
  import opened Ordering
  import opened C14nTree
  import opened C14nSpec
  import opened C14nNamespaces
  import opened C14nPrint
  import opened C14nTokens
  import opened C14nText
  import opened C14nTextDocument
  import opened C14nExclusive
  import opened C14nExclusiveSource

  // ----- Documents that can be printed -----

  ghost predicate LegalAttr(a: Attr) {
    LegalToken(Attribute(NsPrefix(a.ns), a.name, a.value))
  }

  ghost predicate LegalFrame(f: Frame) {
    && (forall ns :: ns in f.nsDefs ==> LegalToken(Decl(ns)))
    && (forall a :: a in f.attrs ==> LegalAttr(a))
  }

  ghost predicate LegalChain(c: Chain) {
    forall f :: f in c ==> LegalFrame(f)
  }

  /** An omitted element that shows neither namespaces nor attributes of its own. */
  ghost predicate ShowsNothing(cfg: Config, chain: Chain, e: Node)
    requires e.Element?
  {
    && InsertVisible([], e.attrs) == []
    && (if cfg.exclusive then AskedFor(Axis(chain, e.hidden), cfg.inclusivePrefixes) else Axis(chain, e.hidden)) == []
  }

  /**
    Names, comments and processing instructions are legal, and omitted elements show neither
    namespaces nor attributes of their own.
   */
  ghost predicate Printable(cfg: Config, n: Node, chain: Chain)
    decreases n
  {
    match n
    case Element(name, ns, _, _, children, visible, _) =>
      var chain' := [FrameOf(n)] + chain;
      && LegalQName(NsPrefix(ns), name) && LegalFrame(FrameOf(n)) && PrintableList(cfg, children, chain')
      && (visible || ShowsNothing(cfg, chain', n))
    case Comment(content, visible) => visible && cfg.withComments ==> LegalComment(content)
    case PI(target, content, visible) => visible ==> LegalPI(target, content)
    case _ => true
  }

  ghost predicate PrintableList(cfg: Config, l: NodeList, chain: Chain)
    decreases l
  {
    l.Cons? ==> Printable(cfg, l.head, chain) && PrintableList(cfg, l.tail, chain)
  }

  /** A namespace in scope is declared by one of the frames. */
  lemma SearchLegal(chain: Chain, p: string)
    requires LegalChain(chain) && p != "xml" && Search(chain, p).Some?
    ensures LegalToken(Decl(Search(chain, p).value))
  {
    hide LegalToken;
    var pos := SearchPos(chain, p).value;
    assert chain[pos.0] in chain && chain[pos.0].nsDefs[pos.1] in chain[pos.0].nsDefs;
  }

  lemma {:induction false} DeclsLegal(l: seq<Ns>)
    requires forall ns :: ns in l ==> LegalToken(Decl(ns))
    ensures AllLegal(DeclTokens(l))
  {
    hide LegalToken;
    if l != [] {
      DeclsLegal(l[1..]);
      assert l[0] in l;
    }
  }

  lemma {:induction false} AttrsLegal(l: seq<Attr>)
    requires forall a :: a in l ==> LegalAttr(a)
    ensures AllLegal(AttrTokens(l))
  {
    hide LegalToken;
    if l != [] {
      AttrsLegal(l[1..]);
      assert l[0] in l && LegalAttr(l[0]);
    }
  }

  lemma {:induction false} ImportFrameLegal(list: seq<Attr>, attrs: seq<Attr>)
    requires (forall a :: a in list ==> LegalAttr(a)) && (forall a :: a in attrs ==> LegalAttr(a))
    ensures forall a :: a in ImportFrame(list, attrs) ==> LegalAttr(a)
    decreases attrs
  {
    hide LegalAttr, Listed;
    if attrs != [] {
      assert attrs[0] in attrs;
      var more := IsXmlAttr(attrs[0]) && !Listed(list, attrs[0]);
      ImportFrameLegal(if more then Insert(list, attrs[0], AttrBefore) else list, attrs[1..]);
    }
  }

  lemma {:induction false} ImportLegal(list: seq<Attr>, chain: Chain)
    requires (forall a :: a in list ==> LegalAttr(a)) && LegalChain(chain)
    ensures forall a :: a in ImportXml(list, chain) ==> LegalAttr(a)
    decreases chain
  {
    hide LegalAttr, ImportFrame;
    if chain != [] {
      assert chain[0] in chain;
      ImportFrameLegal(list, chain[0].attrs);
      ImportLegal(ImportFrame(list, chain[0].attrs), chain[1..]);
    }
  }

  ghost predicate LegalNs(l: seq<Ns>) {
    forall ns :: ns in l ==> LegalToken(Decl(ns))
  }

  /** The inside of a visible element's start tag. */
  lemma InsideLegal(cfg: Config, st: Stack, chain: Chain, e: Node)
    requires e.Element? && chain != [] && chain[0] == FrameOf(e) && WindowOk(st) && LegalChain(chain)
    requires LegalQName(NsPrefix(e.ns), e.name)
    ensures AllLegal(DeclTokens(NamespaceAxis(cfg, st, chain, e).list)
                     + AttrTokens(AttrsAxis(cfg, e.attrs, chain[1..], e.visible)))
  {
    if cfg.exclusive {
      ExclusiveLegal(st, chain, cfg.inclusivePrefixes, e);
    } else {
      InclusiveLegal(st, chain, e.hidden, e.visible);
    }
    AttrsInside(cfg, chain, e);
    hide LegalToken, InclusiveAxis, ExclusiveAxis, AttrsAxis, DeclTokens, AttrTokens, LegalChain;
    DeclsLegal(NamespaceAxis(cfg, st, chain, e).list);
  }

  lemma InclusiveLegal(st: Stack, chain: Chain, hidden: set<string>, visible: bool)
    requires WindowOk(st) && LegalChain(chain)
    ensures LegalNs(InclusiveAxis(st, chain, hidden, visible).list)
  {
    hide LegalToken, Search, InclusiveAxis, Axis, LegalChain;
    var list := InclusiveAxis(st, chain, hidden, visible).list;
    InclusiveEffect(st, chain, hidden, visible);
    AxisMembers(chain, hidden);
    forall ns | ns in list ensures LegalToken(Decl(ns)) {
      if ns in Axis(chain, hidden) { SearchLegal(chain, ns.prefix); } else { UndeclaredLegal(); }
    }
  }

  lemma {:induction false} ListedLegal(chain: Chain, prefixes: seq<string>, hidden: set<string>)
    requires LegalChain(chain)
    ensures LegalNs(ListedNs(chain, prefixes, hidden))
  {
    hide LegalToken, LegalChain;
    if prefixes != [] {
      ListedLegal(chain, prefixes[1..], hidden);
      var p := InclusiveName(prefixes[0]);
      if p != "xml" && Search(chain, p).Some? { SearchLegal(chain, p); }
    }
  }

  lemma {:induction false} RenderLegal(axis: seq<Ns>, out: AxisOut, hidden: set<string>, visible: bool)
    requires WindowOk(out.st) && LegalNs(axis) && LegalNs(out.list)
    ensures LegalNs(Render(axis, out, hidden, visible).list)
    decreases axis
  {
    hide LegalToken, Find;
    if axis != [] {
      assert axis[0] in axis && forall ns :: ns in axis[1..] ==> ns in axis;
      RenderLegal(axis[1..], RenderOne(axis[0], out, hidden, visible), hidden, visible);
    }
  }

  lemma {:induction false} RenderAttrsLegal(attrs: seq<Attr>, out: AxisOut, hidden: set<string>, visible: bool)
    requires WindowOk(out.st) && LegalNs(out.list) && forall a :: a in attrs ==> LegalAttr(a)
    ensures LegalNs(RenderAttrs(attrs, out, hidden, visible).list)
    decreases attrs
  {
    hide LegalToken, ExcFind, LegalAttr;
    if attrs != [] {
      assert attrs[0] in attrs && forall a :: a in attrs[1..] ==> a in attrs;
      AttrNsLegal(attrs[0]);
      RenderAttrsLegal(attrs[1..], RenderAttr(attrs[0], out, hidden, visible), hidden, visible);
    }
  }

  lemma AttrNsLegal(a: Attr)
    requires LegalAttr(a)
    ensures a.ns.Some? ==> LegalToken(Decl(a.ns.value))
  {
    hide LegalName;
  }

  lemma NameLegal(chain: Chain, e: Node)
    requires e.Element? && LegalChain(chain) && LegalQName(NsPrefix(e.ns), e.name)
    ensures NameNs(chain, e.ns).Some? ==> LegalToken(Decl(NameNs(chain, e.ns).value))
  {
    hide LegalName, LegalChain, Search;
    if e.ns.None? && Search(chain, "").Some? { SearchLegal(chain, ""); }
  }

  lemma ExclusiveLegal(st: Stack, chain: Chain, prefixes: seq<string>, e: Node)
    requires e.Element? && chain != [] && chain[0] == FrameOf(e) && WindowOk(st) && LegalChain(chain)
    requires LegalQName(NsPrefix(e.ns), e.name)
    ensures LegalNs(ExclusiveAxis(st, chain, prefixes, e.ns, e.attrs, e.hidden, e.visible).list)
  {
    hide LegalToken, LegalAttr, Search, ListedNs, NameNs, Render, RenderAttrs, ExcFind, Find, LegalQName;
    assert chain[0] in chain;
    ListedLegal(chain, prefixes, e.hidden);
    NameLegal(chain, e);
    UndeclaredLegal();
    var out1 := Render(ListedNs(chain, prefixes, e.hidden), AxisOut(st, []), e.hidden, e.visible);
    RenderLegal(ListedNs(chain, prefixes, e.hidden), AxisOut(st, []), e.hidden, e.visible);
    var out2 := RenderName(NameNs(chain, e.ns), out1, e.hidden, e.visible);
    assert LegalNs(out2.list);
    RenderAttrsLegal(e.attrs, out2, e.hidden, e.visible);
  }

  lemma AttrsInside(cfg: Config, chain: Chain, e: Node)
    requires e.Element? && chain != [] && chain[0] == FrameOf(e) && LegalChain(chain)
    ensures AllLegal(AttrTokens(AttrsAxis(cfg, e.attrs, chain[1..], e.visible)))
  {
    hide ImportXml, InsertVisible, LegalAttr, AllLegal, AttrTokens;
    assert chain[0] in chain && forall f :: f in chain[1..] ==> f in chain;
    InsertVisibleMembers([], e.attrs);
    ImportLegal(InsertVisible([], e.attrs), chain[1..]);
    AttrsLegal(AttrsAxis(cfg, e.attrs, chain[1..], e.visible));
  }

  lemma UndeclaredLegal()
    ensures LegalToken(Decl(DEFAULT_UNDECLARED))
  {
  }

  /** An omitted element that shows nothing of its own writes no start tag. */
  lemma OmittedNothing(cfg: Config, st: Stack, chain: Chain, e: Node)
    requires e.Element? && chain != [] && WindowOk(st) && !e.visible && ShowsNothing(cfg, chain, e)
    ensures StartTag(cfg, st, chain, e) == []
  {
    hide Axis, Search, ListedNs, NameNs, RenderAttrs, Find, ExcFind, InsertVisible;
    if cfg.exclusive {
      hide AskedFor;
      ListedAsked(chain, cfg.inclusivePrefixes, e.hidden);
      NoneShown(e.attrs);
      UnshownAttrs(e.attrs, AxisOut(st, []), e.hidden);
    } else {
      InclusiveEffect(st, chain, e.hidden, false);
      HeadIn(NamespaceAxis(cfg, st, chain, e).list);
    }
  }

  lemma NoneShown(attrs: seq<Attr>)
    requires InsertVisible([], attrs) == []
    ensures forall a :: a in attrs ==> !a.visible
  {
    InsertVisibleMembers([], attrs);
  }

  lemma {:induction false} UnshownAttrs(attrs: seq<Attr>, out: AxisOut, hidden: set<string>)
    requires WindowOk(out.st) && forall a :: a in attrs ==> !a.visible
    ensures RenderAttrs(attrs, out, hidden, false) == out
  {
    if attrs != [] {
      assert attrs[0] in attrs && forall a :: a in attrs[1..] ==> a in attrs;
      UnshownAttrs(attrs[1..], out, hidden);
    }
  }

  lemma HeadIn(l: seq<Ns>)
    ensures l == [] || l[0] in l
  {
  }

  /** The tokens of an element: start tag, content, end tag. */
  lemma CanonParts(cfg: Config, n: Node, chain: Chain, st: Stack, pos: Position, atDoc: bool)
    requires n.Element? && WindowOk(st)
    ensures var chain' := [FrameOf(n)] + chain;
            Canon(cfg, n, chain, st, pos, atDoc).tokens ==
            StartTag(cfg, st, chain', n)
            + CanonList(cfg, n.children, chain', StackBelow(cfg, st, chain', n),
                        if n.visible && atDoc then Inside else pos, atDoc && !n.visible).tokens
            + Optional(n.visible, Close(NsPrefix(n.ns), n.name))
  {
    hide StartTag, CanonList, StackBelow;
  }

  lemma PrintableParts(cfg: Config, n: Node, chain: Chain)
    requires n.Element? && Printable(cfg, n, chain) && LegalChain(chain)
    ensures var chain' := [FrameOf(n)] + chain;
            && LegalQName(NsPrefix(n.ns), n.name) && PrintableList(cfg, n.children, chain') && LegalChain(chain')
            && (n.visible || ShowsNothing(cfg, chain', n))
  {
    hide LegalQName, PrintableList, ShowsNothing, LegalFrame;
  }

  lemma PartsShaped(cfg: Config, st: Stack, chain: Chain, n: Node, body: seq<Token>)
    requires n.Element? && chain != [] && chain[0] == FrameOf(n) && WindowOk(st) && LegalChain(chain)
    requires LegalQName(NsPrefix(n.ns), n.name) && (n.visible || ShowsNothing(cfg, chain, n)) && Shaped(body)
    ensures Shaped(StartTag(cfg, st, chain, n) + body + Optional(n.visible, Close(NsPrefix(n.ns), n.name)))
  {
    hide ShowsNothing, LegalQName, NamespaceAxis, Shaped, AttrsAxis, DeclTokens, AttrTokens, AllLegal, LegalChain;
    if n.visible {
      InsideLegal(cfg, st, chain, n);
      VisibleShaped(cfg, st, chain, n, body);
    } else {
      OmittedNothing(cfg, st, chain, n);
      assert [] + body + [] == body;
    }
  }

  lemma {:induction false} NodeShaped(cfg: Config, n: Node, chain: Chain, st: Stack, pos: Position, atDoc: bool)
    requires WindowOk(st) && Printable(cfg, n, chain) && LegalChain(chain)
    ensures Shaped(Canon(cfg, n, chain, st, pos, atDoc).tokens)
    decreases n
  {
    if n.Element? {
      hide Canon, CanonList, ShowsNothing, LegalFrame, LegalQName, NamespaceAxis, StartTag, Shaped, AttrsAxis;
      hide Printable, PrintableList, InsertVisible, DeclTokens, AttrTokens, StackBelow, AllLegal, LegalChain;
      PrintableParts(cfg, n, chain);
      var chain' := [FrameOf(n)] + chain;
      var below := StackBelow(cfg, st, chain', n);
      var pos1, atDoc1 := if n.visible && atDoc then Inside else pos, atDoc && !n.visible;
      var body := CanonList(cfg, n.children, chain', below, pos1, atDoc1).tokens;
      CanonParts(cfg, n, chain, st, pos, atDoc);
      ListShaped(cfg, n.children, chain', below, pos1, atDoc1);
      PartsShaped(cfg, st, chain', n, body);
    } else {
      LeafShaped(cfg, n, chain, st, pos, atDoc);
    }
  }

  lemma LeafShaped(cfg: Config, n: Node, chain: Chain, st: Stack, pos: Position, atDoc: bool)
    requires !n.Element? && WindowOk(st) && Printable(cfg, n, chain)
    ensures Shaped(Canon(cfg, n, chain, st, pos, atDoc).tokens)
  {
    hide LegalComment, LegalPI;
    var ts := Canon(cfg, n, chain, st, pos, atDoc).tokens;
    if ts != [] {
      ShapedOne(ts[0], []);
      assert [ts[0]] + [] == ts;
    }
  }

  lemma VisibleShaped(cfg: Config, st: Stack, chain: Chain, e: Node, body: seq<Token>)
    requires e.Element? && e.visible && chain != [] && WindowOk(st) && LegalQName(NsPrefix(e.ns), e.name)
             && Shaped(body)
    requires AllLegal(DeclTokens(NamespaceAxis(cfg, st, chain, e).list)
                      + AttrTokens(AttrsAxis(cfg, e.attrs, chain[1..], true)))
    ensures Shaped(StartTag(cfg, st, chain, e) + body + Optional(true, Close(NsPrefix(e.ns), e.name)))
  {
    hide NamespaceAxis, AttrsAxis, DeclTokens, AttrTokens, Shaped, LegalQName, LegalToken;
    var d, a := DeclTokens(NamespaceAxis(cfg, st, chain, e).list),
        AttrTokens(AttrsAxis(cfg, e.attrs, chain[1..], true));
    var open, close := Open(NsPrefix(e.ns), e.name), Close(NsPrefix(e.ns), e.name);
    NothingShaped();
    ShapedOne(close, []);
    assert [close] + [] == [close];
    ShapedAppend(body, [close]);
    ShapedTag(open.prefix, open.name, d + a, body + [close]);
    Assoc([open], d, a);
    Assoc([open] + d + a + [Gt], body, [close]);
  }

  lemma {:induction false} ListShaped(cfg: Config, l: NodeList, chain: Chain, st: Stack, pos: Position, atDoc: bool)
    requires WindowOk(st) && PrintableList(cfg, l, chain) && LegalChain(chain)
    ensures Shaped(CanonList(cfg, l, chain, st, pos, atDoc).tokens)
    decreases l
  {
    hide Shaped, Printable, Canon, LegalFrame;
    NothingShaped();
    if l.Cons? {
      NodeShaped(cfg, l.head, chain, st, pos, atDoc);
      var first := Canon(cfg, l.head, chain, st, pos, atDoc);
      ListShaped(cfg, l.tail, chain, st, first.pos, atDoc);
      ShapedAppend(first.tokens, CanonList(cfg, l.tail, chain, st, first.pos, atDoc).tokens);
    }
  }

  // ----- What the source has to be like -----

  /** The namespaces an element shows have plain URIs. */
  ghost predicate ShownPlain(s: Scope)
    requires s.element.Element?
  {
    forall ns :: ns in Axis(s.chain, s.element.hidden) ==> PlainUri(ns.href)
  }

  ghost predicate AllShownPlain(l: seq<Scope>) {
    forall s :: s in l ==> s.element.Element? && ShownPlain(s)
  }

  /** Comments and processing instructions that are written have no carriage returns. */
  ghost predicate NotesPlain(cfg: Config, n: Node) {
    match n
    case Element(_, _, _, _, children, _, _) => NotesPlainIn(cfg, children)
    case Comment(content, visible) => visible && cfg.withComments ==> '\r' !in content
    case PI(_, content, visible) => visible ==> '\r' !in content
    case _ => true
  }

  ghost predicate NotesPlainIn(cfg: Config, l: NodeList) {
    l.Cons? ==> NotesPlain(cfg, l.head) && NotesPlainIn(cfg, l.tail)
  }

  ghost predicate SourcePlain(cfg: Config, doc: NodeList) {
    AllShownPlain(ScopesOfList(doc, [])) && NotesPlainIn(cfg, doc)
  }

  // ----- From the source to the tokens -----

  lemma {:induction false} DeclsPlainIff(l: seq<Ns>)
    ensures AllPlain(DeclTokens(l)) <==> forall ns :: ns in l ==> PlainUri(ns.href)
  {
    hide PlainUri;
    if l != [] {
      assert l == [l[0]] + l[1..];
      DeclsPlainIff(l[1..]);
      PlainAppend([Decl(l[0])], DeclTokens(l[1..]));
      assert AllPlain([Decl(l[0])]) <==> PlainToken(Decl(l[0])) by { assert Decl(l[0]) in [Decl(l[0])]; }
    }
  }

  lemma {:induction false} AttrsPlain(l: seq<Attr>)
    ensures AllPlain(AttrTokens(l))
  {
    if l != [] { AttrsPlain(l[1..]); }
  }

  lemma VisiblePlain(cfg: Config, st: Stack, chain: Chain, e: Node)
    requires !cfg.exclusive && e.Element? && e.visible && chain != [] && WindowOk(st) && ShownPlain(Scope(chain, e))
    ensures AllPlain(StartTag(cfg, st, chain, e))
  {
    hide Axis, InclusiveAxis, AttrsAxis, DeclTokens, AttrTokens, PlainUri, AllPlain;
    var list, attrs := NamespaceAxis(cfg, st, chain, e).list, AttrsAxis(cfg, e.attrs, chain[1..], true);
    InclusiveEffect(st, chain, e.hidden, true);
    UndeclaredPlain();
    DeclsPlainIff(list);
    AttrsPlain(attrs);
    EndsPlain(e);
    var open := [Open(NsPrefix(e.ns), e.name)];
    PlainAppend(open, DeclTokens(list));
    PlainAppend(open + DeclTokens(list), AttrTokens(attrs));
    PlainAppend(open + DeclTokens(list) + AttrTokens(attrs), [Gt]);
  }

  lemma UndeclaredPlain()
    ensures PlainUri(DEFAULT_UNDECLARED.href)
  {
  }

  lemma EndsPlain(e: Node)
    requires e.Element?
    ensures AllPlain([Open(NsPrefix(e.ns), e.name)]) && AllPlain([Gt])
    ensures AllPlain(Optional(e.visible, Close(NsPrefix(e.ns), e.name))) && AllPlain([])
  {
  }

  lemma LeafPlainIff(cfg: Config, n: Node, chain: Chain, st: Stack, pos: Position, atDoc: bool)
    requires !n.Element? && WindowOk(st)
    ensures AllPlain(Canon(cfg, n, chain, st, pos, atDoc).tokens) <==> NotesPlain(cfg, n)
  {
    var ts := Canon(cfg, n, chain, st, pos, atDoc).tokens;
    if ts != [] { assert ts[0] in ts; }
  }

  lemma {:induction false} NodePlain(cfg: Config, n: Node, chain: Chain, st: Stack, pos: Position, atDoc: bool)
    requires !cfg.exclusive && WindowOk(st) && Printable(cfg, n, chain)
    requires AllShownPlain(Scopes(n, chain)) && NotesPlain(cfg, n)
    ensures AllPlain(Canon(cfg, n, chain, st, pos, atDoc).tokens)
    decreases n
  {
    if n.Element? {
      hide Canon, CanonList, ShowsNothing, ShownPlain, LegalFrame, LegalQName, NamespaceAxis, StartTag, AllPlain;
      hide AttrsAxis, PrintableList, StackBelow;
      var chain' := [FrameOf(n)] + chain;
      var below := StackBelow(cfg, st, chain', n);
      var pos1, atDoc1 := if n.visible && atDoc then Inside else pos, atDoc && !n.visible;
      var body := CanonList(cfg, n.children, chain', below, pos1, atDoc1).tokens;
      CanonParts(cfg, n, chain, st, pos, atDoc);
      assert AllShownPlain(ScopesOfList(n.children, chain'));
      ListPlain(cfg, n.children, chain', below, pos1, atDoc1);
      if n.visible {
        assert Scope(chain', n) in Scopes(n, chain);
        VisiblePlain(cfg, st, chain', n);
      } else {
        OmittedNothing(cfg, st, chain', n);
      }
      EndsPlain(n);
      PlainAppend(StartTag(cfg, st, chain', n), body);
      PlainAppend(StartTag(cfg, st, chain', n) + body, Optional(n.visible, Close(NsPrefix(n.ns), n.name)));
    } else {
      LeafPlainIff(cfg, n, chain, st, pos, atDoc);
    }
  }

  lemma {:induction false} ListPlain(cfg: Config, l: NodeList, chain: Chain, st: Stack, pos: Position, atDoc: bool)
    requires !cfg.exclusive && WindowOk(st) && PrintableList(cfg, l, chain)
    requires AllShownPlain(ScopesOfList(l, chain)) && NotesPlainIn(cfg, l)
    ensures AllPlain(CanonList(cfg, l, chain, st, pos, atDoc).tokens)
    decreases l
  {
    hide Printable, Canon, NotesPlain, ShownPlain, Scopes;
    if l.Cons? {
      NodePlain(cfg, l.head, chain, st, pos, atDoc);
      var first := Canon(cfg, l.head, chain, st, pos, atDoc);
      ListPlain(cfg, l.tail, chain, st, first.pos, atDoc);
      PlainAppend(first.tokens, CanonList(cfg, l.tail, chain, st, first.pos, atDoc).tokens);
    }
  }

  // ----- From the tokens to the source -----

  lemma {:induction false} NodeNotes(cfg: Config, n: Node, chain: Chain, st: Stack, pos: Position, atDoc: bool)
    requires WindowOk(st) && AllPlain(Canon(cfg, n, chain, st, pos, atDoc).tokens)
    ensures NotesPlain(cfg, n)
    decreases n
  {
    if n.Element? {
      hide Canon, CanonList, StartTag, AllPlain, NamespaceAxis, StackBelow;
      var chain' := [FrameOf(n)] + chain;
      var below := StackBelow(cfg, st, chain', n);
      var pos1, atDoc1 := if n.visible && atDoc then Inside else pos, atDoc && !n.visible;
      var body := CanonList(cfg, n.children, chain', below, pos1, atDoc1).tokens;
      CanonParts(cfg, n, chain, st, pos, atDoc);
      PlainAppend(StartTag(cfg, st, chain', n) + body, Optional(n.visible, Close(NsPrefix(n.ns), n.name)));
      PlainAppend(StartTag(cfg, st, chain', n), body);
      ListNotes(cfg, n.children, chain', below, pos1, atDoc1);
    } else {
      LeafPlainIff(cfg, n, chain, st, pos, atDoc);
    }
  }

  lemma {:induction false} ListNotes(cfg: Config, l: NodeList, chain: Chain, st: Stack, pos: Position, atDoc: bool)
    requires WindowOk(st) && AllPlain(CanonList(cfg, l, chain, st, pos, atDoc).tokens)
    ensures NotesPlainIn(cfg, l)
    decreases l
  {
    hide Canon, NotesPlain, AllPlain;
    if l.Cons? {
      var first := Canon(cfg, l.head, chain, st, pos, atDoc);
      PlainAppend(first.tokens, CanonList(cfg, l.tail, chain, st, first.pos, atDoc).tokens);
      NodeNotes(cfg, l.head, chain, st, pos, atDoc);
      ListNotes(cfg, l.tail, chain, st, first.pos, atDoc);
    }
  }

  ghost predicate CtxPlain(ctx: Ctx) {
    forall p :: p in ctx ==> PlainUri(ctx[p])
  }

  ghost predicate ReaderPlain(r: Reader) {
    && (forall c :: c in r.stack ==> CtxPlain(c))
    && (r.open.Some? ==> CtxPlain(r.open.value.ctx))
  }

  lemma PlainOne(t: Token, r: Reader)
    requires PlainToken(t) && ReaderPlain(r)
    ensures ReaderPlain(ReadOne(t, r))
  {
    hide PlainUri;
  }

  /** Reading plain declarations binds prefixes to plain URIs only. */
  lemma {:induction false} PlainRead(ts: seq<Token>, r: Reader)
    requires AllPlain(ts) && ReaderPlain(r)
    ensures forall tag :: tag in Read(ts, r).elements ==> CtxPlain(tag.ctx)
  {
    hide PlainToken, ReadOne, CtxPlain;
    if ts != [] {
      assert ts[0] in ts && forall t :: t in ts[1..] ==> t in ts;
      PlainOne(ts[0], r);
      PlainRead(ts[1..], ReadOne(ts[0], r));
    }
  }

  /** A shown namespace is what the start tag has in force for its prefix. */
  lemma StandsPlain(cfg: Config, tag: Tag, s: Scope)
    requires Stands(cfg, tag, s) && CtxPlain(tag.ctx)
    ensures ShownPlain(s)
  {
    hide PlainUri, Search, Axis, AttrsAxis;
    UndeclaredPlain();
    AxisMembers(s.chain, s.element.hidden);
    forall ns | ns in Axis(s.chain, s.element.hidden) ensures PlainUri(ns.href) {
      assert Bound(tag.ctx, ns.prefix) == ns.href;
    }
  }

  /** The tokens of an inclusive canonical form are plain exactly when the source is. */
  lemma PlainIff(cfg: Config, doc: NodeList)
    requires !cfg.exclusive && PrintableList(cfg, doc, [])
    ensures AllPlain(CanonDocument(cfg, doc)) <==> SourcePlain(cfg, doc)
  {
    hide AllPlain, CanonList, ShownPlain, Stands, ScopesOfList, NotesPlainIn, PrintableList, Read, CtxPlain;
    var ts, scopes := CanonDocument(cfg, doc), ScopesOfList(doc, []);
    if SourcePlain(cfg, doc) {
      ListPlain(cfg, doc, [], EMPTY_STACK, Before, true);
    }
    if AllPlain(ts) {
      ListNotes(cfg, doc, [], EMPTY_STACK, Before, true);
      NamespacesPreserved(cfg, doc);
      PlainRead(ts, NEW_READER);
      var tags := Read(ts, NEW_READER).elements;
      forall s | s in scopes ensures s.element.Element? && ShownPlain(s) {
        var i :| 0 <= i < |scopes| && scopes[i] == s;
        assert tags[i] in tags;
        assert Stands(cfg, tags[i], s);
        StandsElement(cfg, tags[i], s);
        StandsPlain(cfg, tags[i], s);
      }
    }
  }

  lemma StandsElement(cfg: Config, tag: Tag, s: Scope)
    requires Stands(cfg, tag, s)
    ensures s.element.Element?
  {
  }

  // ----- The text -----

  /**
    The text of a canonical form of either kind has its tokens if and only if they are plain; and
    then everything that is read off the tokens is read off the text.
   */
  lemma DocumentTextReadsIff(cfg: Config, doc: NodeList, refs: map<string, char>)
    requires RefsOk(refs) && PrintableList(cfg, doc, [])
    ensures var ts := CanonDocument(cfg, doc);
            var read := ReadText(refs, PrintAll(ts));
            && (read == Some(Explode(ts)) <==> AllPlain(ts))
            && (AllPlain(ts) ==> read.Some? && Read(read.value, NEW_READER) == Read(ts, NEW_READER))
  {
    hide ReadText, PrintAll, Explode, CanonList, Shaped, RefsOk, AllPlain, PrintableList;
    var ts := CanonDocument(cfg, doc);
    ListShaped(cfg, doc, [], EMPTY_STACK, Before, true);
    TextReadsIff(refs, ts);
    ReadExploded(ts, NEW_READER);
  }

  /**
    The text of the inclusive canonical form, read as XML, has the tokens of the canonical form
    if and only if the namespaces shown in the source have plain URIs and no comment or
    processing instruction that is written has a carriage return. Then prefixes mean in the text
    what they mean in the source.
   */
  lemma CanonicalTextReadsIff(cfg: Config, doc: NodeList, refs: map<string, char>)
    requires !cfg.exclusive && RefsOk(refs) && PrintableList(cfg, doc, [])
    ensures var ts := CanonDocument(cfg, doc);
            var read := ReadText(refs, PrintAll(ts));
            && (read == Some(Explode(ts)) <==> SourcePlain(cfg, doc))
            && (SourcePlain(cfg, doc) ==>
                  && read.Some? && Read(read.value, NEW_READER).reader == NEW_READER
                  && AllStand(cfg, Read(read.value, NEW_READER).elements, ScopesOfList(doc, [])))
  {
    hide ReadText, PrintAll, Explode, CanonList, RefsOk, AllPlain, AllStand, ScopesOfList, PrintableList, SourcePlain;
    DocumentTextReadsIff(cfg, doc, refs);
    PlainIff(cfg, doc);
    NamespacesPreserved(cfg, doc);
  }

  /**
    The text of the exclusive canonical form, when its tokens are plain: the expanded names a
    namespace-aware reader finds in it are those of the source if and only if the source keeps
    them, as for the tokens.
   */
  lemma ExclusiveTextNamesIff(cfg: Config, doc: NodeList, refs: map<string, char>)
    requires cfg.exclusive && RefsOk(refs) && PrintableList(cfg, doc, []) && NodesOk(cfg, doc, [])
    requires AllPlain(CanonDocument(cfg, doc))
    ensures var read := ReadText(refs, PrintAll(CanonDocument(cfg, doc)));
            && read.Some? && AllNamesOk(ScopesOfList(doc, []))
            && (ExpandTags(Read(read.value, NEW_READER).elements) == SourceNames(cfg, ScopesOfList(doc, []))
                <==> NamesKeptIn(cfg, doc, [], map[], map[]))
  {
    hide ReadText, PrintAll, Explode, CanonList, RefsOk, AllPlain, ScopesOfList, PrintableList;
    DocumentTextReadsIff(cfg, doc, refs);
    NamesKeptIff(cfg, doc);
  }
}
