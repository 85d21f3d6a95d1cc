/**
  What exclusive canonicalization does to names. The output, read by a namespace-aware reader,
  has the names of the source exactly when no namespace is taken as rendered that is not in
  force in the output. That happens only below omitted elements whose attributes are shown.
 */
module C14nExclusiveNames {
  import opened Ordering
  import opened C14nTree
  import opened C14nSpec
  import opened C14nNamespaces
  import opened C14nExclusive

  // ----- One element -----

  /** The namespaces of the element's name and of its shown attributes. */
  function OwnUses(chain: Chain, e: Node): seq<Ns>
    requires e.Element?
  {
    NameUse(OwnNs(chain, e.ns)) + AttrUses(e.attrs)
  }

  /** What the element takes as rendered is in force in the output. */
  ghost predicate FoundInForce(cfg: Config, st: Stack, ctx: Ctx, chain: Chain, e: Node)
    requires e.Element? && WindowOk(st)
  {
    forall ns :: ns in OwnUses(chain, e) && Found(st, ListedSet(cfg, chain), ns) ==> Bound(ctx, ns.prefix) == ns.href
  }

  /** What is bound in the output is in scope. */
  ghost predicate CtxScoped(ctx: Ctx, chain: Chain) {
    forall p :: p != "xml" && Bound(ctx, p) != "" ==> Search(chain, p).Some?
  }

  /** The context in the element's start tag. */
  function TagCtx(cfg: Config, st: Stack, chain: Chain, e: Node, ctx: Ctx): Ctx
    requires e.Element? && WindowOk(st)
  {
    Declare(ctx, NamespaceAxis(cfg, st, chain, e).list)
  }

  ghost predicate Visible(cfg: Config, st: Stack, chain: Chain, e: Node) {
    cfg.exclusive && e.Element? && e.visible && chain != [] && ElementOk(cfg, chain, e) && WindowOk(st)
      && Scoped(st.tab, chain)
  }

  /** After the start tag a used namespace is in force unless it was taken as rendered. */
  lemma UsedAfter(cfg: Config, st: Stack, ctx: Ctx, chain: Chain, e: Node, ns: Ns)
    requires Visible(cfg, st, chain, e) && ns in Uses(chain, cfg.inclusivePrefixes, e)
    ensures Bound(TagCtx(cfg, st, chain, e, ctx), ns.prefix) ==
            if Found(st, ListedSet(cfg, chain), ns) then Bound(ctx, ns.prefix) else ns.href
  {
    hide ElementOk, ExclusiveAxis, Uses, Search, Found, Declare, ListedSet, OwnIs;
    VisibleElement(cfg, st, chain, e);
    UsesOk(cfg, chain, e);
    var uses, list := Uses(chain, cfg.inclusivePrefixes, e), NamespaceAxis(cfg, st, chain, e).list;
    assert ns in Members(uses) && forall x :: x in list ==> x in uses;
    SortedDistinct(list);
    DeclareBound(ctx, list, ns.prefix);
    assert forall x :: x in list && x.prefix == ns.prefix ==> UseOk(chain, x) && UseOk(chain, ns) && x == ns;
  }

  /** Other prefixes keep their meaning, and nothing out of scope gets one. */
  lemma CtxAfter(cfg: Config, st: Stack, ctx: Ctx, chain: Chain, e: Node)
    requires Visible(cfg, st, chain, e)
    ensures var ctx' := TagCtx(cfg, st, chain, e, ctx);
            && (forall p ::
                  p != "xml" && (forall ns :: ns in Uses(chain, cfg.inclusivePrefixes, e) ==> ns.prefix != p) ==>
                  Bound(ctx', p) == Bound(ctx, p))
            && (CtxScoped(ctx, chain) ==> CtxScoped(ctx', chain))
  {
    hide ElementOk, ExclusiveAxis, Uses, Search, Found, Declare, ListedSet, OwnIs;
    VisibleElement(cfg, st, chain, e);
    UsesOk(cfg, chain, e);
    var uses, list := Uses(chain, cfg.inclusivePrefixes, e), NamespaceAxis(cfg, st, chain, e).list;
    assert forall x :: x in list ==> x in Members(uses) && x in uses && UseOk(chain, x);
    SortedDistinct(list);
    forall p | p != "xml"
      ensures (forall ns :: ns in uses ==> ns.prefix != p) ==> Bound(Declare(ctx, list), p) == Bound(ctx, p)
      ensures Search(chain, p).Some? || Bound(Declare(ctx, list), p) == Bound(ctx, p)
    {
      DeclareBound(ctx, list, p);
    }
  }

  /** The element's name reads back exactly when its namespace, if taken as rendered, is in force. */
  lemma NameIff(cfg: Config, st: Stack, ctx: Ctx, chain: Chain, e: Node)
    requires Visible(cfg, st, chain, e) && CtxScoped(ctx, chain)
    ensures Bound(TagCtx(cfg, st, chain, e, ctx), NsPrefix(e.ns)) == SourceNs(e.ns) <==>
            forall ns :: ns in NameUse(NameNs(chain, e.ns)) && Found(st, ListedSet(cfg, chain), ns) ==>
                Bound(ctx, ns.prefix) == ns.href
  {
    hide NamespaceAxis, Found, ListedSet, Declare, Search, TagCtx;
    var name := NameNs(chain, e.ns);
    if name.Some? && !IsXmlNs(name.value) {
      var ns := name.value;
      assert NameUse(name) == [ns] && ns in NameUse(name) && ns in Uses(chain, cfg.inclusivePrefixes, e);
      UsedAfter(cfg, st, ctx, chain, e, ns);
      assert ns.prefix == NsPrefix(e.ns) && ns.href == SourceNs(e.ns);
    } else if name.None? {
      UsesOk(cfg, chain, e);
      CtxAfter(cfg, st, ctx, chain, e);
      assert forall ns :: ns in Uses(chain, cfg.inclusivePrefixes, e) ==> UseOk(chain, ns) && ns.prefix != "";
    }
  }

  /** The attributes read back with their namespaces exactly when their prefixes mean them. */
  lemma {:induction false} AttrsExpandIff(ctx: Ctx, l: seq<Attr>)
    requires forall a :: a in l && a.ns.Some? ==> a.ns.value.prefix != ""
    ensures ExpandAttrs(ctx, AttrTokens(l)) == SourceAttrs(l) <==>
            forall a :: a in l && a.ns.Some? ==> Bound(ctx, a.ns.value.prefix) == a.ns.value.href
  {
    if l != [] {
      assert l == [l[0]] + l[1..];
      assert AttrTokens(l)[1..] == AttrTokens(l[1..]);
      AttrsExpandIff(ctx, l[1..]);
      var x, y := ExpandAttrs(ctx, AttrTokens(l)), SourceAttrs(l);
      assert x[1..] == ExpandAttrs(ctx, AttrTokens(l[1..])) && y[1..] == SourceAttrs(l[1..]);
      assert x == [x[0]] + x[1..] && y == [y[0]] + y[1..];
    }
  }

  lemma AttrsIff(cfg: Config, st: Stack, ctx: Ctx, chain: Chain, e: Node)
    requires Visible(cfg, st, chain, e)
    ensures var list := AttrsAxis(cfg, e.attrs, chain[1..], true);
            ExpandAttrs(TagCtx(cfg, st, chain, e, ctx), AttrTokens(list)) == SourceAttrs(list) <==>
            forall ns :: ns in AttrUses(e.attrs) && Found(st, ListedSet(cfg, chain), ns) ==>
                Bound(ctx, ns.prefix) == ns.href
  {
    hide NamespaceAxis, Found, ListedSet, Declare, Search, TagCtx, ExpandAttrs, AttrTokens, SourceAttrs, AttrUses;
    var list := AttrsAxis(cfg, e.attrs, chain[1..], true);
    var ctx' := TagCtx(cfg, st, chain, e, ctx);
    InsertVisibleMembers([], e.attrs);
    AttrUsesMembers(e.attrs);
    AttrsExpandIff(ctx', list);
    forall ns | ns in AttrUses(e.attrs)
      ensures Bound(ctx', ns.prefix) == ns.href <==>
              (Found(st, ListedSet(cfg, chain), ns) ==> Bound(ctx, ns.prefix) == ns.href)
    {
      assert ns in Uses(chain, cfg.inclusivePrefixes, e);
      UsedAfter(cfg, st, ctx, chain, e, ns);
    }
    forall a | a in list && a.ns.Some?
      ensures a.ns.value in AttrUses(e.attrs) || Bound(ctx', a.ns.value.prefix) == a.ns.value.href
    {
      if IsXmlNs(a.ns.value) { assert a.ns.value.prefix == "xml"; } else { assert UsesNs(a); }
    }
  }

  /**
    The exact condition for one visible element, whatever is on the stack and in the output: its
    start tag has its names if and only if no namespace it takes as rendered is out of force.
   */
  lemma VisibleNamesIff(cfg: Config, st: Stack, ctx: Ctx, chain: Chain, e: Node)
    requires Visible(cfg, st, chain, e) && CtxScoped(ctx, chain)
    ensures NamesOk(Scope(chain, e))
    ensures SameNames(cfg, TagOf(cfg, st, chain, e, ctx), Scope(chain, e)) <==> FoundInForce(cfg, st, ctx, chain, e)
  {
    NamesFine(cfg, st, chain, e);
    hide NamespaceAxis, Found, ListedSet, Declare, Search, ExpandAttrs, AttrTokens, SourceAttrs, AttrUses, NameUse,
         AttrsAxis, NamesOk, ElementOk;
    NameIff(cfg, st, ctx, chain, e);
    AttrsIff(cfg, st, ctx, chain, e);
  }

  lemma NamesFine(cfg: Config, st: Stack, chain: Chain, e: Node)
    requires Visible(cfg, st, chain, e)
    ensures NamesOk(Scope(chain, e))
  {
  }

  // ----- Whole documents -----

  /** On the way through the document, nothing is taken as rendered that is not in force. */
  ghost predicate Keeps(cfg: Config, n: Node, chain: Chain, st: Stack, ctx: Ctx)
    requires WindowOk(st)
    decreases n
  {
    n.Element? ==>
      var chain' := [FrameOf(n)] + chain;
      && (n.visible ==> FoundInForce(cfg, st, ctx, chain', n))
      && KeepsList(cfg, n.children, chain', StackBelow(cfg, st, chain', n), TagCtx(cfg, st, chain', n, ctx))
  }

  ghost predicate KeepsList(cfg: Config, l: NodeList, chain: Chain, st: Stack, ctx: Ctx)
    requires WindowOk(st)
    decreases l
  {
    l.Cons? ==> Keeps(cfg, l.head, chain, st, ctx) && KeepsList(cfg, l.tail, chain, st, ctx)
  }

  lemma CtxBelow(ctx: Ctx, chain: Chain, frame: Frame)
    requires CtxScoped(ctx, chain)
    ensures CtxScoped(ctx, [frame] + chain)
  {
    hide Search;
    forall p | p != "xml" && Bound(ctx, p) != "" ensures Search([frame] + chain, p).Some? {
      SearchStep(frame, chain, p);
    }
  }

  lemma {:induction false} ExpandAppend(a: seq<Tag>, b: seq<Tag>)
    ensures ExpandTags(a + b) == ExpandTags(a) + ExpandTags(b) && |ExpandTags(a)| == |a|
  {
    if a == [] {
      assert a + b == b;
    } else {
      assert (a + b)[1..] == a[1..] + b;
      ExpandAppend(a[1..], b);
    }
  }

  lemma {:induction false} SourceAppend(cfg: Config, s: seq<Scope>, t: seq<Scope>)
    requires AllNamesOk(s) && AllNamesOk(t)
    ensures AllNamesOk(s + t)
    ensures SourceNames(cfg, s + t) == SourceNames(cfg, s) + SourceNames(cfg, t) && |SourceNames(cfg, s)| == |s|
  {
    if s == [] {
      assert s + t == t;
    } else {
      assert (s + t)[1..] == s[1..] + t;
      SourceAppend(cfg, s[1..], t);
    }
  }

  /** One start tag per scope, with the names of the source if and only if `keeps`. */
  ghost predicate ReadsBack(cfg: Config, tags: seq<Tag>, scopes: seq<Scope>, keeps: bool) {
    |tags| == |scopes| && AllNamesOk(scopes) && (ExpandTags(tags) == SourceNames(cfg, scopes) <==> keeps)
  }

  lemma ReadsBackAppend(cfg: Config, a: seq<Tag>, b: seq<Tag>, s: seq<Scope>, t: seq<Scope>, k: bool, m: bool)
    requires ReadsBack(cfg, a, s, k) && ReadsBack(cfg, b, t, m)
    ensures ReadsBack(cfg, a + b, s + t, k && m)
  {
    hide ExpandTags, SourceNames, NamesOk;
    ExpandAppend(a, b);
    SourceAppend(cfg, s, t);
    var w, x, y, z := ExpandTags(a), ExpandTags(b), SourceNames(cfg, s), SourceNames(cfg, t);
    if w + x == y + z {
      assert (w + x)[..|a|] == w && (w + x)[|a|..] == x && (y + z)[..|a|] == y && (y + z)[|a|..] == z;
    }
  }

  lemma OneReadsBack(cfg: Config, tag: Tag, s: Scope)
    requires NamesOk(s)
    ensures AllNamesOk([s]) && ReadsBack(cfg, [tag], [s], SameNames(cfg, tag, s))
  {
    hide NamesOk, Bound, ExpandAttrs, SourceAttrs, AttrsAxis;
    assert ExpandTags([tag][1..]) == [] && SourceNames(cfg, [s][1..]) == [];
    var x, y := ExpandTags([tag]), SourceNames(cfg, [s]);
    assert x == [x[0]] && y == [y[0]];
  }

  lemma StartTagNames(cfg: Config, st: Stack, chain: Chain, e: Node, r: Reader)
    requires cfg.exclusive && e.Element? && chain != [] && r.open.None? && WindowOk(st)
    requires ElementOk(cfg, chain, e) && Scoped(st.tab, chain) && CtxScoped(Current(r), chain)
    ensures var reading := Read(StartTag(cfg, st, chain, e), r);
            && reading.reader.open.None?
            && (if e.visible then
                  |reading.reader.stack| == |r.stack| + 1 && reading.reader.stack[..|r.stack|] == r.stack
                else reading.reader == r)
            && Current(reading.reader) == TagCtx(cfg, st, chain, e, Current(r))
              && CtxScoped(Current(reading.reader), chain)
            && ReadsBack(cfg, reading.elements, if e.visible then [Scope(chain, e)] else [],
                         e.visible ==> FoundInForce(cfg, st, Current(r), chain, e))
  {
    hide ElementOk, Scoped, NamespaceAxis, AttrsAxis, FoundInForce, CtxScoped, SameNames, Read, StartTag;
    ReadStartTag(cfg, st, chain, e, r);
    if e.visible {
      CtxAfter(cfg, st, Current(r), chain, e);
      VisibleNamesIff(cfg, st, Current(r), chain, e);
      OneReadsBack(cfg, TagOf(cfg, st, chain, e, Current(r)), Scope(chain, e));
    } else {
      ScopedStep(cfg, st, chain, e);
    }
  }

  lemma {:induction false} NodeNames(cfg: Config, n: Node, chain: Chain, st: Stack, pos: Position, atDoc: bool,
                                     r: Reader)
    requires cfg.exclusive && r.open.None? && WindowOk(st)
    requires NodeOk(cfg, n, chain) && Scoped(st.tab, chain) && CtxScoped(Current(r), chain)
    ensures var reading := Read(Canon(cfg, n, chain, st, pos, atDoc).tokens, r);
            reading.reader == r && ReadsBack(cfg, reading.elements, Scopes(n, chain),
                                             Keeps(cfg, n, chain, st, Current(r)))
    decreases n
  {
    hide ElementOk, Scoped, CtxScoped, NamespaceAxis, StartTag, TagCtx, CanonList, KeepsList, ReadsBack, FoundInForce,
         Read, ScopesOfList;
    if n.Element? {
      var chain' := [FrameOf(n)] + chain;
      var below := StackBelow(cfg, st, chain', n);
      var pos1, atDoc1 := if n.visible && atDoc then Inside else pos, atDoc && !n.visible;
      var a := StartTag(cfg, st, chain', n);
      var b := CanonList(cfg, n.children, chain', below, pos1, atDoc1).tokens;
      var c := Optional(n.visible, Close(NsPrefix(n.ns), n.name));
      ScopedBelow(st.tab, chain, FrameOf(n));
      CtxBelow(Current(r), chain, FrameOf(n));
      StartTagNames(cfg, st, chain', n, r);
      ScopedStep(cfg, st, chain', n);
      var r1 := Read(a, r).reader;
      ListNames(cfg, n.children, chain', below, pos1, atDoc1, r1);
      ReadEndTag(n, r, r1);
      ReadElement(a, b, c, r, r1);
      ReadsBackAppend(cfg, Read(a, r).elements, Read(b, r1).elements,
                      if n.visible then [Scope(chain', n)] else [], ScopesOfList(n.children, chain'),
                      n.visible ==> FoundInForce(cfg, st, Current(r), chain', n),
                      KeepsList(cfg, n.children, chain', below, Current(r1)));
      assert Read(a, r).elements + Read(b, r1).elements + [] == Read(a, r).elements + Read(b, r1).elements;
    } else {
      NoNames(cfg, n, chain, st, pos, atDoc, r);
    }
  }

  lemma NoNames(cfg: Config, n: Node, chain: Chain, st: Stack, pos: Position, atDoc: bool, r: Reader)
    requires !n.Element? && WindowOk(st)
    ensures var reading := Read(Canon(cfg, n, chain, st, pos, atDoc).tokens, r);
            reading.reader == r && ReadsBack(cfg, reading.elements, Scopes(n, chain), true)
  {
  }

  lemma {:induction false} ListNames(cfg: Config, l: NodeList, chain: Chain, st: Stack, pos: Position, atDoc: bool,
                                     r: Reader)
    requires cfg.exclusive && r.open.None? && WindowOk(st)
    requires NodesOk(cfg, l, chain) && Scoped(st.tab, chain) && CtxScoped(Current(r), chain)
    ensures var reading := Read(CanonList(cfg, l, chain, st, pos, atDoc).tokens, r);
            reading.reader == r && ReadsBack(cfg, reading.elements, ScopesOfList(l, chain),
                                             KeepsList(cfg, l, chain, st, Current(r)))
    decreases l
  {
    hide NodeOk, Scoped, CtxScoped, Canon, Keeps, ReadsBack, Read, Scopes;
    if l.Cons? {
      NodeNames(cfg, l.head, chain, st, pos, atDoc, r);
      var first := Canon(cfg, l.head, chain, st, pos, atDoc);
      ListNames(cfg, l.tail, chain, st, first.pos, atDoc, r);
      var rest := CanonList(cfg, l.tail, chain, st, first.pos, atDoc);
      ReadAppend(first.tokens, rest.tokens, r);
      ReadsBackAppend(cfg, Read(first.tokens, r).elements, Read(rest.tokens, r).elements,
                      Scopes(l.head, chain), ScopesOfList(l.tail, chain),
                      Keeps(cfg, l.head, chain, st, Current(r)), KeepsList(cfg, l.tail, chain, st, Current(r)));
    } else {
      NothingRead(cfg, r);
    }
  }

  lemma NothingRead(cfg: Config, r: Reader)
    ensures Read([], r) == Reading(r, []) && ReadsBack(cfg, [], [], true)
  {
  }

  /**
    The exact condition for a document: its exclusive canonical form, read by a namespace-aware
    reader, balances, and has the elements and attributes of the source in the same namespaces
    if and only if nothing is taken as rendered that is not in force.
   */
  lemma ExclusiveNamesIff(cfg: Config, doc: NodeList)
    requires cfg.exclusive && NodesOk(cfg, doc, [])
    ensures var reading := Read(CanonDocument(cfg, doc), NEW_READER);
            && reading.reader == NEW_READER && AllNamesOk(ScopesOfList(doc, []))
            && (ExpandTags(reading.elements) == SourceNames(cfg, ScopesOfList(doc, []))
                <==> KeepsList(cfg, doc, [], EMPTY_STACK, map[]))
  {
    hide NodesOk, CanonList, KeepsList, ExpandTags, SourceNames, NamesOk;
    ListNames(cfg, doc, [], EMPTY_STACK, Before, true, NEW_READER);
  }

  // ----- Documents that follow the Recommendation -----

  lemma {:induction false} AgreeKeeps(cfg: Config, n: Node, chain: Chain, st: Stack, ctx: Ctx)
    requires cfg.exclusive && NodeOk(cfg, n, chain) && WindowOk(st) && Scoped(st.tab, chain)
             && Agree(cfg, n, chain, st, ctx)
    ensures Keeps(cfg, n, chain, st, ctx)
    decreases n
  {
    hide ElementOk, Scoped, NamespaceAxis, Needed, Uses, LookupsAgree, FoundInForce, Declare, AgreeList, KeepsList;
    if n.Element? {
      var chain' := [FrameOf(n)] + chain;
      ScopedBelow(st.tab, chain, FrameOf(n));
      ScopedStep(cfg, st, chain', n);
      if n.visible {
        ListedIff(cfg, st, ctx, chain', n);
        AgreeInForce(cfg, st, ctx, chain', n);
      }
      AgreeKeepsList(cfg, n.children, chain', StackBelow(cfg, st, chain', n), TagCtx(cfg, st, chain', n, ctx));
    }
  }

  lemma AgreeInForce(cfg: Config, st: Stack, ctx: Ctx, chain: Chain, e: Node)
    requires e.Element? && WindowOk(st) && LookupsAgree(cfg, st, ctx, chain, e)
    ensures FoundInForce(cfg, st, ctx, chain, e)
  {
    hide Found, ListedSet;
    assert forall ns :: ns in OwnUses(chain, e) ==> ns in Uses(chain, cfg.inclusivePrefixes, e);
  }

  lemma {:induction false} AgreeKeepsList(cfg: Config, l: NodeList, chain: Chain, st: Stack, ctx: Ctx)
    requires cfg.exclusive && NodesOk(cfg, l, chain) && WindowOk(st) && Scoped(st.tab, chain)
             && AgreeList(cfg, l, chain, st, ctx)
    ensures KeepsList(cfg, l, chain, st, ctx)
    decreases l
  {
    hide NodeOk, Scoped, Agree, Keeps;
    if l.Cons? {
      AgreeKeeps(cfg, l.head, chain, st, ctx);
      AgreeKeepsList(cfg, l.tail, chain, st, ctx);
    }
  }

  /**
    Without attributes that are shown although their element is omitted, names always keep their
    namespaces, for every inclusive prefix list.
   */
  lemma ExclusiveNamesPreserved(cfg: Config, doc: NodeList)
    requires cfg.exclusive && NodesOk(cfg, doc, []) && NoOrphansIn(doc)
    ensures var reading := Read(CanonDocument(cfg, doc), NEW_READER);
            && reading.reader == NEW_READER && AllNamesOk(ScopesOfList(doc, []))
            && ExpandTags(reading.elements) == SourceNames(cfg, ScopesOfList(doc, []))
  {
    hide NodesOk, CanonDocument, AgreeList, KeepsList, ExpandTags, SourceNames, NamesOk, ScopesOfList;
    StartAgrees(cfg);
    OrphanlessAgreeList(cfg, doc, [], EMPTY_STACK, map[]);
    AgreeKeepsList(cfg, doc, [], EMPTY_STACK, map[]);
    ExclusiveNamesIff(cfg, doc);
  }

  // ----- Where names are lost -----

  const ORPHAN_CONFIG := Config(true, [], false)
  const A := Ns("a", "u")

  /** A visible element a:c, and its omitted parent with a shown attribute a:x. */
  function OrphanChild(): Node {
    Element("c", Some(A), [], [], Nil, true, {})
  }

  function OrphanParent(): Node {
    Element("e", None, [A], [Attr(Some(A), "x", "v", true)], Cons(OrphanChild(), Nil), false, {})
  }

  lemma OrphanElements()
    ensures var chain := [FrameOf(OrphanParent())];
            var st := StackBelow(ORPHAN_CONFIG, EMPTY_STACK, chain, OrphanParent());
            && st == Push(EMPTY_STACK, A, {})
            && StartTag(ORPHAN_CONFIG, EMPTY_STACK, chain, OrphanParent()) == [Attribute("a", "x", "v")]
            && StartTag(ORPHAN_CONFIG, st, [FrameOf(OrphanChild())] + chain, OrphanChild()) == [Open("a", "c"), Gt]
  {
    var attr := Attr(Some(A), "x", "v", true);
    var chain := [FrameOf(OrphanParent())];
    var st := Push(EMPTY_STACK, A, {});
    assert RenderAttrs([], AxisOut(st, []), {}, false) == AxisOut(st, []);
    assert RenderAttrs([attr], AxisOut(EMPTY_STACK, []), {}, false) == AxisOut(st, []);
    assert StackBelow(ORPHAN_CONFIG, EMPTY_STACK, chain, OrphanParent()) == st;
    assert NamespaceAxis(ORPHAN_CONFIG, EMPTY_STACK, chain, OrphanParent()).list == [];
    assert AttrTokens([attr]) == [Attribute("a", "x", "v")] by { assert [attr][1..] == []; }
    assert InsertVisible([attr], []) == [attr] && InsertVisible([], [attr]) == [attr];
    assert Top(st.tab, "a") == Some(Entry(A, {}));
    assert NamespaceAxis(ORPHAN_CONFIG, st, [FrameOf(OrphanChild())] + chain, OrphanChild()).list == [];
  }

  lemma {:induction false} NothingAsked(axis: seq<Ns>)
    ensures AskedFor(axis, []) == []
  {
    if axis != [] { NothingAsked(axis[1..]); }
  }

  lemma OrphanFine()
    ensures NodesOk(ORPHAN_CONFIG, Cons(OrphanParent(), Nil), [])
  {
    hide Axis, AskedFor;
    var outer := [FrameOf(OrphanParent())] + [];
    var inner := [FrameOf(OrphanChild())] + outer;
    NothingAsked(Axis(inner, {}));
    NothingAsked(Axis(outer, {}));
    SearchStep(FrameOf(OrphanParent()), [], "a");
    SearchStep(FrameOf(OrphanChild()), outer, "a");
    assert Search(outer, "a") == Some(A) && Search(inner, "a") == Some(A);
    assert Uses(inner, [], OrphanChild()) == [A];
    assert ElementOk(ORPHAN_CONFIG, inner, OrphanChild()) && ElementOk(ORPHAN_CONFIG, outer, OrphanParent());
    assert NodeOk(ORPHAN_CONFIG, OrphanChild(), outer);
    assert NodesOk(ORPHAN_CONFIG, OrphanParent().children, outer);
  }

  lemma OrphanTokens()
    ensures CanonDocument(ORPHAN_CONFIG, Cons(OrphanParent(), Nil))
            == [Attribute("a", "x", "v"), Open("a", "c"), Gt, Close("a", "c")]
  {
    var chain := [FrameOf(OrphanParent())];
    assert [FrameOf(OrphanParent())] + [] == chain;
    OrphanElements();
    hide StartTag, StackBelow;
    var st := Push(EMPTY_STACK, A, {});
    assert Canon(ORPHAN_CONFIG, OrphanChild(), chain, st, Before, true).tokens == [Open("a", "c"), Gt, Close("a", "c")];
    assert CanonList(ORPHAN_CONFIG, Cons(OrphanChild(), Nil), chain, st, Before, true).tokens
           == [Open("a", "c"), Gt, Close("a", "c")];
  }

  lemma LosesBelow(cfg: Config, child: Node, chain: Chain, st: Stack, ctx: Ctx)
    requires child.Element? && child.visible && WindowOk(st)
             && !FoundInForce(cfg, st, ctx, [FrameOf(child)] + chain, child)
    ensures !KeepsList(cfg, Cons(child, Nil), chain, st, ctx)
  {
    hide FoundInForce;
  }

  lemma OrphanLoses()
    ensures !KeepsList(ORPHAN_CONFIG, Cons(OrphanParent(), Nil), [], EMPTY_STACK, map[])
  {
    var chain := [FrameOf(OrphanParent())];
    assert chain == [FrameOf(OrphanParent())] + [];
    OrphanElements();
    hide StartTag, StackBelow, NamespaceAxis, KeepsList;
    var st := Push(EMPTY_STACK, A, {});
    OrphanNotInForce();
    OrphanUnbound();
    LosesBelow(ORPHAN_CONFIG, OrphanChild(), chain, st, map[]);
    NotKept();
  }

  lemma NotKept()
    requires var chain := [FrameOf(OrphanParent())];
             !KeepsList(ORPHAN_CONFIG, OrphanParent().children, chain,
                        StackBelow(ORPHAN_CONFIG, EMPTY_STACK, chain, OrphanParent()),
                        TagCtx(ORPHAN_CONFIG, EMPTY_STACK, chain, OrphanParent(), map[]))
    ensures !KeepsList(ORPHAN_CONFIG, Cons(OrphanParent(), Nil), [], EMPTY_STACK, map[])
  {
    hide StackBelow, TagCtx, FoundInForce;
    assert [FrameOf(OrphanParent())] == [FrameOf(OrphanParent())] + [];
  }

  lemma OrphanNotInForce()
    ensures !FoundInForce(ORPHAN_CONFIG, Push(EMPTY_STACK, A, {}), map[],
                          [FrameOf(OrphanChild())] + [FrameOf(OrphanParent())], OrphanChild())
  {
    var st := Push(EMPTY_STACK, A, {});
    assert Top(st.tab, "a") == Some(Entry(A, {}));
    assert A in OwnUses([FrameOf(OrphanChild())] + [FrameOf(OrphanParent())], OrphanChild());
  }

  lemma OrphanUnbound()
    ensures TagCtx(ORPHAN_CONFIG, EMPTY_STACK, [FrameOf(OrphanParent())], OrphanParent(), map[]) == map[]
  {
    hide RenderAttrs, ElementOk;
    OrphanFine();
    assert [FrameOf(OrphanParent())] == [FrameOf(OrphanParent())] + [];
    OmittedElement(ORPHAN_CONFIG, EMPTY_STACK, [FrameOf(OrphanParent())], OrphanParent());
  }

  /**
    An omitted element with a shown attribute a:x: its namespace is taken as rendered, so the
    child that uses prefix a is written without a declaration, and by ExclusiveNamesIff its name
    does not read back.
   */
  lemma OrphanAttributeLosesDeclaration()
    ensures var doc := Cons(OrphanParent(), Nil);
            && CanonDocument(ORPHAN_CONFIG, doc) == [Attribute("a", "x", "v"), Open("a", "c"), Gt, Close("a", "c")]
            && NodesOk(ORPHAN_CONFIG, doc, []) && !KeepsList(ORPHAN_CONFIG, doc, [], EMPTY_STACK, map[])
  {
    hide CanonDocument, NodesOk, KeepsList;
    OrphanTokens();
    OrphanFine();
    OrphanLoses();
  }
}
