/**
  The exact conditions for exclusive mode on the source document, without the stack and without
  what is written: how each prefix was last used on the way from the root, and what it means in
  the output if everything that has to be declared is declared.
 */
module C14nExclusiveSource {
  import opened C14nTree
  import opened C14nSpec
  import opened C14nNamespaces
  import opened C14nRules
  import opened C14nExclusive
  import opened C14nExclusiveNames

  // ----- How prefixes were last used -----

  /** The namespace a prefix was used for, and whether the element that used it shows that namespace node. */
  datatype Use = Use(href: string, shown: bool)

  type Last = map<string, Use>

  /**
    Elements that use a prefix are visible ones, in their names, shown attributes and listed
    prefixes, and omitted ones, in their shown attributes.
   */
  function UsesOf(cfg: Config, chain: Chain, e: Node): seq<Ns>
    requires e.Element?
  {
    if e.visible then Uses(chain, cfg.inclusivePrefixes, e) else AttrUses(e.attrs)
  }

  function Used(last: Last, uses: seq<Ns>, hidden: set<string>): Last
    decreases uses
  {
    if uses == [] then last
    else Used(last[uses[0].prefix := Use(uses[0].href, uses[0].prefix !in hidden)], uses[1..], hidden)
  }

  /** A namespace is taken as rendered: the last use of its prefix was for it and, unless it is listed, was shown. */
  predicate Taken(last: Last, listed: set<Ns>, ns: Ns) {
    if ns.prefix in last then last[ns.prefix].href == ns.href && (ns in listed || last[ns.prefix].shown)
    else ns == DEFAULT_UNDECLARED
  }

  /** What prefixes mean when these namespaces are declared, but for those taken as rendered. */
  function InForce(ctx: Ctx, last: Last, listed: set<Ns>, uses: seq<Ns>): Ctx
    decreases uses
  {
    if uses == [] then ctx
    else InForce(if Taken(last, listed, uses[0]) then ctx else ctx[uses[0].prefix := uses[0].href], last, listed,
                 uses[1..])
  }

  /** What prefixes mean when all of these namespaces are in force. */
  function AllInForce(ctx: Ctx, uses: seq<Ns>): Ctx
    decreases uses
  {
    if uses == [] then ctx else AllInForce(ctx[uses[0].prefix := uses[0].href], uses[1..])
  }

  // ----- The two conditions -----

  /** No name is lost: what an element takes as rendered for its name and attributes is in force. */
  ghost predicate NamesKept(cfg: Config, n: Node, chain: Chain, last: Last, ctx: Ctx)
    decreases n
  {
    n.Element? ==>
      var chain' := [FrameOf(n)] + chain;
      var listed := ListedSet(cfg, chain');
      && (n.visible ==>
          forall ns :: ns in OwnUses(chain', n) && Taken(last, listed, ns) ==> Bound(ctx, ns.prefix) == ns.href)
      && NamesKeptIn(cfg, n.children, chain', Used(last, UsesOf(cfg, chain', n), n.hidden),
                     if n.visible then InForce(ctx, last, listed, UsesOf(cfg, chain', n)) else ctx)
  }

  ghost predicate NamesKeptIn(cfg: Config, l: NodeList, chain: Chain, last: Last, ctx: Ctx)
    decreases l
  {
    l.Cons? ==> NamesKept(cfg, l.head, chain, last, ctx) && NamesKeptIn(cfg, l.tail, chain, last, ctx)
  }

  /** Exactly what is in force is taken as rendered. */
  ghost predicate UsesAgree(cfg: Config, n: Node, chain: Chain, last: Last, ctx: Ctx)
    decreases n
  {
    n.Element? ==>
      var chain' := [FrameOf(n)] + chain;
      var listed := ListedSet(cfg, chain');
      && (n.visible ==>
          forall ns :: ns in UsesOf(cfg, chain', n) ==> (Taken(last, listed, ns) <==> Bound(ctx, ns.prefix) == ns.href))
      && UsesAgreeIn(cfg, n.children, chain', Used(last, UsesOf(cfg, chain', n), n.hidden),
                     if n.visible then AllInForce(ctx, UsesOf(cfg, chain', n)) else ctx)
  }

  ghost predicate UsesAgreeIn(cfg: Config, l: NodeList, chain: Chain, last: Last, ctx: Ctx)
    decreases l
  {
    l.Cons? ==> UsesAgree(cfg, l.head, chain, last, ctx) && UsesAgreeIn(cfg, l.tail, chain, last, ctx)
  }

  // ----- The maps and the stack -----

  /** No two of these namespaces have the same prefix. */
  ghost predicate OneMeaning(uses: seq<Ns>) {
    forall x, y :: x in uses && y in uses && x.prefix == y.prefix ==> x == y
  }

  ghost predicate NoUse(uses: seq<Ns>, p: string) {
    forall ns :: ns in uses ==> ns.prefix != p
  }

  lemma {:induction false} UsedAt(last: Last, uses: seq<Ns>, hidden: set<string>, p: string)
    requires OneMeaning(uses)
    ensures forall ns :: ns in uses && ns.prefix == p ==>
              p in Used(last, uses, hidden) && Used(last, uses, hidden)[p] == Use(ns.href, p !in hidden)
    ensures NoUse(uses, p) ==>
            (p in Used(last, uses, hidden) <==> p in last) && (p in last ==> Used(last, uses, hidden)[p] == last[p])
    decreases uses
  {
    if uses != [] {
      assert uses == [uses[0]] + uses[1..];
      assert uses[0] in uses;
      UsedAt(last[uses[0].prefix := Use(uses[0].href, uses[0].prefix !in hidden)], uses[1..], hidden, p);
      if uses[0].prefix == p && !NoUse(uses[1..], p) {
        var x :| x in uses[1..] && x.prefix == p;
        assert x == uses[0];
      }
    }
  }

  lemma {:induction false} InForceAt(ctx: Ctx, last: Last, listed: set<Ns>, uses: seq<Ns>, p: string)
    requires OneMeaning(uses) && p != "xml"
    ensures forall ns :: ns in uses && ns.prefix == p ==>
              Bound(InForce(ctx, last, listed, uses), p) == if Taken(last, listed, ns) then Bound(ctx, p) else ns.href
    ensures NoUse(uses, p) ==> Bound(InForce(ctx, last, listed, uses), p) == Bound(ctx, p)
    decreases uses
  {
    hide Taken;
    if uses != [] {
      assert uses == [uses[0]] + uses[1..];
      assert uses[0] in uses;
      InForceAt(if Taken(last, listed, uses[0]) then ctx else ctx[uses[0].prefix := uses[0].href], last, listed,
                uses[1..], p);
      if uses[0].prefix == p && !NoUse(uses[1..], p) {
        var x :| x in uses[1..] && x.prefix == p;
        assert x == uses[0];
      }
    }
  }

  lemma {:induction false} AllInForceAt(ctx: Ctx, uses: seq<Ns>, p: string)
    requires OneMeaning(uses) && p != "xml"
    ensures forall ns :: ns in uses && ns.prefix == p ==> Bound(AllInForce(ctx, uses), p) == ns.href
    ensures NoUse(uses, p) ==> Bound(AllInForce(ctx, uses), p) == Bound(ctx, p)
    decreases uses
  {
    if uses != [] {
      assert uses == [uses[0]] + uses[1..];
      assert uses[0] in uses;
      AllInForceAt(ctx[uses[0].prefix := uses[0].href], uses[1..], p);
      if uses[0].prefix == p && !NoUse(uses[1..], p) {
        var x :| x in uses[1..] && x.prefix == p;
        assert x == uses[0];
      }
    }
  }

  /** The topmost entry of a prefix is its last use. */
  ghost predicate Remembers(tab: seq<Entry>, last: Last) {
    forall p :: match Top(tab, p)
                case None => p !in last
                case Some(e) => p in last && last[p] == Use(e.ns.href, p !in e.hidden)
  }

  /** The stack remembers the last uses, and of listed prefixes its window does too. */
  ghost predicate Tracks(cfg: Config, st: Stack, last: Last, chain: Chain) {
    WindowOk(st) && Scoped(st.tab, chain) && Remembers(st.tab, last) && ListedInWindow(st, cfg.inclusivePrefixes)
  }

  lemma TakenIs(cfg: Config, st: Stack, last: Last, chain: Chain, ns: Ns)
    requires Tracks(cfg, st, last, chain) && UseOk(chain, ns)
    ensures Found(st, ListedSet(cfg, chain), ns) == Taken(last, ListedSet(cfg, chain), ns)
  {
    hide Scoped, Search, Top;
    assert st.tab[0..] == st.tab;
    if ns in ListedSet(cfg, chain) { ListedNames(chain, cfg.inclusivePrefixes, ns); }
  }

  /** Entries of one element on top: its uses are the last ones. */
  lemma RememberOwn(tab: seq<Entry>, own: seq<Entry>, last: Last, uses: seq<Ns>, hidden: set<string>)
    requires Remembers(tab, last) && OneMeaning(uses)
    requires forall ns :: ns in uses ==> Top(own, ns.prefix).Some?
    requires forall e :: e in own ==> e.ns in uses && e.hidden == hidden
    ensures Remembers(tab + own, Used(last, uses, hidden))
  {
    hide Top;
    var last' := Used(last, uses, hidden);
    forall p
      ensures match Top(tab + own, p)
              case None => p !in last'
              case Some(e) => p in last' && last'[p] == Use(e.ns.href, p !in e.hidden)
    {
      TopSplit(tab, own, p);
      UsedAt(last, uses, hidden, p);
      if Top(own, p).Some? { assert Top(own, p).value.ns in uses; }
    }
  }

  lemma VisibleUses(cfg: Config, chain: Chain, e: Node)
    requires e.Element? && e.visible && ElementOk(cfg, chain, e)
    ensures OneMeaning(Uses(chain, cfg.inclusivePrefixes, e))
  {
    hide Search, ElementOk, Uses;
    UsesOk(cfg, chain, e);
  }

  /** The window after a visible element, whatever omitted elements have pushed before it. */
  lemma WindowTracks(cfg: Config, st: Stack, later: Stack, chain: Chain, uses: seq<Ns>, hidden: set<string>)
    requires Extends(st, later) && OwnIs(Own(st, later), Members(uses), chain, hidden) && Scoped(st.tab, chain)
    requires ListedSet(cfg, chain) <= Members(uses)
    ensures ListedInWindow(Shift(later), cfg.inclusivePrefixes)
  {
    hide UseOk, Search, ListedNs, Top;
    ListedOk(chain, cfg.inclusivePrefixes);
    var st' := Shift(later);
    var own := Own(st, later);
    assert later.tab == st.tab + own;
    assert st'.tab[st'.prevStart..] == st.tab[st.prevEnd..] + own;
    assert st.tab == st.tab[..st.prevEnd] + st.tab[st.prevEnd..];
    forall p | p in cfg.inclusivePrefixes
      ensures Top(st'.tab[st'.prevStart..], InclusiveName(p)) == Top(st'.tab, InclusiveName(p))
    {
      var q := InclusiveName(p);
      TopSplit(st.tab, own, q);
      TopSplit(st.tab[st.prevEnd..], own, q);
      TopSplit(st.tab[..st.prevEnd], st.tab[st.prevEnd..], q);
      if Top(st.tab, q).Some? {
        assert Search(chain, q).value in ListedSet(cfg, chain);
      }
    }
  }

  lemma TracksVisible(cfg: Config, st: Stack, last: Last, chain: Chain, e: Node)
    requires cfg.exclusive && e.Element? && e.visible && ElementOk(cfg, chain, e) && Tracks(cfg, st, last, chain)
    ensures Tracks(cfg, StackBelow(cfg, st, chain, e), Used(last, UsesOf(cfg, chain, e), e.hidden), chain)
  {
    hide ElementOk, ExclusiveAxis, Uses, ListedSet, ListsMissing, Scoped, ListedInWindow, Used, Remembers, UseOk, Top;
    var uses := Uses(chain, cfg.inclusivePrefixes, e);
    VisibleElement(cfg, st, chain, e);
    VisibleUses(cfg, chain, e);
    ListedUsed(cfg, chain, e);
    var out := ExclusiveAxis(st, chain, cfg.inclusivePrefixes, e.ns, e.attrs, e.hidden, true);
    WindowTracks(cfg, st, out.st, chain, uses, e.hidden);
    assert forall ns :: ns in uses ==> ns in Members(uses);
    RememberOwn(st.tab, Own(st, out.st), last, uses, e.hidden);
    assert out.st.tab == st.tab + Own(st, out.st);
  }

  lemma {:induction false} EntriesOf(uses: seq<Ns>, hidden: set<string>)
    ensures forall ns :: ns in uses ==> Top(Entries(uses, hidden), ns.prefix).Some?
    ensures forall e :: e in Entries(uses, hidden) ==> e.ns in uses && e.hidden == hidden
  {
    if uses != [] {
      var own, rest := Entries(uses, hidden), Entries(uses[1..], hidden);
      EntriesOf(uses[1..], hidden);
      assert uses == [uses[0]] + uses[1..];
      assert own == [Entry(uses[0], hidden)] + rest;
      forall ns | ns in uses ensures Top(own, ns.prefix).Some? {
        TopSplit([Entry(uses[0], hidden)], rest, ns.prefix);
        assert [Entry(uses[0], hidden)][0].ns == uses[0];
      }
    }
  }

  lemma OmittedUses(cfg: Config, chain: Chain, e: Node)
    requires e.Element? && !e.visible && ElementOk(cfg, chain, e)
    ensures OneMeaning(AttrUses(e.attrs))
  {
    hide Search;
    AttrUsesMembers(e.attrs);
  }

  lemma WindowKept(st: Stack, own: seq<Entry>, prefixes: seq<string>)
    requires WindowOk(st) && ListedInWindow(st, prefixes)
    ensures ListedInWindow(st.(tab := st.tab + own), prefixes)
  {
    hide Top;
    assert (st.tab + own)[st.prevStart..] == st.tab[st.prevStart..] + own;
    forall p | p in prefixes
      ensures Top((st.tab + own)[st.prevStart..], InclusiveName(p)) == Top(st.tab + own, InclusiveName(p))
    {
      TopSplit(st.tab, own, InclusiveName(p));
      TopSplit(st.tab[st.prevStart..], own, InclusiveName(p));
    }
  }

  lemma OmittedBelow(cfg: Config, st: Stack, chain: Chain, e: Node)
    requires cfg.exclusive && e.Element? && !e.visible && WindowOk(st) && ElementOk(cfg, chain, e)
    ensures StackBelow(cfg, st, chain, e) == st.(tab := st.tab + Entries(AttrUses(e.attrs), e.hidden))
  {
    hide RenderAttrs, Entries, Axis, AskedFor, ListedNs, NameNs;
    ListedAsked(chain, cfg.inclusivePrefixes, e.hidden);
    OmittedPushes(e.attrs, AxisOut(st, []), e.hidden);
  }

  lemma TracksOmitted(cfg: Config, st: Stack, last: Last, chain: Chain, e: Node)
    requires cfg.exclusive && e.Element? && !e.visible && ElementOk(cfg, chain, e) && Tracks(cfg, st, last, chain)
    ensures Tracks(cfg, StackBelow(cfg, st, chain, e), Used(last, UsesOf(cfg, chain, e), e.hidden), chain)
  {
    OmittedBelow(cfg, st, chain, e);
    OmittedUses(cfg, chain, e);
    ScopedStep(cfg, st, chain, e);
    hide ElementOk, StackBelow, Scoped, ListedInWindow, Used, Remembers, Top, Entries;
    var uses := AttrUses(e.attrs);
    EntriesOf(uses, e.hidden);
    WindowKept(st, Entries(uses, e.hidden), cfg.inclusivePrefixes);
    RememberOwn(st.tab, Entries(uses, e.hidden), last, uses, e.hidden);
  }

  lemma TracksStep(cfg: Config, st: Stack, last: Last, chain: Chain, e: Node)
    requires cfg.exclusive && e.Element? && ElementOk(cfg, chain, e) && Tracks(cfg, st, last, chain)
    ensures Tracks(cfg, StackBelow(cfg, st, chain, e), Used(last, UsesOf(cfg, chain, e), e.hidden), chain)
  {
    hide ElementOk, Tracks, StackBelow, Used;
    if e.visible { TracksVisible(cfg, st, last, chain, e); } else { TracksOmitted(cfg, st, last, chain, e); }
  }

  lemma TracksBelow(cfg: Config, st: Stack, last: Last, chain: Chain, frame: Frame)
    requires Tracks(cfg, st, last, chain)
    ensures Tracks(cfg, st, last, [frame] + chain)
  {
    hide Scoped, Remembers, ListedInWindow;
    ScopedBelow(st.tab, chain, frame);
  }

  lemma TracksStart(cfg: Config)
    ensures Tracks(cfg, EMPTY_STACK, map[], [])
  {
  }

  /** Contexts in which prefixes mean the same. */
  ghost predicate SameCtx(a: Ctx, b: Ctx) {
    forall p :: p != "xml" ==> Bound(a, p) == Bound(b, p)
  }

  // ----- Names -----

  lemma InForceIs(cfg: Config, st: Stack, last: Last, chain: Chain, e: Node, ctx: Ctx, ctx': Ctx)
    requires cfg.exclusive && e.Element? && e.visible && chain != [] && ElementOk(cfg, chain, e)
             && Tracks(cfg, st, last, chain)
    requires SameCtx(ctx, ctx')
    ensures SameCtx(TagCtx(cfg, st, chain, e, ctx), InForce(ctx', last, ListedSet(cfg, chain), UsesOf(cfg, chain, e)))
  {
    hide ElementOk, Uses, Found, Taken, TagCtx, InForce, ListedSet, Search;
    var uses, listed := Uses(chain, cfg.inclusivePrefixes, e), ListedSet(cfg, chain);
    VisibleUses(cfg, chain, e);
    UsesOk(cfg, chain, e);
    CtxAfter(cfg, st, ctx, chain, e);
    forall p | p != "xml"
      ensures Bound(TagCtx(cfg, st, chain, e, ctx), p) == Bound(InForce(ctx', last, listed, uses), p)
    {
      InForceAt(ctx', last, listed, uses, p);
      if ns :| ns in uses && ns.prefix == p {
        TakenIs(cfg, st, last, chain, ns);
        UsedAfter(cfg, st, ctx, chain, e, ns);
      }
    }
  }

  lemma OwnTaken(cfg: Config, st: Stack, last: Last, chain: Chain, e: Node, ctx: Ctx, ctx': Ctx)
    requires e.Element? && e.visible && ElementOk(cfg, chain, e) && Tracks(cfg, st, last, chain) && SameCtx(ctx, ctx')
    ensures FoundInForce(cfg, st, ctx, chain, e) <==>
            forall ns :: ns in OwnUses(chain, e) && Taken(last, ListedSet(cfg, chain), ns) ==>
                Bound(ctx', ns.prefix) == ns.href
  {
    hide ElementOk, Found, Taken, ListedSet, Scoped, Remembers, ListedInWindow, Search;
    UsesOk(cfg, chain, e);
    forall ns | ns in OwnUses(chain, e)
      ensures Found(st, ListedSet(cfg, chain), ns) == Taken(last, ListedSet(cfg, chain), ns)
              && Bound(ctx, ns.prefix) == Bound(ctx', ns.prefix)
    {
      assert ns in Uses(chain, cfg.inclusivePrefixes, e) && UseOk(chain, ns);
      TakenIs(cfg, st, last, chain, ns);
    }
  }

  lemma {:induction false} KeptIs(cfg: Config, n: Node, chain: Chain, st: Stack, ctx: Ctx, last: Last, ctx': Ctx)
    requires cfg.exclusive && NodeOk(cfg, n, chain) && WindowOk(st) && Tracks(cfg, st, last, chain)
             && SameCtx(ctx, ctx')
    ensures Keeps(cfg, n, chain, st, ctx) <==> NamesKept(cfg, n, chain, last, ctx')
    decreases n
  {
    hide ElementOk, Tracks, SameCtx, FoundInForce, TagCtx, StackBelow, Used, InForce, Taken, ListedSet, OwnUses,
         UsesOf, KeepsList, NamesKeptIn;
    if n.Element? {
      var chain' := [FrameOf(n)] + chain;
      TracksBelow(cfg, st, last, chain, FrameOf(n));
      TracksStep(cfg, st, last, chain', n);
      if n.visible {
        OwnTaken(cfg, st, last, chain', n, ctx, ctx');
        InForceIs(cfg, st, last, chain', n, ctx, ctx');
      } else {
        OmittedCtx(cfg, st, chain', n, ctx, last);
      }
      KeptInIs(cfg, n.children, chain', StackBelow(cfg, st, chain', n), TagCtx(cfg, st, chain', n, ctx),
               Used(last, UsesOf(cfg, chain', n), n.hidden),
               if n.visible then InForce(ctx', last, ListedSet(cfg, chain'), UsesOf(cfg, chain', n)) else ctx');
    }
  }

  lemma OmittedCtx(cfg: Config, st: Stack, chain: Chain, e: Node, ctx: Ctx, last: Last)
    requires cfg.exclusive && e.Element? && !e.visible && ElementOk(cfg, chain, e) && Tracks(cfg, st, last, chain)
    ensures TagCtx(cfg, st, chain, e, ctx) == ctx
  {
    hide ElementOk, NamespaceAxis;
    ScopedStep(cfg, st, chain, e);
  }

  lemma {:induction false} KeptInIs(cfg: Config, l: NodeList, chain: Chain, st: Stack, ctx: Ctx, last: Last, ctx': Ctx)
    requires cfg.exclusive && NodesOk(cfg, l, chain) && WindowOk(st) && Tracks(cfg, st, last, chain)
             && SameCtx(ctx, ctx')
    ensures KeepsList(cfg, l, chain, st, ctx) <==> NamesKeptIn(cfg, l, chain, last, ctx')
    decreases l
  {
    hide NodeOk, Tracks, SameCtx, Keeps, NamesKept;
    if l.Cons? {
      KeptIs(cfg, l.head, chain, st, ctx, last, ctx');
      KeptInIs(cfg, l.tail, chain, st, ctx, last, ctx');
    }
  }

  /**
    Names on the source document: the tokens of the exclusive canonical form, read by a
    namespace-aware reader, have the elements and attributes of the source in the same namespaces
    if and only if nowhere a name or attribute takes its namespace as rendered, by the last use of
    its prefix, where its prefix is not in force.
   */
  lemma NamesKeptIff(cfg: Config, doc: NodeList)
    requires cfg.exclusive && NodesOk(cfg, doc, [])
    ensures var reading := Read(CanonDocument(cfg, doc), NEW_READER);
            && reading.reader == NEW_READER && AllNamesOk(ScopesOfList(doc, []))
            && (ExpandTags(reading.elements) == SourceNames(cfg, ScopesOfList(doc, []))
                <==> NamesKeptIn(cfg, doc, [], map[], map[]))
  {
    hide NodesOk, CanonDocument, KeepsList, NamesKeptIn, ExpandTags, SourceNames, NamesOk, Tracks;
    TracksStart(cfg);
    ExclusiveNamesIff(cfg, doc);
    KeptInIs(cfg, doc, [], EMPTY_STACK, map[], map[], map[]);
  }

  // ----- The Recommendation -----

  lemma AllInForceIs(cfg: Config, chain: Chain, e: Node, ctx: Ctx, ctx': Ctx)
    requires e.Element? && e.visible && ElementOk(cfg, chain, e) && SameCtx(ctx, ctx')
    ensures SameCtx(Declare(ctx, Needed(ctx, Uses(chain, cfg.inclusivePrefixes, e), [])),
                    AllInForce(ctx', UsesOf(cfg, chain, e)))
  {
    hide ElementOk, Uses, Needed, Declare, AllInForce, Search;
    var uses := Uses(chain, cfg.inclusivePrefixes, e);
    VisibleUses(cfg, chain, e);
    UsesOk(cfg, chain, e);
    forall p | p != "xml" ensures Bound(Declare(ctx, Needed(ctx, uses, [])), p) == Bound(AllInForce(ctx', uses), p) {
      UseBound(ctx, uses, chain, p);
      AllInForceAt(ctx', uses, p);
    }
  }

  lemma AllTaken(cfg: Config, st: Stack, last: Last, chain: Chain, e: Node, ctx: Ctx, ctx': Ctx)
    requires e.Element? && e.visible && ElementOk(cfg, chain, e) && Tracks(cfg, st, last, chain) && SameCtx(ctx, ctx')
    ensures LookupsAgree(cfg, st, ctx, chain, e) <==>
            forall ns :: ns in UsesOf(cfg, chain, e) ==>
                (Taken(last, ListedSet(cfg, chain), ns) <==> Bound(ctx', ns.prefix) == ns.href)
  {
    hide ElementOk, Found, Taken, ListedSet, Scoped, Remembers, ListedInWindow, Search, Uses;
    UsesOk(cfg, chain, e);
    forall ns | ns in Uses(chain, cfg.inclusivePrefixes, e)
      ensures Found(st, ListedSet(cfg, chain), ns) == Taken(last, ListedSet(cfg, chain), ns)
              && Bound(ctx, ns.prefix) == Bound(ctx', ns.prefix)
    {
      TakenIs(cfg, st, last, chain, ns);
    }
  }

  lemma {:induction false} AgreeIs(cfg: Config, n: Node, chain: Chain, st: Stack, ctx: Ctx, last: Last, ctx': Ctx)
    requires cfg.exclusive && NodeOk(cfg, n, chain) && WindowOk(st) && Tracks(cfg, st, last, chain)
             && SameCtx(ctx, ctx')
    ensures Agree(cfg, n, chain, st, ctx) <==> UsesAgree(cfg, n, chain, last, ctx')
    decreases n
  {
    hide ElementOk, Tracks, SameCtx, LookupsAgree, StackBelow, Used, AllInForce, Taken, ListedSet, UsesOf, Uses,
         Needed, Declare, AgreeList, UsesAgreeIn;
    if n.Element? {
      var chain' := [FrameOf(n)] + chain;
      TracksBelow(cfg, st, last, chain, FrameOf(n));
      TracksStep(cfg, st, last, chain', n);
      var decls := if n.visible then Needed(ctx, Uses(chain', cfg.inclusivePrefixes, n), []) else [];
      if n.visible {
        AllTaken(cfg, st, last, chain', n, ctx, ctx');
        AllInForceIs(cfg, chain', n, ctx, ctx');
      } else {
        NothingDeclared(ctx);
      }
      AgreeInIs(cfg, n.children, chain', StackBelow(cfg, st, chain', n), Declare(ctx, decls),
                Used(last, UsesOf(cfg, chain', n), n.hidden),
                if n.visible then AllInForce(ctx', UsesOf(cfg, chain', n)) else ctx');
    }
  }

  lemma NothingDeclared(ctx: Ctx)
    ensures Declare(ctx, []) == ctx
  {
  }

  lemma {:induction false} AgreeInIs(cfg: Config, l: NodeList, chain: Chain, st: Stack, ctx: Ctx, last: Last, ctx': Ctx)
    requires cfg.exclusive && NodesOk(cfg, l, chain) && WindowOk(st) && Tracks(cfg, st, last, chain)
             && SameCtx(ctx, ctx')
    ensures AgreeList(cfg, l, chain, st, ctx) <==> UsesAgreeIn(cfg, l, chain, last, ctx')
    decreases l
  {
    hide NodeOk, Tracks, SameCtx, Agree, UsesAgree;
    if l.Cons? {
      AgreeIs(cfg, l.head, chain, st, ctx, last, ctx');
      AgreeInIs(cfg, l.tail, chain, st, ctx, last, ctx');
    }
  }

  /**
    The Recommendation on the source document: exclusive canonical form is what it asks for if
    and only if everywhere exactly the used namespaces in force are taken as rendered, by the last
    use of their prefixes, and no comment or processing instruction is misplaced.
   */
  lemma ConformsIff(cfg: Config, doc: NodeList)
    requires cfg.exclusive && NodesOk(cfg, doc, []) && UniqueAttrsIn(doc)
    ensures CanonDocument(cfg, doc) == ExcRecommendedDocument(cfg, doc)
            <==> UsesAgreeIn(cfg, doc, [], map[], map[]) && !MisplacedIn(cfg, doc, Before, false)
  {
    hide NodesOk, UniqueAttrsIn, CanonDocument, ExcRecommendedDocument, AgreeList, UsesAgreeIn, MisplacedIn, Tracks;
    TracksStart(cfg);
    FollowsExclusiveRecommendationIff(cfg, doc);
    AgreeInIs(cfg, doc, [], EMPTY_STACK, map[], map[], map[]);
  }
}
