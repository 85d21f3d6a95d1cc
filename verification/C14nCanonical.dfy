/**
  Canonical output is canonical: it does not depend on the order in which namespaces and
  attributes were declared, and canonicalizing a canonical document changes nothing.
 */
module C14nCanonical {
  import opened C14nTree
  import opened C14nSpec
  import opened C14nNamespaces
  import opened C14nRecommendation
  import opened C14nAttributes
  import opened C14nExclusive

  // ----- Well-formed documents and reordered documents -----

  ghost predicate FrameOk(f: Frame) {
    DistinctPrefixes(f.nsDefs) && KeysOk(f.attrs)
  }

  /** No prefix and no attribute name is declared twice by one element. */
  ghost predicate WellFormed(n: Node) {
    n.Element? ==> FrameOk(FrameOf(n)) && AllWellFormed(n.children)
  }

  ghost predicate AllWellFormed(l: NodeList) {
    l.Cons? ==> WellFormed(l.head) && AllWellFormed(l.tail)
  }

  /** The same document, with declarations and attributes of every element in any order. */
  ghost predicate Reordered(a: Node, b: Node) {
    if a.Element? && b.Element? then
      && a.name == b.name && a.ns == b.ns && a.hidden == b.hidden
      && SameFrame(FrameOf(a), FrameOf(b)) && ReorderedLists(a.children, b.children)
    else a == b
  }

  ghost predicate ReorderedLists(a: NodeList, b: NodeList) {
    if a.Nil? || b.Nil? then a == b
    else Reordered(a.head, b.head) && ReorderedLists(a.tail, b.tail)
  }

  ghost predicate ChainOk(c: Chain) {
    forall f :: f in c ==> FrameOk(f)
  }

  lemma {:induction false} SearchPermuted(c: Chain, d: Chain, p: string)
    requires ChainOk(c) && ChainOk(d) && SameChain(c, d)
    ensures Search(c, p) == Search(d, p)
  {
    hide DefIndex, SameFrame, FrameOk;
    if c != [] && p != "xml" {
      hide Search;
      var f, g := c[0], d[0];
      assert f in c && g in d && SameFrame(f, g);
      assert c == [f] + c[1..] && d == [g] + d[1..];
      SearchStep(f, c[1..], p);
      SearchStep(g, d[1..], p);
      SearchPermuted(c[1..], d[1..], p);
      DefPermuted(f, g, p);
    }
  }

  lemma DefPermuted(f: Frame, g: Frame, p: string)
    requires FrameOk(f) && FrameOk(g) && SameFrame(f, g)
    ensures var i, j := DefIndex(f.nsDefs, p), DefIndex(g.nsDefs, p);
            && (i < |f.nsDefs| <==> j < |g.nsDefs|)
            && (i < |f.nsDefs| ==> f.nsDefs[i] == g.nsDefs[j])
  {
    var i, j := DefIndex(f.nsDefs, p), DefIndex(g.nsDefs, p);
    if i < |f.nsDefs| {
      PermutedMembers(f.nsDefs, g.nsDefs, f.nsDefs[i]);
      assert j < |g.nsDefs|;
      if f.nsDefs[i] != g.nsDefs[j] { DistinctMembers(g.nsDefs, f.nsDefs[i], g.nsDefs[j]); }
    } else if j < |g.nsDefs| {
      PermutedMembers(f.nsDefs, g.nsDefs, g.nsDefs[j]);
    }
  }

  lemma AxisPermuted(c: Chain, d: Chain, hidden: set<string>)
    requires ChainOk(c) && ChainOk(d) && SameChain(c, d)
    ensures forall ns :: ns in Axis(c, hidden) <==> ns in Axis(d, hidden)
  {
    AxisMembers(c, hidden);
    AxisMembers(d, hidden);
    forall ns ensures ns in Axis(c, hidden) <==> ns in Axis(d, hidden) {
      SearchPermuted(c, d, ns.prefix);
    }
  }

  // ----- Inclusive mode -----

  /** Stacks that answer every lookup alike. */
  ghost predicate Alike(s: Stack, t: Stack) {
    && WindowOk(s) && WindowOk(t) && s.prevEnd == |s.tab| && t.prevEnd == |t.tab|
    && (forall p :: Top(s.tab[s.prevStart..], p) == Top(t.tab[t.prevStart..], p))
    && Top(s.tab, "") == Top(t.tab, "")
  }

  lemma FindAlike(s: Stack, t: Stack, ns: Ns)
    requires Alike(s, t)
    ensures Find(s, ns) == Find(t, ns)
  {
    assert s.tab[0..] == s.tab && t.tab[0..] == t.tab;
  }

  lemma TopAlike(s: seq<Entry>, t: seq<Entry>, a: seq<Ns>, b: seq<Ns>, hidden: set<string>, p: string)
    requires DistinctPrefixes(a) && DistinctPrefixes(b) && (forall ns :: ns in a <==> ns in b)
    requires Top(s, p) == Top(t, p)
    ensures Top(s + Entries(a, hidden), p) == Top(t + Entries(b, hidden), p)
  {
    TopEntries(s, a, hidden, p);
    TopEntries(t, b, hidden, p);
    if ns :| ns in a && ns.prefix == p {
      assert ns in b;
    }
  }

  lemma AxisAlike(s: Stack, t: Stack, c: Chain, d: Chain, hidden: set<string>, visible: bool)
    requires Alike(s, t) && ChainOk(c) && ChainOk(d) && SameChain(c, d)
    ensures InclusiveAxis(s, c, hidden, visible).list == InclusiveAxis(t, d, hidden, visible).list
  {
    AxisPermuted(c, d, hidden);
    InclusiveEffect(s, c, hidden, visible);
    InclusiveEffect(t, d, hidden, visible);
    var l, m := InclusiveAxis(s, c, hidden, visible).list, InclusiveAxis(t, d, hidden, visible).list;
    assert HasDefault(Axis(c, hidden)) <==> HasDefault(Axis(d, hidden));
    forall ns ensures ns in l <==> ns in m { FindAlike(s, t, ns); }
    SameSorted(l, m);
  }

  lemma BelowAlike(s: Stack, t: Stack, c: Chain, d: Chain, hidden: set<string>)
    requires Alike(s, t) && ChainOk(c) && ChainOk(d) && SameChain(c, d)
    ensures Alike(Shift(InclusiveAxis(s, c, hidden, true).st), Shift(InclusiveAxis(t, d, hidden, true).st))
  {
    hide Axis, Top, Render;
    AxisPermuted(c, d, hidden);
    AxisMembers(c, hidden);
    AxisMembers(d, hidden);
    InclusiveEffect(s, c, hidden, true);
    InclusiveEffect(t, d, hidden, true);
    var a, b := Axis(c, hidden), Axis(d, hidden);
    var s', t' := Shift(InclusiveAxis(s, c, hidden, true).st), Shift(InclusiveAxis(t, d, hidden, true).st);
    assert s'.tab[s'.prevStart..] == [] + Entries(a, hidden);
    assert t'.tab[t'.prevStart..] == [] + Entries(b, hidden);
    forall p ensures Top(s'.tab[s'.prevStart..], p) == Top(t'.tab[t'.prevStart..], p) {
      TopAlike([], [], a, b, hidden, p);
    }
    TopAlike(s.tab, t.tab, a, b, hidden, "");
  }

  lemma SameChainStep(a: Frame, b: Frame, c: Chain, d: Chain)
    requires SameFrame(a, b) && SameChain(c, d) && FrameOk(a) && FrameOk(b) && ChainOk(c) && ChainOk(d)
    ensures SameChain([a] + c, [b] + d) && ChainOk([a] + c) && ChainOk([b] + d)
  {
  }

  lemma InclusiveAlike(cfg: Config, a: Node, b: Node, c: Chain, d: Chain, s: Stack, t: Stack)
    requires !cfg.exclusive && a.Element? && b.Element? && a.visible == b.visible && a.hidden == b.hidden
    requires SameChain(c, d) && ChainOk(c) && ChainOk(d) && Alike(s, t)
    ensures NamespaceAxis(cfg, s, c, a).list == NamespaceAxis(cfg, t, d, b).list
    ensures Alike(StackBelow(cfg, s, c, a), StackBelow(cfg, t, d, b))
  {
    AxisAlike(s, t, c, d, a.hidden, a.visible);
    if a.visible {
      BelowAlike(s, t, c, d, a.hidden);
    } else {
      InclusiveEffect(s, c, a.hidden, false);
      InclusiveEffect(t, d, a.hidden, false);
    }
  }

  // ----- Exclusive mode -----

  /** Entries pushed by one element, with these hidden prefixes, for these namespaces. */
  ghost predicate Covers(own: seq<Entry>, done: set<Ns>, hidden: set<string>) {
    && (forall ns :: ns in done ==> Top(own, ns.prefix).Some?)
    && (forall e :: e in own ==> e.ns in done && e.hidden == hidden)
  }

  ghost predicate OneEach(done: set<Ns>) {
    forall x, y :: x in done && y in done && x.prefix == y.prefix ==> x == y
  }

  lemma TopCovered(a: seq<Entry>, b: seq<Entry>, done: set<Ns>, hidden: set<string>, p: string)
    requires Covers(a, done, hidden) && Covers(b, done, hidden) && OneEach(done)
    ensures Top(a, p) == Top(b, p)
  {
    hide Top;
    if Top(a, p).Some? { assert Top(a, p).value.ns in done; }
    if Top(b, p).Some? { assert Top(b, p).value.ns in done; }
  }

  ghost predicate SameTops(a: seq<Entry>, b: seq<Entry>) {
    forall p :: Top(a, p) == Top(b, p)
  }

  /** Stacks that answer every lookup alike, now and after the next visible element. */
  ghost predicate AlikeAll(s: Stack, t: Stack) {
    && WindowOk(s) && WindowOk(t) && SameTops(s.tab, t.tab)
    && SameTops(s.tab[s.prevStart..], t.tab[t.prevStart..]) && SameTops(s.tab[s.prevEnd..], t.tab[t.prevEnd..])
  }

  lemma TopsAppend(a: seq<Entry>, b: seq<Entry>, x: seq<Entry>, y: seq<Entry>)
    requires SameTops(a, b) && SameTops(x, y)
    ensures SameTops(a + x, b + y)
  {
    hide Top;
    forall p ensures Top(a + x, p) == Top(b + y, p) {
      TopSplit(a, x, p);
      TopSplit(b, y, p);
    }
  }

  lemma PushedAlike(s: Stack, t: Stack, s': Stack, t': Stack, done: set<Ns>, hidden: set<string>)
    requires AlikeAll(s, t) && Extends(s, s') && Extends(t, t') && OneEach(done)
    requires Covers(Own(s, s'), done, hidden) && Covers(Own(t, t'), done, hidden)
    ensures AlikeAll(s', t') && AlikeAll(Shift(s'), Shift(t'))
  {
    hide SameTops, Covers, Top;
    var x, y := Own(s, s'), Own(t, t');
    TopsCovered(x, y, done, hidden);
    assert s'.tab == s.tab + x && t'.tab == t.tab + y;
    assert s'.tab[s.prevStart..] == s.tab[s.prevStart..] + x && t'.tab[t.prevStart..] == t.tab[t.prevStart..] + y;
    assert s'.tab[s.prevEnd..] == s.tab[s.prevEnd..] + x && t'.tab[t.prevEnd..] == t.tab[t.prevEnd..] + y;
    TopsAppend(s.tab, t.tab, x, y);
    TopsAppend(s.tab[s.prevStart..], t.tab[t.prevStart..], x, y);
    TopsAppend(s.tab[s.prevEnd..], t.tab[t.prevEnd..], x, y);
    NoTops(s'.tab[|s'.tab|..], t'.tab[|t'.tab|..]);
  }

  lemma NoTops(x: seq<Entry>, y: seq<Entry>)
    requires x == [] && y == []
    ensures SameTops(x, y)
  {
  }

  lemma TopsCovered(x: seq<Entry>, y: seq<Entry>, done: set<Ns>, hidden: set<string>)
    requires Covers(x, done, hidden) && Covers(y, done, hidden) && OneEach(done)
    ensures SameTops(x, y)
  {
    hide Top, Covers;
    forall p ensures Top(x, p) == Top(y, p) { TopCovered(x, y, done, hidden, p); }
  }

  lemma {:induction false} ListedPermuted(c: Chain, d: Chain, prefixes: seq<string>, hidden: set<string>)
    requires SameChain(c, d) && ChainOk(c) && ChainOk(d)
    ensures ListedNs(c, prefixes, hidden) == ListedNs(d, prefixes, hidden)
  {
    hide Search;
    if prefixes != [] {
      SearchPermuted(c, d, InclusiveName(prefixes[0]));
      ListedPermuted(c, d, prefixes[1..], hidden);
    }
  }

  lemma AskedPermuted(c: Chain, d: Chain, prefixes: seq<string>, hidden: set<string>)
    requires SameChain(c, d) && ChainOk(c) && ChainOk(d)
    ensures forall ns :: ns in AskedFor(Axis(c, hidden), prefixes) <==> ns in AskedFor(Axis(d, hidden), prefixes)
    ensures AskedFor(Axis(c, hidden), prefixes) == [] <==> AskedFor(Axis(d, hidden), prefixes) == []
  {
    hide Axis, AskedFor, ListedNs;
    ListedPermuted(c, d, prefixes, hidden);
    ListedAsked(c, prefixes, hidden);
    ListedAsked(d, prefixes, hidden);
  }

  lemma AttrUsesPermuted(a: seq<Attr>, b: seq<Attr>)
    requires multiset(a) == multiset(b)
    ensures forall ns :: ns in AttrUses(a) <==> ns in AttrUses(b)
  {
    AttrUsesMembers(a);
    AttrUsesMembers(b);
    forall x ensures x in a <==> x in b { PermutedMembers(a, b, x); }
  }

  /** Elements that differ in the order of their declarations and attributes only. */
  ghost predicate Twins(a: Node, b: Node, c: Chain, d: Chain) {
    && a.Element? && b.Element? && a.ns == b.ns && a.visible == b.visible && a.hidden == b.hidden
    && multiset(a.attrs) == multiset(b.attrs) && SameChain(c, d) && ChainOk(c) && ChainOk(d)
  }

  lemma UsesPermuted(cfg: Config, a: Node, b: Node, c: Chain, d: Chain)
    requires Twins(a, b, c, d)
    ensures Members(Uses(c, cfg.inclusivePrefixes, a)) == Members(Uses(d, cfg.inclusivePrefixes, b))
    ensures ListedSet(cfg, c) == ListedSet(cfg, d)
  {
    hide AttrUses, AskedFor, Axis, NameUse, Search;
    AskedPermuted(c, d, cfg.inclusivePrefixes, {});
    SearchPermuted(c, d, "");
    AttrUsesPermuted(a.attrs, b.attrs);
    assert forall ns :: ns in Uses(c, cfg.inclusivePrefixes, a) <==> ns in Uses(d, cfg.inclusivePrefixes, b);
  }

  lemma ElementOkPermuted(cfg: Config, a: Node, b: Node, c: Chain, d: Chain)
    requires Twins(a, b, c, d) && ElementOk(cfg, c, a)
    ensures ElementOk(cfg, d, b)
  {
    hide AskedFor, Axis, Search, Uses;
    UsesPermuted(cfg, a, b, c, d);
    AskedPermuted(c, d, cfg.inclusivePrefixes, a.hidden);
    SearchPermuted(c, d, "");
    if a.ns.Some? { SearchPermuted(c, d, a.ns.value.prefix); }
    forall x | x in b.attrs && x.ns.Some?
      ensures x in a.attrs && Search(c, x.ns.value.prefix) == Search(d, x.ns.value.prefix)
    {
      PermutedMembers(a.attrs, b.attrs, x);
      SearchPermuted(c, d, x.ns.value.prefix);
    }
    forall ns | ns in Uses(d, cfg.inclusivePrefixes, b) ensures ns in Uses(c, cfg.inclusivePrefixes, a) {
      assert ns in Members(Uses(d, cfg.inclusivePrefixes, b));
    }
  }

  lemma FoundAlike(s: Stack, t: Stack, listed: set<Ns>, ns: Ns)
    requires AlikeAll(s, t)
    ensures Found(s, listed, ns) == Found(t, listed, ns)
  {
    hide Top;
    assert s.tab[0..] == s.tab && t.tab[0..] == t.tab;
  }

  lemma MissingAlike(s: Stack, t: Stack, l: seq<Ns>, m: seq<Ns>, done: set<Ns>, listed: set<Ns>)
    requires AlikeAll(s, t) && WindowOk(s) && WindowOk(t)
    requires ListsMissing(l, done, s, listed) && ListsMissing(m, done, t, listed)
    ensures l == m
  {
    hide Found, AlikeAll;
    forall ns ensures ns in l <==> ns in m {
      FoundAlike(s, t, listed, ns);
    }
    SameSorted(l, m);
  }

  lemma TwinsShape(a: Node, b: Node, c: Chain, d: Chain)
    requires Twins(a, b, c, d)
    ensures a.Element? && b.Element? && a.visible == b.visible && a.hidden == b.hidden
  {
  }

  /** What is left over after an element was looked at. */
  lemma LookedCovers(st: Stack, out: AxisOut, done: set<Ns>, chain: Chain, hidden: set<string>, listed: set<Ns>)
    requires WindowOk(st) && Looked(st, out, done, chain, hidden, listed)
    ensures Extends(st, out.st) && OneEach(done) && Covers(Own(st, out.st), done, hidden)
    ensures ListsMissing(out.list, done, st, listed)
  {
    hide ListsMissing, Top;
  }

  lemma VisibleAlike(cfg: Config, a: Node, b: Node, c: Chain, d: Chain, s: Stack, t: Stack)
    requires Twins(a, b, c, d) && a.visible && ElementOk(cfg, c, a) && AlikeAll(s, t) && Scoped(s.tab, c)
             && Scoped(t.tab, d)
    ensures var x := ExclusiveAxis(s, c, cfg.inclusivePrefixes, a.ns, a.attrs, a.hidden, true);
            var y := ExclusiveAxis(t, d, cfg.inclusivePrefixes, b.ns, b.attrs, b.hidden, true);
            x.list == y.list && AlikeAll(Shift(x.st), Shift(y.st))
  {
    hide ExclusiveAxis, Uses, ElementOk, Scoped, Search, Found, ListedSet, Top, ListsMissing, Members, Covers, Twins,
      Looked, OwnIs, OneEach, Extends, SameTops;
    TwinsShape(a, b, c, d);
    ElementOkPermuted(cfg, a, b, c, d);
    UsesPermuted(cfg, a, b, c, d);
    VisibleElement(cfg, s, c, a);
    VisibleElement(cfg, t, d, b);
    var x := ExclusiveAxis(s, c, cfg.inclusivePrefixes, a.ns, a.attrs, a.hidden, true);
    var y := ExclusiveAxis(t, d, cfg.inclusivePrefixes, b.ns, b.attrs, b.hidden, true);
    LookedCovers(s, x, Members(Uses(c, cfg.inclusivePrefixes, a)), c, a.hidden, ListedSet(cfg, c));
    LookedCovers(t, y, Members(Uses(d, cfg.inclusivePrefixes, b)), d, b.hidden, ListedSet(cfg, d));
    MissingAlike(s, t, x.list, y.list, Members(Uses(c, cfg.inclusivePrefixes, a)), ListedSet(cfg, c));
    PushedAlike(s, t, x.st, y.st, Members(Uses(c, cfg.inclusivePrefixes, a)), a.hidden);
  }

  lemma {:induction false} EntriesCover(uses: seq<Ns>, hidden: set<string>)
    ensures Covers(Entries(uses, hidden), Members(uses), hidden)
  {
    if uses != [] {
      var own, rest := Entries(uses, hidden), Entries(uses[1..], hidden);
      EntriesCover(uses[1..], hidden);
      assert uses == [uses[0]] + uses[1..];
      assert own == [Entry(uses[0], hidden)] + rest;
      assert own[0] in own;
      forall ns | ns in Members(uses) ensures Top(own, ns.prefix).Some? {
        TopSplit([Entry(uses[0], hidden)], rest, ns.prefix);
      }
    }
  }

  /** What an omitted element pushes, and that it writes nothing. */
  lemma OmittedOwn(cfg: Config, e: Node, chain: Chain, st: Stack)
    requires e.Element? && !e.visible && ElementOk(cfg, chain, e) && WindowOk(st) && Scoped(st.tab, chain)
    ensures var out := ExclusiveAxis(st, chain, cfg.inclusivePrefixes, e.ns, e.attrs, e.hidden, false);
            && out.list == [] && Extends(st, out.st)
            && Own(st, out.st) == Entries(AttrUses(e.attrs), e.hidden)
  {
    OmittedElement(cfg, st, chain, e);
    ListedAsked(chain, cfg.inclusivePrefixes, e.hidden);
    hide Search, RenderAttrs, Scoped, Top, ElementOk, ListedNs, NameNs;
    OmittedPushes(e.attrs, AxisOut(st, []), e.hidden);
  }

  lemma OmittedAlike(cfg: Config, a: Node, b: Node, c: Chain, d: Chain, s: Stack, t: Stack)
    requires Twins(a, b, c, d) && !a.visible && ElementOk(cfg, c, a) && AlikeAll(s, t) && Scoped(s.tab, c)
             && Scoped(t.tab, d)
    ensures var x := ExclusiveAxis(s, c, cfg.inclusivePrefixes, a.ns, a.attrs, a.hidden, false);
            var y := ExclusiveAxis(t, d, cfg.inclusivePrefixes, b.ns, b.attrs, b.hidden, false);
            x.list == y.list && AlikeAll(x.st, y.st)
  {
    ElementOkPermuted(cfg, a, b, c, d);
    hide Search, AlikeAll, RenderAttrs, Scoped, Top, ExclusiveAxis, Own, Covers, ElementOk;
    OmittedOwn(cfg, a, c, s);
    OmittedOwn(cfg, b, d, t);
    AttrUsesPermuted(a.attrs, b.attrs);
    AttrUsesMembers(a.attrs);
    EntriesCover(AttrUses(a.attrs), a.hidden);
    EntriesCover(AttrUses(b.attrs), b.hidden);
    assert Members(AttrUses(a.attrs)) == Members(AttrUses(b.attrs));
    var x := ExclusiveAxis(s, c, cfg.inclusivePrefixes, a.ns, a.attrs, a.hidden, false);
    var y := ExclusiveAxis(t, d, cfg.inclusivePrefixes, b.ns, b.attrs, b.hidden, false);
    PushedAlike(s, t, x.st, y.st, Members(AttrUses(a.attrs)), a.hidden);
  }

  // ----- Whole documents -----

  /** Two runs that have come to the same place. */
  ghost predicate SameSoFar(cfg: Config, s: Stack, t: Stack, c: Chain, d: Chain) {
    && SameChain(c, d) && ChainOk(c) && ChainOk(d)
    && if cfg.exclusive then AlikeAll(s, t) && Scoped(s.tab, c) && Scoped(t.tab, d) else Alike(s, t)
  }

  ghost predicate Comparable(cfg: Config, a: Node, b: Node, c: Chain) {
    Reordered(a, b) && WellFormed(a) && WellFormed(b) && (cfg.exclusive ==> NodeOk(cfg, a, c))
  }

  ghost predicate ComparableLists(cfg: Config, a: NodeList, b: NodeList, c: Chain) {
    ReorderedLists(a, b) && AllWellFormed(a) && AllWellFormed(b) && (cfg.exclusive ==> NodesOk(cfg, a, c))
  }

  lemma ExclusiveAlike(cfg: Config, a: Node, b: Node, c: Chain, d: Chain, s: Stack, t: Stack)
    requires cfg.exclusive && Twins(a, b, c, d) && ElementOk(cfg, c, a) && SameSoFar(cfg, s, t, c, d)
    ensures NamespaceAxis(cfg, s, c, a).list == NamespaceAxis(cfg, t, d, b).list
    ensures SameSoFar(cfg, StackBelow(cfg, s, c, a), StackBelow(cfg, t, d, b), c, d)
  {
    assert WindowOk(s) && WindowOk(t);
    hide ExclusiveAxis, ElementOk, Scoped, AlikeAll, ChainOk, SameChain, NamespaceAxis, StackBelow;
    ElementOkPermuted(cfg, a, b, c, d);
    ScopedStep(cfg, s, c, a);
    ScopedStep(cfg, t, d, b);
    ModeAxis(cfg, s, c, a);
    ModeAxis(cfg, t, d, b);
    if a.visible { VisibleAlike(cfg, a, b, c, d, s, t); } else { OmittedAlike(cfg, a, b, c, d, s, t); }
  }

  lemma ModeAxis(cfg: Config, st: Stack, chain: Chain, e: Node)
    requires cfg.exclusive && e.Element? && WindowOk(st)
    ensures var out := ExclusiveAxis(st, chain, cfg.inclusivePrefixes, e.ns, e.attrs, e.hidden, e.visible);
            && NamespaceAxis(cfg, st, chain, e) == out
            && StackBelow(cfg, st, chain, e) == if e.visible then Shift(out.st) else out.st
  {
  }

  lemma ElementAlike(cfg: Config, a: Node, b: Node, c: Chain, d: Chain, s: Stack, t: Stack)
    requires a.Element? && b.Element? && Comparable(cfg, a, b, c) && SameSoFar(cfg, s, t, c, d)
    ensures var c', d' := [FrameOf(a)] + c, [FrameOf(b)] + d;
            && StartTag(cfg, s, c', a) == StartTag(cfg, t, d', b)
            && SameSoFar(cfg, StackBelow(cfg, s, c', a), StackBelow(cfg, t, d', b), c', d')
  {
    var c', d' := [FrameOf(a)] + c, [FrameOf(b)] + d;
    SameChainStep(FrameOf(a), FrameOf(b), c, d);
    assert c'[1..] == c && d'[1..] == d;
    AttrsAxisPermuted(cfg, a.attrs, b.attrs, c, d, a.visible);
    hide Scoped, ElementOk, AlikeAll, Alike, NamespaceAxis, AttrsAxis, ChainOk, SameChain;
    if cfg.exclusive {
      ScopedBelow(s.tab, c, FrameOf(a));
      ScopedBelow(t.tab, d, FrameOf(b));
      ExclusiveAlike(cfg, a, b, c', d', s, t);
    } else {
      InclusiveAlike(cfg, a, b, c', d', s, t);
    }
  }

  lemma {:induction false} NodeInvariant(cfg: Config, a: Node, b: Node, c: Chain, d: Chain, s: Stack, t: Stack,
                                         pos: Position, atDoc: bool)
    requires Comparable(cfg, a, b, c) && WindowOk(s) && WindowOk(t) && SameSoFar(cfg, s, t, c, d)
    ensures Canon(cfg, a, c, s, pos, atDoc) == Canon(cfg, b, d, t, pos, atDoc)
    decreases a
  {
    hide SameSoFar, StartTag, StackBelow, CanonList, ElementOk;
    if a.Element? && b.Element? {
      ElementAlike(cfg, a, b, c, d, s, t);
      var c', d' := [FrameOf(a)] + c, [FrameOf(b)] + d;
      ListInvariant(cfg, a.children, b.children, c', d', StackBelow(cfg, s, c', a), StackBelow(cfg, t, d', b),
                    if a.visible && atDoc then Inside else pos, atDoc && !a.visible);
    } else {
      assert a == b && !a.Element?;
    }
  }

  lemma {:induction false} ListInvariant(cfg: Config, a: NodeList, b: NodeList, c: Chain, d: Chain, s: Stack, t: Stack,
                                         pos: Position, atDoc: bool)
    requires ComparableLists(cfg, a, b, c) && WindowOk(s) && WindowOk(t) && SameSoFar(cfg, s, t, c, d)
    ensures CanonList(cfg, a, c, s, pos, atDoc) == CanonList(cfg, b, d, t, pos, atDoc)
    decreases a
  {
    hide SameSoFar, Canon, Reordered, WellFormed, NodeOk;
    if a.Cons? {
      NodeInvariant(cfg, a.head, b.head, c, d, s, t, pos, atDoc);
      ListInvariant(cfg, a.tail, b.tail, c, d, s, t, Canon(cfg, a.head, c, s, pos, atDoc).pos, atDoc);
    }
  }

  /**
    Two documents that differ only in the order of namespace declarations and attributes have
    the same canonical form, whatever is visible: always in inclusive mode, and in exclusive
    mode for documents that are namespace-well-formed in the sense of NodesOk, orphaned
    attributes included.
   */
  lemma OrderDoesNotMatter(cfg: Config, a: NodeList, b: NodeList)
    requires ReorderedLists(a, b) && AllWellFormed(a) && AllWellFormed(b) && (cfg.exclusive ==> NodesOk(cfg, a, []))
    ensures CanonDocument(cfg, a) == CanonDocument(cfg, b)
  {
    hide ReorderedLists, AllWellFormed, NodesOk, CanonList;
    ListInvariant(cfg, a, b, [], [], EMPTY_STACK, EMPTY_STACK, Before, true);
  }
}
