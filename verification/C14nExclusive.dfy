/**
  Exclusive canonicalization against the rule of the Recommendation: each used namespace is
  compared with what its prefix means in the output so far. The stack of rendered namespaces,
  searched from the top, gives the same declarations exactly when its answers agree with that.
 */
module C14nExclusive {
  import opened Ordering
  import opened C14nTree
  import opened C14nSpec
  import opened C14nNamespaces
  import opened C14nRecommendation
  import opened C14nTokens
  import opened C14nAttributes
  import opened C14nRules

  // ----- The rule of Exclusive XML Canonicalization 1.0, section 3, without a stack -----

  /** A shown attribute visibly utilizes its namespace. */
  predicate Utilizes(a: Attr) {
    a.visible && a.ns.Some? && a.ns.value != XML_NS
  }

  function AttrUses(attrs: seq<Attr>): seq<Ns> {
    if attrs == [] then []
    else (if Utilizes(attrs[0]) then [attrs[0].ns.value] else []) + AttrUses(attrs[1..])
  }

  /** The namespace of an element's name; without a prefix it is the default one in scope. */
  function OwnNs(chain: Chain, ns: Option<Ns>): Option<Ns> {
    if ns.Some? then ns else Search(chain, "")
  }

  function NameUse(name: Option<Ns>): seq<Ns> {
    if name.Some? && name.value != XML_NS then [name.value] else []
  }

  /** What an inclusive prefix list asks for; "#default" and the empty string stand for the default namespace. */
  predicate AsksFor(prefixes: seq<string>, p: string) {
    if p == "" then "#default" in prefixes || "" in prefixes else p in prefixes && p != "#default"
  }

  function AskedFor(axis: seq<Ns>, prefixes: seq<string>): seq<Ns> {
    if axis == [] then []
    else (if AsksFor(prefixes, axis[0].prefix) then [axis[0]] else []) + AskedFor(axis[1..], prefixes)
  }

  /** Namespace nodes the prefix list asks for, or that an element visibly utilizes. */
  function Uses(chain: Chain, prefixes: seq<string>, e: Node): seq<Ns>
    requires e.Element?
  {
    AskedFor(Axis(chain, {}), prefixes) + NameUse(OwnNs(chain, e.ns)) + AttrUses(e.attrs)
  }

  /** The uses whose prefix means something else in the output so far, in order of prefixes. */
  function Needed(ctx: Ctx, uses: seq<Ns>, list: seq<Ns>): seq<Ns>
    decreases uses
  {
    if uses == [] then list
    else if uses[0] in list || Bound(ctx, uses[0].prefix) == uses[0].href then Needed(ctx, uses[1..], list)
    else Needed(ctx, uses[1..], Insert(list, uses[0], NsBefore))
  }

  // ----- Namespace well-formed elements -----

  ghost predicate UseOk(chain: Chain, ns: Ns) {
    Search(chain, ns.prefix) == Some(ns) && ns.prefix != "xml" && (ns.href == "" ==> ns.prefix == "")
  }

  /** Attributes have the namespace their prefix has in scope; unprefixed ones have none. */
  ghost predicate AttrsOk(chain: Chain, e: Node)
    requires e.Element?
  {
    forall a :: a in e.attrs && a.ns.Some? ==>
      a.ns.value.prefix != "" && Search(chain, a.ns.value.prefix) == a.ns
        && (a.visible && e.visible ==> a.ns.value.prefix !in e.hidden)
  }

  /**
    Names have the namespaces their prefixes have in scope. A visible element shows the
    namespace nodes it uses; an omitted one shows none that the prefix list asks for.
   */
  ghost predicate ElementOk(cfg: Config, chain: Chain, e: Node)
    requires e.Element?
  {
    AttrsOk(chain, e) &&
    if e.visible then
      && NameOk(chain, e.ns) && NsPrefix(e.ns) !in e.hidden
      && (forall ns :: ns in Uses(chain, cfg.inclusivePrefixes, e) ==>
            ns.prefix !in e.hidden && (ns.href == "" ==> ns.prefix == ""))
    else AskedFor(Axis(chain, e.hidden), cfg.inclusivePrefixes) == []
  }

  /**
    The bindings of the inclusive prefix list: the shown namespace nodes in scope whose prefix the
    list asks for.
   */
  lemma {:induction false} ListedMembers(chain: Chain, prefixes: seq<string>, hidden: set<string>)
    ensures forall ns :: ns in ListedNs(chain, prefixes, hidden) <==>
              ns.prefix != "xml" && ns.prefix !in hidden && Search(chain, ns.prefix) == Some(ns)
              && AsksFor(prefixes, ns.prefix)
  {
    hide SearchPos;
    if prefixes != [] {
      ListedMembers(chain, prefixes[1..], hidden);
      assert prefixes == [prefixes[0]] + prefixes[1..];
      forall p: string ensures AsksFor(prefixes, p) <==> p == InclusiveName(prefixes[0]) || AsksFor(prefixes[1..], p) {
      }
    }
  }

  /** The list asks for the default namespace. */
  lemma ListsDefaultIff(prefixes: seq<string>)
    ensures ListsDefault(prefixes) <==> AsksFor(prefixes, "")
  {
  }

  lemma {:induction false} AskedMembers(axis: seq<Ns>, prefixes: seq<string>)
    ensures forall ns :: ns in AskedFor(axis, prefixes) <==> ns in axis && AsksFor(prefixes, ns.prefix)
  {
    if axis != [] {
      AskedMembers(axis[1..], prefixes);
      assert axis == [axis[0]] + axis[1..];
    }
  }

  /** What the canonicalizer takes from the prefix list is what the list asks for. */
  lemma ListedAsked(chain: Chain, prefixes: seq<string>, hidden: set<string>)
    ensures forall ns :: ns in ListedNs(chain, prefixes, hidden) <==> ns in AskedFor(Axis(chain, hidden), prefixes)
    ensures ListedNs(chain, prefixes, hidden) == [] <==> AskedFor(Axis(chain, hidden), prefixes) == []
  {
    hide ListedNs, AskedFor, Axis, Search, AsksFor;
    ListedMembers(chain, prefixes, hidden);
    AxisMembers(chain, hidden);
    AskedMembers(Axis(chain, hidden), prefixes);
    var l, m := ListedNs(chain, prefixes, hidden), AskedFor(Axis(chain, hidden), prefixes);
    assert l != [] ==> l[0] in l;
    assert m != [] ==> m[0] in m;
  }

  lemma ListedOk(chain: Chain, prefixes: seq<string>)
    ensures forall ns :: ns in AskedFor(Axis(chain, {}), prefixes) ==>
              Search(chain, ns.prefix) == Some(ns) && ns.prefix != "xml"
    ensures forall p :: p in prefixes && InclusiveName(p) != "xml" && Search(chain, InclusiveName(p)).Some? ==>
              Search(chain, InclusiveName(p)).value in AskedFor(Axis(chain, {}), prefixes)
  {
    hide AskedFor, Axis, SearchPos;
    AxisMembers(chain, {});
    AskedMembers(Axis(chain, {}), prefixes);
  }

  lemma {:induction false} AttrUsesMembers(attrs: seq<Attr>)
    ensures forall ns :: ns in AttrUses(attrs) <==> exists a :: a in attrs && UsesNs(a) && a.ns.value == ns
  {
    if attrs != [] {
      AttrUsesMembers(attrs[1..]);
      assert attrs == [attrs[0]] + attrs[1..];
    }
  }

  lemma UsesOk(cfg: Config, chain: Chain, e: Node)
    requires e.Element? && e.visible && ElementOk(cfg, chain, e)
    ensures forall ns :: ns in Uses(chain, cfg.inclusivePrefixes, e) ==> UseOk(chain, ns)
  {
    hide Axis, AskedFor, SearchPos;
    ListedOk(chain, cfg.inclusivePrefixes);
    AttrUsesMembers(e.attrs);
  }

  /** Hidden prefixes that are not listed make no difference. */
  lemma {:induction false} ListedShown(chain: Chain, prefixes: seq<string>, hidden: set<string>)
    requires forall ns :: ns in ListedNs(chain, prefixes, {}) ==> ns.prefix !in hidden
    ensures ListedNs(chain, prefixes, hidden) == ListedNs(chain, prefixes, {})
  {
    if prefixes != [] {
      ListedShown(chain, prefixes[1..], hidden);
    }
  }

  ghost predicate AllUsesOk(uses: seq<Ns>, chain: Chain, hidden: set<string>) {
    forall ns :: ns in uses ==> UseOk(chain, ns) && ns.prefix !in hidden
  }

  // ----- The entries of the stack -----

  function Members(l: seq<Ns>): set<Ns> {
    set ns | ns in l
  }

  function TopHref(tab: seq<Entry>, p: string): string {
    match Top(tab, p)
    case Some(e) => e.ns.href
    case None => ""
  }

  lemma {:induction false} TopSplit(a: seq<Entry>, b: seq<Entry>, p: string)
    ensures Top(a + b, p) == if Top(b, p).Some? then Top(b, p) else Top(a, p)
    decreases |b|
  {
    if b == [] {
      assert a + b == a;
    } else {
      var b', e := b[..|b| - 1], b[|b| - 1];
      TopSplit(a, b', p);
      assert a + b == (a + b') + [e] && b == b' + [e];
      TopPush(a + b', e, p);
      TopPush(b', e, p);
    }
  }

  /** Every prefix on the stack is in scope. */
  ghost predicate Scoped(tab: seq<Entry>, chain: Chain) {
    forall e :: e in tab ==> e.ns.prefix != "xml" && Search(chain, e.ns.prefix).Some?
  }

  /** The lookup that comes first for a namespace: listed prefixes are looked up as in inclusive mode. */
  predicate Found(st: Stack, listed: set<Ns>, ns: Ns)
    requires WindowOk(st)
  {
    if ns in listed then Find(st, ns) else ExcFind(st, ns)
  }

  /** What was pushed since the element was entered with the stack `st`. */
  function Own(st: Stack, later: Stack): seq<Entry>
    requires |st.tab| <= |later.tab|
  {
    later.tab[|st.tab|..]
  }

  ghost predicate Extends(st: Stack, later: Stack) {
    && WindowOk(st) && WindowOk(later) && |st.tab| <= |later.tab| && later.tab[..|st.tab|] == st.tab
    && later.prevStart == st.prevStart && later.prevEnd == st.prevEnd
  }

  /** The entries pushed for this element are the namespaces looked at. */
  ghost predicate OwnIs(own: seq<Entry>, done: set<Ns>, chain: Chain, hidden: set<string>) {
    && (forall ns :: ns in done ==> UseOk(chain, ns) && ns.prefix !in hidden && Top(own, ns.prefix).Some?)
    && (forall e :: e in own ==> e.ns in done && e.hidden == hidden)
  }

  /** The list holds, in order, what was looked at and not found at its first lookup. */
  ghost predicate ListsMissing(list: seq<Ns>, done: set<Ns>, st: Stack, listed: set<Ns>)
    requires WindowOk(st)
  {
    Sorted(list, NsBefore) && forall ns :: ns in list <==> ns in done && !Found(st, listed, ns)
  }

  /** Halfway through an element entered with the stack `st`: `done` has been looked at. */
  ghost predicate Looked(st: Stack, out: AxisOut, done: set<Ns>, chain: Chain, hidden: set<string>, listed: set<Ns>) {
    Extends(st, out.st) && OwnIs(Own(st, out.st), done, chain, hidden) && ListsMissing(out.list, done, st, listed)
  }

  lemma InsertDistinct(list: seq<Ns>, ns: Ns)
    requires Sorted(list, NsBefore) && forall x :: x in list ==> x.prefix != ns.prefix
    ensures Sorted(Insert(list, ns, NsBefore), NsBefore)
  {
    SortedDistinct(list);
    var s := (set x | x in list) + {ns};
    forall a, b | a in s && b in s && a != b ensures a.prefix != b.prefix {
      if a in list && b in list { DistinctMembers(list, a, b); }
    }
    NsTotal(s);
    InsertSorted(list, ns, s, NsBefore);
  }

  lemma OwnPush(st: Stack, later: Stack, done: set<Ns>, chain: Chain, hidden: set<string>, ns: Ns)
    requires Extends(st, later) && OwnIs(Own(st, later), done, chain, hidden) && UseOk(chain, ns)
             && ns.prefix !in hidden
    ensures Extends(st, Push(later, ns, hidden)) && OwnIs(Own(st, Push(later, ns, hidden)), done + {ns}, chain, hidden)
  {
    hide OwnIs, UseOk;
    var own := Own(st, later);
    assert Own(st, Push(later, ns, hidden)) == own + [Entry(ns, hidden)];
    assert Push(later, ns, hidden).tab[..|st.tab|] == st.tab;
    OwnMore(own, done, chain, hidden, ns);
  }

  lemma OwnMore(own: seq<Entry>, done: set<Ns>, chain: Chain, hidden: set<string>, ns: Ns)
    requires OwnIs(own, done, chain, hidden) && UseOk(chain, ns) && ns.prefix !in hidden
    ensures OwnIs(own + [Entry(ns, hidden)], done + {ns}, chain, hidden)
  {
    hide Top, UseOk;
    forall x | x in done + {ns} ensures Top(own + [Entry(ns, hidden)], x.prefix).Some? {
      TopPush(own, Entry(ns, hidden), x.prefix);
    }
  }

  lemma ListStep(list: seq<Ns>, done: set<Ns>, st: Stack, listed: set<Ns>, chain: Chain, ns: Ns, found: bool)
    requires WindowOk(st) && ListsMissing(list, done, st, listed) && UseOk(chain, ns)
    requires forall x :: x in done ==> UseOk(chain, x)
    requires found <==> ns in done || Found(st, listed, ns)
    ensures ListsMissing(if found then list else Insert(list, ns, NsBefore), done + {ns}, st, listed)
  {
    hide Found, Search;
    if !found {
      assert forall x :: x in list ==> x in done && x.prefix != ns.prefix;
      InsertDistinct(list, ns);
    }
  }

  /** Looking at one more namespace, pushing it, and listing it when it was not found. */
  lemma LookStep(st: Stack, out: AxisOut, done: set<Ns>, chain: Chain, hidden: set<string>, listed: set<Ns>, ns: Ns,
                 found: bool)
    requires Looked(st, out, done, chain, hidden, listed) && UseOk(chain, ns) && ns.prefix !in hidden
    requires found <==> ns in done || Found(st, listed, ns)
    ensures Looked(st, AxisOut(Push(out.st, ns, hidden), if found then out.list else Insert(out.list, ns, NsBefore)),
                   done + {ns}, chain, hidden, listed)
  {
    hide Found, Search, Top, Insert;
    OwnPush(st, out.st, done, chain, hidden, ns);
    ListStep(out.list, done, st, listed, chain, ns, found);
  }

  /** A lookup sees the element's own entries first, and below them what was there on entry. */
  lemma TopsLooked(st: Stack, later: Stack, p: string)
    requires Extends(st, later)
    ensures var own := Top(Own(st, later), p);
            && Top(later.tab, p) == (if own.Some? then own else Top(st.tab, p))
            && Top(later.tab[later.prevStart..], p) == (if own.Some? then own else Top(st.tab[st.prevStart..], p))
  {
    hide Top;
    var own := Own(st, later);
    assert later.tab == st.tab + own;
    assert later.tab[later.prevStart..] == st.tab[st.prevStart..] + own;
    TopSplit(st.tab, own, p);
    TopSplit(st.tab[st.prevStart..], own, p);
  }

  lemma LookupsLooked(st: Stack, out: AxisOut, done: set<Ns>, chain: Chain, hidden: set<string>, listed: set<Ns>,
                      ns: Ns)
    requires Looked(st, out, done, chain, hidden, listed) && UseOk(chain, ns) && ns.prefix !in hidden
    ensures Find(out.st, ns) == (ns in done || Find(st, ns))
    ensures ExcFind(out.st, ns) == (ns in done || ExcFind(st, ns))
  {
    hide ListsMissing, Search, Found;
    TopsLooked(st, out.st, ns.prefix);
    assert st.tab[0..] == st.tab && out.st.tab[0..] == out.st.tab;
    var own := Top(Own(st, out.st), ns.prefix);
    if own.Some? {
      assert own.value.ns in done && own.value.ns == ns;
    }
  }

  // ----- The three loops -----

  lemma MembersStep(uses: seq<Ns>, done: set<Ns>)
    ensures uses == [] ==> done + Members(uses) == done
    ensures uses != [] ==> done + {uses[0]} + Members(uses[1..]) == done + Members(uses)
  {
    assert uses != [] ==> uses == [uses[0]] + uses[1..];
  }

  lemma {:induction false} ListedLooked(uses: seq<Ns>, st: Stack, out: AxisOut, done: set<Ns>, chain: Chain,
                                        hidden: set<string>, listed: set<Ns>)
    requires Looked(st, out, done, chain, hidden, listed) && AllUsesOk(uses, chain, hidden) && Members(uses) <= listed
    ensures Looked(st, Render(uses, out, hidden, true), done + Members(uses), chain, hidden, listed)
    decreases uses
  {
    hide ListsMissing, OwnIs, UseOk, Find, Insert;
    MembersStep(uses, done);
    if uses != [] {
      assert uses[0] in Members(uses) && forall ns :: ns in uses[1..] ==> ns in uses;
      LookupsLooked(st, out, done, chain, hidden, listed, uses[0]);
      LookStep(st, out, done, chain, hidden, listed, uses[0], Find(out.st, uses[0]));
      ListedLooked(uses[1..], st, RenderOne(uses[0], out, hidden, true), done + {uses[0]}, chain, hidden, listed);
    }
  }

  lemma NameLooked(name: Option<Ns>, st: Stack, out: AxisOut, done: set<Ns>, chain: Chain, hidden: set<string>,
                   listed: set<Ns>)
    requires Looked(st, out, done, chain, hidden, listed) && AllUsesOk(NameUse(name), chain, hidden) && listed <= done
    ensures Looked(st, RenderName(name, out, hidden, true), done + Members(NameUse(name)), chain, hidden, listed)
  {
    hide ListsMissing, OwnIs, UseOk, ExcFind, Insert;
    MembersStep(NameUse(name), done);
    if name.Some? && !IsXmlNs(name.value) {
      var ns := name.value;
      assert NameUse(name) == [ns] && Members([ns]) == {ns};
      LookupsLooked(st, out, done, chain, hidden, listed, ns);
      LookStep(st, out, done, chain, hidden, listed, ns, ExcFind(out.st, ns));
    }
  }

  lemma AttrLooked(a: Attr, st: Stack, out: AxisOut, done: set<Ns>, chain: Chain, hidden: set<string>, listed: set<Ns>)
    requires Looked(st, out, done, chain, hidden, listed) && listed <= done
    requires UsesNs(a) ==> UseOk(chain, a.ns.value) && a.ns.value.prefix !in hidden
    ensures Looked(st, RenderAttr(a, out, hidden, true), if UsesNs(a) then done + {a.ns.value} else done, chain,
                   hidden, listed)
  {
    hide ListsMissing, OwnIs, UseOk, ExcFind, Insert;
    if UsesNs(a) {
      LookupsLooked(st, out, done, chain, hidden, listed, a.ns.value);
      LookStep(st, out, done, chain, hidden, listed, a.ns.value, ExcFind(out.st, a.ns.value));
    }
  }

  lemma AttrUsesCons(attrs: seq<Attr>)
    requires attrs != []
    ensures AttrUses(attrs) == (if UsesNs(attrs[0]) then [attrs[0].ns.value] else []) + AttrUses(attrs[1..])
    ensures UsesNs(attrs[0]) ==> AttrUses(attrs) == [attrs[0].ns.value] + AttrUses(attrs[1..])
    ensures !UsesNs(attrs[0]) ==> AttrUses(attrs) == AttrUses(attrs[1..])
  {
  }

  lemma {:induction false} AttrsLooked(attrs: seq<Attr>, st: Stack, out: AxisOut, done: set<Ns>, chain: Chain,
                                       hidden: set<string>, listed: set<Ns>)
    requires Looked(st, out, done, chain, hidden, listed) && AllUsesOk(AttrUses(attrs), chain, hidden) && listed <= done
    ensures Looked(st, RenderAttrs(attrs, out, hidden, true), done + Members(AttrUses(attrs)), chain, hidden, listed)
    decreases attrs
  {
    hide ListsMissing, OwnIs, UseOk, RenderAttr;
    MembersStep(AttrUses(attrs), done);
    if attrs != [] {
      var a := attrs[0];
      AttrUsesCons(attrs);
      assert forall ns :: ns in AttrUses(attrs[1..]) ==> ns in AttrUses(attrs);
      AttrLooked(a, st, out, done, chain, hidden, listed);
      AttrsLooked(attrs[1..], st, RenderAttr(a, out, hidden, true), if UsesNs(a) then done + {a.ns.value} else done,
                  chain, hidden, listed);
    }
  }

  // ----- One element -----

  lemma {:induction false} NeededMembers(ctx: Ctx, uses: seq<Ns>, list: seq<Ns>, chain: Chain)
    requires Sorted(list, NsBefore)
    requires (forall ns :: ns in list ==> UseOk(chain, ns)) && (forall ns :: ns in uses ==> UseOk(chain, ns))
    ensures var l := Needed(ctx, uses, list);
            Sorted(l, NsBefore) && forall ns ::
              ns in l <==> ns in list || (ns in uses && Bound(ctx, ns.prefix) != ns.href)
    decreases uses
  {
    if uses != [] {
      assert uses == [uses[0]] + uses[1..];
      if uses[0] in list || Bound(ctx, uses[0].prefix) == uses[0].href {
        NeededMembers(ctx, uses[1..], list, chain);
      } else {
        assert UseOk(chain, uses[0]);
        InsertDistinct(list, uses[0]);
        NeededMembers(ctx, uses[1..], Insert(list, uses[0], NsBefore), chain);
      }
    }
  }

  /** The stack and the list before xmlns="" is considered. */
  function AfterLoops(cfg: Config, st: Stack, chain: Chain, e: Node): (r: AxisOut)
    requires e.Element? && WindowOk(st)
    ensures WindowOk(r.st) && r.st.prevStart == st.prevStart && r.st.prevEnd == st.prevEnd
  {
    var out1 := Render(ListedNs(chain, cfg.inclusivePrefixes, e.hidden), AxisOut(st, []), e.hidden, e.visible);
    RenderAttrs(e.attrs, RenderName(NameNs(chain, e.ns), out1, e.hidden, e.visible), e.hidden, e.visible)
  }

  /** The namespaces listed for an element. */
  function ListedSet(cfg: Config, chain: Chain): set<Ns> {
    Members(AskedFor(Axis(chain, {}), cfg.inclusivePrefixes))
  }

  lemma UsesParts(cfg: Config, chain: Chain, e: Node)
    requires e.Element? && e.visible && ElementOk(cfg, chain, e)
    ensures var a, b, c := ListedNs(chain, cfg.inclusivePrefixes, {}), NameUse(NameNs(chain, e.ns)), AttrUses(e.attrs);
            && ListedNs(chain, cfg.inclusivePrefixes, e.hidden) == a
            && AllUsesOk(a, chain, e.hidden) && AllUsesOk(b, chain, e.hidden) && AllUsesOk(c, chain, e.hidden)
            && Members(a) == ListedSet(cfg, chain)
            && {} + Members(a) + Members(b) + Members(c) == Members(Uses(chain, cfg.inclusivePrefixes, e))
  {
    hide Axis, AskedFor, SearchPos, ListedNs;
    UsesOk(cfg, chain, e);
    ListedAsked(chain, cfg.inclusivePrefixes, {});
    var a, b, c := ListedNs(chain, cfg.inclusivePrefixes, {}), NameUse(NameNs(chain, e.ns)), AttrUses(e.attrs);
    assert forall ns :: ns in a || ns in b || ns in c <==> ns in Uses(chain, cfg.inclusivePrefixes, e);
    ListedShown(chain, cfg.inclusivePrefixes, e.hidden);
  }

  lemma LoopsLooked(cfg: Config, st: Stack, chain: Chain, e: Node)
    requires e.Element? && e.visible && ElementOk(cfg, chain, e) && WindowOk(st)
    ensures Looked(st, AfterLoops(cfg, st, chain, e), Members(Uses(chain, cfg.inclusivePrefixes, e)), chain, e.hidden,
                   ListedSet(cfg, chain))
  {
    hide ElementOk, Uses, AllUsesOk, Render, RenderName, RenderAttrs, ListedNs, NameUse, AttrUses;
    UsesParts(cfg, chain, e);
    var a, b := ListedNs(chain, cfg.inclusivePrefixes, {}), NameUse(NameNs(chain, e.ns));
    NothingLooked(st, chain, e.hidden, ListedSet(cfg, chain));
    ListedLooked(a, st, AxisOut(st, []), {}, chain, e.hidden, ListedSet(cfg, chain));
    var out1 := Render(a, AxisOut(st, []), e.hidden, true);
    NameLooked(NameNs(chain, e.ns), st, out1, {} + Members(a), chain, e.hidden, ListedSet(cfg, chain));
    AttrsLooked(e.attrs, st, RenderName(NameNs(chain, e.ns), out1, e.hidden, true), {} + Members(a) + Members(b),
                chain, e.hidden, ListedSet(cfg, chain));
  }

  lemma NothingLooked(st: Stack, chain: Chain, hidden: set<string>, listed: set<Ns>)
    requires WindowOk(st)
    ensures Looked(st, AxisOut(st, []), {}, chain, hidden, listed)
  {
  }

  lemma OwnScoped(st: Stack, later: Stack, done: set<Ns>, chain: Chain, hidden: set<string>)
    requires Extends(st, later) && OwnIs(Own(st, later), done, chain, hidden) && Scoped(st.tab, chain)
    ensures Scoped(later.tab, chain)
  {
    assert later.tab == st.tab + Own(st, later);
  }

  /** A visible element never has to undeclare a default namespace: it is in scope, or on no stack. */
  lemma NoUndeclaration(cfg: Config, st: Stack, chain: Chain, e: Node, out: AxisOut)
    requires e.Element? && e.visible && ElementOk(cfg, chain, e) && WindowOk(st)
    requires out == AfterLoops(cfg, st, chain, e) && Scoped(out.st.tab, chain)
    ensures ExclusiveAxis(st, chain, cfg.inclusivePrefixes, e.ns, e.attrs, e.hidden, true) == out
  {
    hide Render, RenderName, RenderAttrs, Search, Axis, AskedFor, ListedNs, Uses;
    var prefixes := cfg.inclusivePrefixes;
    var found := Search(chain, "");
    UsesParts(cfg, chain, e);
    var listed := ListedNs(chain, prefixes, e.hidden);
    assert !UtilizesEmptyAttr(e.attrs);
    assert out.st.tab[0..] == out.st.tab;
    ListedMembers(chain, prefixes, {});
    ListsDefaultIff(prefixes);
    if ListsDefault(prefixes) && found.Some? { assert found.value in listed; }
    assert [] + out.list == out.list;
  }

  /**
    What a visible element writes, whatever is on the stack: the namespaces it uses that the
    first lookup does not find, in order of their prefixes.
   */
  lemma VisibleElement(cfg: Config, st: Stack, chain: Chain, e: Node)
    requires e.Element? && e.visible && ElementOk(cfg, chain, e) && WindowOk(st) && Scoped(st.tab, chain)
    ensures var out := ExclusiveAxis(st, chain, cfg.inclusivePrefixes, e.ns, e.attrs, e.hidden, true);
            && Looked(st, out, Members(Uses(chain, cfg.inclusivePrefixes, e)), chain, e.hidden, ListedSet(cfg, chain))
            && Scoped(out.st.tab, chain)
  {
    hide ExclusiveAxis, AfterLoops, ElementOk, ListsMissing, Uses, Members, ListedSet, Scoped;
    var out := AfterLoops(cfg, st, chain, e);
    LoopsLooked(cfg, st, chain, e);
    OwnScoped(st, out.st, Members(Uses(chain, cfg.inclusivePrefixes, e)), chain, e.hidden);
    NoUndeclaration(cfg, st, chain, e, out);
  }

  /** The first lookups answer what the output so far says. */
  ghost predicate LookupsAgree(cfg: Config, st: Stack, ctx: Ctx, chain: Chain, e: Node)
    requires e.Element? && WindowOk(st)
  {
    forall ns :: ns in Uses(chain, cfg.inclusivePrefixes, e) ==>
      (Found(st, ListedSet(cfg, chain), ns) <==> Bound(ctx, ns.prefix) == ns.href)
  }

  /**
    The exact condition for one element, whatever is on the stack and in the output: it declares
    what the Recommendation asks for if and only if each first lookup finds exactly the
    namespaces that are already in force.
   */
  lemma DeclaresNeededIff(cfg: Config, st: Stack, ctx: Ctx, chain: Chain, e: Node)
    requires e.Element? && e.visible && ElementOk(cfg, chain, e) && WindowOk(st) && Scoped(st.tab, chain)
    ensures ExclusiveAxis(st, chain, cfg.inclusivePrefixes, e.ns, e.attrs, e.hidden, true).list
              == Needed(ctx, Uses(chain, cfg.inclusivePrefixes, e), [])
            <==> LookupsAgree(cfg, st, ctx, chain, e)
  {
    hide ExclusiveAxis, Needed, Uses, Search, Found, OwnIs;
    var uses := Uses(chain, cfg.inclusivePrefixes, e);
    var list := ExclusiveAxis(st, chain, cfg.inclusivePrefixes, e.ns, e.attrs, e.hidden, true).list;
    VisibleElement(cfg, st, chain, e);
    UsesOk(cfg, chain, e);
    NeededMembers(ctx, uses, [], chain);
    if LookupsAgree(cfg, st, ctx, chain, e) {
      SameSorted(list, Needed(ctx, uses, []));
    } else {
      var ns :| ns in uses && !(Found(st, ListedSet(cfg, chain), ns) <==> Bound(ctx, ns.prefix) == ns.href);
      assert ns in Members(uses);
      assert (ns in list) != (ns in Needed(ctx, uses, []));
    }
  }

  // ----- Omitted elements -----

  lemma {:induction false} OmittedAttrs(attrs: seq<Attr>, out: AxisOut, hidden: set<string>, chain: Chain)
    requires WindowOk(out.st) && Scoped(out.st.tab, chain)
    requires forall a :: a in attrs && UsesNs(a) ==> Search(chain, a.ns.value.prefix) == a.ns
    ensures var r := RenderAttrs(attrs, out, hidden, false);
            r.list == out.list && Scoped(r.st.tab, chain)
    decreases attrs
  {
    hide Search;
    if attrs != [] {
      assert attrs == [attrs[0]] + attrs[1..];
      if UsesNs(attrs[0]) { XmlOnly(chain, attrs[0].ns.value); }
      OmittedAttrs(attrs[1..], RenderAttr(attrs[0], out, hidden, false), hidden, chain);
    }
  }

  lemma XmlOnly(chain: Chain, ns: Ns)
    requires Search(chain, ns.prefix) == Some(ns) && !IsXmlNs(ns)
    ensures ns.prefix != "xml"
  {
  }

  lemma {:induction false} AttrPushes(attrs: seq<Attr>, out: AxisOut, hidden: set<string>, visible: bool)
    requires WindowOk(out.st)
    ensures |RenderAttrs(attrs, out, hidden, visible).st.tab| == |out.st.tab| + |AttrUses(attrs)|
    ensures AttrUses(attrs) == [] ==> RenderAttrs(attrs, out, hidden, visible).st == out.st
    decreases attrs
  {
    if attrs != [] {
      AttrPushes(attrs[1..], RenderAttr(attrs[0], out, hidden, visible), hidden, visible);
    }
  }

  lemma {:induction false} OmittedPushes(attrs: seq<Attr>, out: AxisOut, hidden: set<string>)
    requires WindowOk(out.st)
    ensures RenderAttrs(attrs, out, hidden, false).st == out.st.(tab := out.st.tab + Entries(AttrUses(attrs), hidden))
    decreases attrs
  {
    if attrs == [] {
      assert out.st.tab + [] == out.st.tab;
    } else {
      AttrUsesCons(attrs);
      OmittedPushes(attrs[1..], RenderAttr(attrs[0], out, hidden, false), hidden);
      if UsesNs(attrs[0]) {
        assert out.st.tab + [Entry(attrs[0].ns.value, hidden)] + Entries(AttrUses(attrs[1..]), hidden)
               == out.st.tab + Entries(AttrUses(attrs), hidden);
      }
    }
  }

  /** An omitted element leaves the stack alone exactly when none of its attributes is shown with a namespace. */
  lemma OmittedElementPushes(cfg: Config, st: Stack, chain: Chain, e: Node)
    requires e.Element? && !e.visible && WindowOk(st)
    requires AskedFor(Axis(chain, e.hidden), cfg.inclusivePrefixes) == []
    ensures ExclusiveAxis(st, chain, cfg.inclusivePrefixes, e.ns, e.attrs, e.hidden, false).st == st <==>
            AttrUses(e.attrs) == []
  {
    hide Axis, AskedFor, Search;
    ListedAsked(chain, cfg.inclusivePrefixes, e.hidden);
    AttrPushes(e.attrs, AxisOut(st, []), e.hidden, false);
  }

  /** An omitted element writes no declaration. */
  lemma OmittedElement(cfg: Config, st: Stack, chain: Chain, e: Node)
    requires e.Element? && !e.visible && ElementOk(cfg, chain, e) && WindowOk(st) && Scoped(st.tab, chain)
    ensures var out := ExclusiveAxis(st, chain, cfg.inclusivePrefixes, e.ns, e.attrs, e.hidden, false);
            out.list == [] && Scoped(out.st.tab, chain) && (AttrUses(e.attrs) == [] ==> out.st == st)
  {
    hide Search, Axis, AskedFor;
    ListedAsked(chain, cfg.inclusivePrefixes, e.hidden);
    OmittedAttrs(e.attrs, AxisOut(st, []), e.hidden, chain);
    OmittedElementPushes(cfg, st, chain, e);
  }

  lemma ScopedBelow(tab: seq<Entry>, chain: Chain, frame: Frame)
    requires Scoped(tab, chain)
    ensures Scoped(tab, [frame] + chain)
  {
    hide Search;
    forall e | e in tab ensures Search([frame] + chain, e.ns.prefix).Some? {
      SearchStep(frame, chain, e.ns.prefix);
    }
  }

  lemma ScopedStep(cfg: Config, st: Stack, chain: Chain, e: Node)
    requires cfg.exclusive && e.Element? && ElementOk(cfg, chain, e) && WindowOk(st) && Scoped(st.tab, chain)
    ensures Scoped(StackBelow(cfg, st, chain, e).tab, chain)
    ensures !e.visible ==> NamespaceAxis(cfg, st, chain, e).list == []
  {
    hide ElementOk, ExclusiveAxis, Scoped;
    if e.visible { VisibleElement(cfg, st, chain, e); } else { OmittedElement(cfg, st, chain, e); }
  }

  // ----- Whole documents -----

  ghost predicate NodeOk(cfg: Config, n: Node, chain: Chain)
    decreases n
  {
    n.Element? ==>
      var chain' := [FrameOf(n)] + chain;
      ElementOk(cfg, chain', n) && NodesOk(cfg, n.children, chain')
  }

  ghost predicate NodesOk(cfg: Config, l: NodeList, chain: Chain)
    decreases l
  {
    l.Cons? ==> NodeOk(cfg, l.head, chain) && NodesOk(cfg, l.tail, chain)
  }

  /**
    Exclusive canonical form by the Recommendation: `ctx` is what prefixes mean in the output so
    far, `place` where the node stands.
   */
  function ExcRecommended(cfg: Config, n: Node, chain: Chain, ctx: Ctx, place: Position): seq<Token>
    decreases n
  {
    if !n.Element? then RecommendedLeaf(cfg, n, place)
    else
      var chain' := [FrameOf(n)] + chain;
      var decls := if n.visible then Needed(ctx, Uses(chain', cfg.inclusivePrefixes, n), []) else [];
      ElementTokens(n, decls, RecommendedAttrs(cfg, n.attrs, chain, n.visible),
                    ExcRecommendedList(cfg, n.children, chain', Declare(ctx, decls), Inside))
  }

  function ExcRecommendedList(cfg: Config, l: NodeList, chain: Chain, ctx: Ctx, place: Position): seq<Token>
    decreases l
  {
    match l
    case Nil => []
    case Cons(n, tail) =>
      ExcRecommended(cfg, n, chain, ctx, place) + ExcRecommendedList(cfg, tail, chain, ctx, NextPlace(place, n))
  }

  function ExcRecommendedDocument(cfg: Config, doc: NodeList): seq<Token> {
    ExcRecommendedList(cfg, doc, [], map[], Before)
  }

  /** The lookups agree with the output at every visible element, when the walk gets there. */
  ghost predicate Agree(cfg: Config, n: Node, chain: Chain, st: Stack, ctx: Ctx)
    requires WindowOk(st)
    decreases n
  {
    n.Element? ==>
      var chain' := [FrameOf(n)] + chain;
      var decls := if n.visible then Needed(ctx, Uses(chain', cfg.inclusivePrefixes, n), []) else [];
      && (n.visible ==> LookupsAgree(cfg, st, ctx, chain', n))
      && AgreeList(cfg, n.children, chain', StackBelow(cfg, st, chain', n), Declare(ctx, decls))
  }

  ghost predicate AgreeList(cfg: Config, l: NodeList, chain: Chain, st: Stack, ctx: Ctx)
    requires WindowOk(st)
    decreases l
  {
    l.Cons? ==> Agree(cfg, l.head, chain, st, ctx) && AgreeList(cfg, l.tail, chain, st, ctx)
  }

  /** In exclusive mode the written attributes are always those of the rule. */
  lemma ExcAttrs(cfg: Config, attrs: seq<Attr>, parents: Chain, visible: bool)
    requires cfg.exclusive && KeysOk(attrs)
    ensures AttrsAxis(cfg, attrs, parents, visible) == RecommendedAttrs(cfg, attrs, parents, visible)
  {
    assert AttrsAxis(cfg, attrs, parents, visible) == AttrsAxis(cfg, attrs, [], visible);
    assert RecommendedAttrs(cfg, attrs, parents, visible) == RecommendedAttrs(cfg, attrs, [], visible);
    AttrsCompared(cfg, attrs, [], visible);
  }

  /** One element, given that its content agrees with the rule exactly when `below` says so. */
  lemma ElementIff(cfg: Config, n: Node, chain: Chain, st: Stack, ctx: Ctx, pos: Position, atDoc: bool,
                   below: bool, t: seq<Token>, u: seq<Token>, place: Position)
    requires cfg.exclusive && n.Element? && WindowOk(st) && KeysOk(n.attrs)
    requires var chain' := [FrameOf(n)] + chain;
             ElementOk(cfg, chain', n) && Scoped(st.tab, chain')
    requires var chain' := [FrameOf(n)] + chain;
             var decls := if n.visible then Needed(ctx, Uses(chain', cfg.inclusivePrefixes, n), []) else [];
             var pos1, atDoc1 := if n.visible && atDoc then Inside else pos, atDoc && !n.visible;
             var close := Optional(n.visible, Close(NsPrefix(n.ns), n.name));
             Exactly(below, CanonList(cfg, n.children, chain', StackBelow(cfg, st, chain', n), pos1, atDoc1).tokens,
                     ExcRecommendedList(cfg, n.children, chain', Declare(ctx, decls), Inside), close + t, close + u)
    ensures Exactly(below && (n.visible ==> LookupsAgree(cfg, st, ctx, [FrameOf(n)] + chain, n)),
                    Canon(cfg, n, chain, st, pos, atDoc).tokens, ExcRecommended(cfg, n, chain, ctx, place), t, u)
  {
    hide Scoped, ElementOk, NamespaceAxis, Needed, Declare, LookupsAgree, DeclTokens, AttrTokens, AttrsAxis, Uses;
    hide Canon, CanonList, ExcRecommendedList, ElementTokens, RecommendedAttrs, KeysOk;
    var chain' := [FrameOf(n)] + chain;
    var list := NamespaceAxis(cfg, st, chain', n).list;
    var decls := if n.visible then Needed(ctx, Uses(chain', cfg.inclusivePrefixes, n), []) else [];
    var attrs := AttrsAxis(cfg, n.attrs, chain, n.visible);
    var pos1, atDoc1 := if n.visible && atDoc then Inside else pos, atDoc && !n.visible;
    var b := CanonList(cfg, n.children, chain', StackBelow(cfg, st, chain', n), pos1, atDoc1).tokens;
    var c := ExcRecommendedList(cfg, n.children, chain', Declare(ctx, decls), Inside);
    var close := Optional(n.visible, Close(NsPrefix(n.ns), n.name));
    CanonElement(cfg, n, chain, st, pos, atDoc);
    ExcAttrs(cfg, n.attrs, chain, n.visible);
    if n.visible { ListedIff(cfg, st, ctx, chain', n); } else { ScopedStep(cfg, st, chain', n); }
    if ElementTokens(n, list, attrs, b) + t == ElementTokens(n, decls, attrs, c) + u {
      ElementApart(n, list, decls, attrs, b, c, t, u);
      Cancel(close, t, u);
    }
  }

  /** The lookups agree, and nothing outside the shown elements is misplaced. */
  ghost predicate Fine(cfg: Config, n: Node, chain: Chain, st: Stack, ctx: Ctx, atDoc: bool, place: Position,
                       shown: bool)
    requires WindowOk(st)
  {
    Agree(cfg, n, chain, st, ctx) && !(atDoc && Misplaced(cfg, n, place, shown))
  }

  ghost predicate FineList(cfg: Config, l: NodeList, chain: Chain, st: Stack, ctx: Ctx, atDoc: bool, place: Position,
                           shown: bool)
    requires WindowOk(st)
  {
    AgreeList(cfg, l, chain, st, ctx) && !(atDoc && MisplacedIn(cfg, l, place, shown))
  }

  lemma {:induction false} NodeIff(cfg: Config, n: Node, chain: Chain, st: Stack, ctx: Ctx, pos: Position, atDoc: bool,
                                   t: seq<Token>, u: seq<Token>, place: Position, shown: bool)
    requires cfg.exclusive && NodeOk(cfg, n, chain) && UniqueAttrs(n) && WindowOk(st) && Scoped(st.tab, chain)
    requires Placed(pos, atDoc, place, shown)
    ensures Exactly(Fine(cfg, n, chain, st, ctx, atDoc, place, shown), Canon(cfg, n, chain, st, pos, atDoc).tokens,
                    ExcRecommended(cfg, n, chain, ctx, place), t, u)
    decreases n
  {
    hide Scoped, ElementOk, NamespaceAxis, Needed, Uses, Declare, LookupsAgree, Canon, CanonList, ExcRecommended,
         ExcRecommendedList, AgreeList, Exactly;
    hide MisplacedIn, KeysOk;
    if n.Element? {
      var chain' := [FrameOf(n)] + chain;
      ScopedBelow(st.tab, chain, FrameOf(n));
      ScopedStep(cfg, st, chain', n);
      var decls := if n.visible then Needed(ctx, Uses(chain', cfg.inclusivePrefixes, n), []) else [];
      var below := StackBelow(cfg, st, chain', n);
      var close := Optional(n.visible, Close(NsPrefix(n.ns), n.name));
      var pos1, atDoc1 := if n.visible && atDoc then Inside else pos, atDoc && !n.visible;
      ListIff(cfg, n.children, chain', below, Declare(ctx, decls), pos1, atDoc1, close + t, close + u, Inside, shown);
      ElementIff(cfg, n, chain, st, ctx, pos, atDoc,
                 FineList(cfg, n.children, chain', below, Declare(ctx, decls), atDoc1, Inside, shown), t, u, place);
    } else {
      LeafIff(cfg, n, chain, st, ctx, pos, atDoc, t, u, place, shown);
    }
  }

  lemma LeafIff(cfg: Config, n: Node, chain: Chain, st: Stack, ctx: Ctx, pos: Position, atDoc: bool,
                t: seq<Token>, u: seq<Token>, place: Position, shown: bool)
    requires !n.Element? && WindowOk(st) && Placed(pos, atDoc, place, shown)
    ensures Exactly(!(atDoc && Misplaced(cfg, n, place, shown)), Canon(cfg, n, chain, st, pos, atDoc).tokens,
                    ExcRecommended(cfg, n, chain, ctx, place), t, u)
  {
    LeafCompared(cfg, n, chain, st, pos, atDoc, place, shown);
    hide Canon, RecommendedLeaf, Misplaced;
    SplitEqual(Canon(cfg, n, chain, st, pos, atDoc).tokens, RecommendedLeaf(cfg, n, place), t, u);
  }

  lemma SplitEqual(c: seq<Token>, r: seq<Token>, t: seq<Token>, u: seq<Token>)
    requires |c| == |r|
    ensures c + t == r + u ==> c == r && t == u
  {
    if c + t == r + u {
      assert (c + t)[..|c|] == c && (r + u)[..|c|] == r && (c + t)[|c|..] == t && (r + u)[|c|..] == u;
    }
  }

  lemma ListedIff(cfg: Config, st: Stack, ctx: Ctx, chain: Chain, e: Node)
    requires cfg.exclusive && e.Element? && e.visible && ElementOk(cfg, chain, e) && WindowOk(st)
             && Scoped(st.tab, chain)
    ensures NamespaceAxis(cfg, st, chain, e).list == Needed(ctx, Uses(chain, cfg.inclusivePrefixes, e), [])
            <==> LookupsAgree(cfg, st, ctx, chain, e)
  {
    hide ElementOk, Scoped, ExclusiveAxis, Needed, LookupsAgree;
    DeclaresNeededIff(cfg, st, ctx, chain, e);
  }

  lemma {:induction false} ListIff(cfg: Config, l: NodeList, chain: Chain, st: Stack, ctx: Ctx, pos: Position,
                                   atDoc: bool,
                                   t: seq<Token>, u: seq<Token>, place: Position, shown: bool)
    requires cfg.exclusive && NodesOk(cfg, l, chain) && UniqueAttrsIn(l) && WindowOk(st) && Scoped(st.tab, chain)
    requires Placed(pos, atDoc, place, shown)
    ensures Exactly(FineList(cfg, l, chain, st, ctx, atDoc, place, shown),
                    CanonList(cfg, l, chain, st, pos, atDoc).tokens,
                    ExcRecommendedList(cfg, l, chain, ctx, place), t, u)
    decreases l
  {
    hide Scoped, NodeOk, UniqueAttrs, Canon, ExcRecommended, Agree, Misplaced, Shows;
    if l.Cons? {
      var a, b := Canon(cfg, l.head, chain, st, pos, atDoc), ExcRecommended(cfg, l.head, chain, ctx, place);
      var place', shown' := NextPlace(place, l.head), shown || Shows(l.head);
      PosAfter(cfg, l.head, chain, st, pos, atDoc);
      var c := CanonList(cfg, l.tail, chain, st, a.pos, atDoc).tokens;
      var d := ExcRecommendedList(cfg, l.tail, chain, ctx, place');
      NodeIff(cfg, l.head, chain, st, ctx, pos, atDoc, c + t, d + u, place, shown);
      ListIff(cfg, l.tail, chain, st, ctx, a.pos, atDoc, t, u, place', shown');
      assert (a.tokens + c) + t == a.tokens + (c + t);
      assert (b + d) + u == b + (d + u);
    } else {
      assert [] + t == t && [] + u == u;
    }
  }

  /**
    The exact condition for a document: exclusive canonicalization writes what the Recommendation
    asks for if and only if at every visible element the first lookups agree with the output, and
    no comment or processing instruction outside the shown elements is misplaced.
   */
  lemma FollowsExclusiveRecommendationIff(cfg: Config, doc: NodeList)
    requires cfg.exclusive && NodesOk(cfg, doc, []) && UniqueAttrsIn(doc)
    ensures CanonDocument(cfg, doc) == ExcRecommendedDocument(cfg, doc)
            <==> AgreeList(cfg, doc, [], EMPTY_STACK, map[]) && !MisplacedIn(cfg, doc, Before, false)
  {
    hide NodesOk, UniqueAttrsIn, CanonList, ExcRecommendedList, AgreeList, MisplacedIn;
    ListIff(cfg, doc, [], EMPTY_STACK, map[], Before, true, [], [], Before, false);
    var c, r := CanonDocument(cfg, doc), ExcRecommendedDocument(cfg, doc);
    assert c + [] == c && r + [] == r;
  }

  // ----- Documents without orphaned attributes -----

  /** Omitted elements have no attribute that is shown with a namespace. */
  ghost predicate NoOrphans(n: Node) {
    n.Element? ==> (n.visible || AttrUses(n.attrs) == []) && NoOrphansIn(n.children)
  }

  ghost predicate NoOrphansIn(l: NodeList) {
    l.Cons? ==> NoOrphans(l.head) && NoOrphansIn(l.tail)
  }

  /** The window of the last visible element knows of listed prefixes what the whole stack knows. */
  ghost predicate ListedInWindow(st: Stack, prefixes: seq<string>)
    requires WindowOk(st)
  {
    forall p :: p in prefixes ==> Top(st.tab[st.prevStart..], InclusiveName(p)) == Top(st.tab, InclusiveName(p))
  }

  ghost predicate SameMeaning(tab: seq<Entry>, ctx: Ctx) {
    forall p :: p != "xml" ==> Bound(ctx, p) == TopHref(tab, p)
  }

  ghost predicate AllShown(tab: seq<Entry>) {
    forall e :: e in tab ==> e.ns.prefix !in e.hidden
  }

  /** The stack says what the output says. */
  ghost predicate Agreement(cfg: Config, st: Stack, ctx: Ctx, chain: Chain) {
    && WindowOk(st) && st.prevEnd == |st.tab| && Scoped(st.tab, chain) && AllShown(st.tab)
    && SameMeaning(st.tab, ctx) && ListedInWindow(st, cfg.inclusivePrefixes)
  }

  lemma ListedNames(chain: Chain, prefixes: seq<string>, ns: Ns)
    requires ns in AskedFor(Axis(chain, {}), prefixes)
    ensures exists p :: p in prefixes && InclusiveName(p) == ns.prefix
  {
    hide Axis, AskedFor;
    AskedMembers(Axis(chain, {}), prefixes);
    var p := if ns.prefix != "" then ns.prefix else if "" in prefixes then "" else "#default";
    assert p in prefixes && InclusiveName(p) == ns.prefix;
  }

  lemma AgreementLooks(cfg: Config, st: Stack, ctx: Ctx, chain: Chain, e: Node)
    requires e.Element? && e.visible && ElementOk(cfg, chain, e) && Agreement(cfg, st, ctx, chain)
    ensures LookupsAgree(cfg, st, ctx, chain, e)
  {
    hide ElementOk, Uses, Search, Scoped;
    UsesOk(cfg, chain, e);
    forall ns | ns in Uses(chain, cfg.inclusivePrefixes, e)
      ensures Found(st, ListedSet(cfg, chain), ns) <==> Bound(ctx, ns.prefix) == ns.href
    {
      assert UseOk(chain, ns) && Bound(ctx, ns.prefix) == TopHref(st.tab, ns.prefix);
      assert st.tab[0..] == st.tab;
      if ns in ListedSet(cfg, chain) { ListedNames(chain, cfg.inclusivePrefixes, ns); }
    }
  }

  /** What a prefix means after the declarations needed for these uses. */
  lemma UseBound(ctx: Ctx, uses: seq<Ns>, chain: Chain, p: string)
    requires (forall ns :: ns in uses ==> UseOk(chain, ns)) && p != "xml"
    ensures var ctx' := Declare(ctx, Needed(ctx, uses, []));
            && (forall ns :: ns in uses && ns.prefix == p ==> Bound(ctx', p) == ns.href)
            && ((forall ns :: ns in uses ==> ns.prefix != p) ==> Bound(ctx', p) == Bound(ctx, p))
  {
    hide Search, Needed, Declare;
    var l := Needed(ctx, uses, []);
    NeededMembers(ctx, uses, [], chain);
    SortedDistinct(l);
    DeclareBound(ctx, l, p);
    forall ns | ns in uses && ns.prefix == p ensures Bound(Declare(ctx, l), p) == ns.href {
      assert forall x :: x in l && x.prefix == p ==> x in uses && UseOk(chain, x) && UseOk(chain, ns) && x == ns;
    }
  }

  lemma MeaningAfter(st: Stack, later: Stack, ctx: Ctx, chain: Chain, uses: seq<Ns>, hidden: set<string>)
    requires Extends(st, later) && OwnIs(Own(st, later), Members(uses), chain, hidden) && SameMeaning(st.tab, ctx)
    ensures SameMeaning(later.tab, Declare(ctx, Needed(ctx, uses, [])))
  {
    hide Top, Search, UseOk, Needed, Declare;
    assert forall ns :: ns in uses ==> ns in Members(uses);
    var ctx' := Declare(ctx, Needed(ctx, uses, []));
    forall p | p != "xml" ensures Bound(ctx', p) == TopHref(later.tab, p) {
      TopsLooked(st, later, p);
      UseBound(ctx, uses, chain, p);
      if Top(Own(st, later), p).Some? {
        assert Top(Own(st, later), p).value.ns in uses;
      }
    }
  }

  lemma WindowAfter(cfg: Config, st: Stack, later: Stack, chain: Chain, uses: seq<Ns>, hidden: set<string>)
    requires Extends(st, later) && OwnIs(Own(st, later), Members(uses), chain, hidden) && Scoped(st.tab, chain)
    requires st.prevEnd == |st.tab| && ListedSet(cfg, chain) <= Members(uses)
    ensures ListedInWindow(Shift(later), cfg.inclusivePrefixes)
  {
    hide UseOk, Search, ListedNs;
    ListedOk(chain, cfg.inclusivePrefixes);
    var st' := Shift(later);
    assert st'.tab[st'.prevStart..] == Own(st, later);
    forall p | p in cfg.inclusivePrefixes
      ensures Top(st'.tab[st'.prevStart..], InclusiveName(p)) == Top(st'.tab, InclusiveName(p))
    {
      var q := InclusiveName(p);
      TopsLooked(st, later, q);
      if Top(st.tab, q).Some? {
        assert Search(chain, q).value in ListedSet(cfg, chain);
      }
    }
  }

  lemma ShownAfter(st: Stack, later: Stack, chain: Chain, done: set<Ns>, hidden: set<string>)
    requires Extends(st, later) && OwnIs(Own(st, later), done, chain, hidden) && AllShown(st.tab)
    ensures AllShown(later.tab)
  {
    assert later.tab == st.tab + Own(st, later);
  }

  lemma ListedUsed(cfg: Config, chain: Chain, e: Node)
    requires e.Element?
    ensures ListedSet(cfg, chain) <= Members(Uses(chain, cfg.inclusivePrefixes, e))
  {
  }

  lemma AgreementVisible(cfg: Config, st: Stack, ctx: Ctx, chain: Chain, e: Node)
    requires e.Element? && e.visible && ElementOk(cfg, chain, e) && Agreement(cfg, st, ctx, chain)
    ensures var out := ExclusiveAxis(st, chain, cfg.inclusivePrefixes, e.ns, e.attrs, e.hidden, true);
            Agreement(cfg, Shift(out.st), Declare(ctx, Needed(ctx, Uses(chain, cfg.inclusivePrefixes, e), [])), chain)
  {
    hide ElementOk, ExclusiveAxis, Uses, ListedSet, OwnIs, ListsMissing, Scoped, AllShown, SameMeaning, ListedInWindow,
         Needed, Declare, Members;
    var uses := Uses(chain, cfg.inclusivePrefixes, e);
    var out := ExclusiveAxis(st, chain, cfg.inclusivePrefixes, e.ns, e.attrs, e.hidden, true);
    VisibleElement(cfg, st, chain, e);
    MeaningAfter(st, out.st, ctx, chain, uses, e.hidden);
    ListedUsed(cfg, chain, e);
    WindowAfter(cfg, st, out.st, chain, uses, e.hidden);
    ShownAfter(st, out.st, chain, Members(uses), e.hidden);
  }

  lemma AgreementStep(cfg: Config, st: Stack, ctx: Ctx, chain: Chain, e: Node)
    requires cfg.exclusive && e.Element? && ElementOk(cfg, chain, e) && Agreement(cfg, st, ctx, chain)
    requires e.visible || AttrUses(e.attrs) == []
    ensures var decls := if e.visible then Needed(ctx, Uses(chain, cfg.inclusivePrefixes, e), []) else [];
            Agreement(cfg, StackBelow(cfg, st, chain, e), Declare(ctx, decls), chain)
  {
    hide ElementOk, ExclusiveAxis, Uses, Needed, Scoped, AllShown, SameMeaning, ListedInWindow;
    if e.visible { AgreementVisible(cfg, st, ctx, chain, e); } else { OmittedElement(cfg, st, chain, e); }
  }

  lemma {:induction false} OrphanlessAgree(cfg: Config, n: Node, chain: Chain, st: Stack, ctx: Ctx)
    requires cfg.exclusive && NodeOk(cfg, n, chain) && NoOrphans(n) && Agreement(cfg, st, ctx, chain)
    ensures Agree(cfg, n, chain, st, ctx)
    decreases n
  {
    assert WindowOk(st);
    hide ElementOk, NamespaceAxis, Agreement, LookupsAgree, Needed, Uses, Declare, AgreeList;
    if n.Element? {
      var chain' := [FrameOf(n)] + chain;
      AgreementBelow(cfg, st, ctx, chain, FrameOf(n));
      if n.visible { AgreementLooks(cfg, st, ctx, chain', n); }
      AgreementStep(cfg, st, ctx, chain', n);
      var decls := if n.visible then Needed(ctx, Uses(chain', cfg.inclusivePrefixes, n), []) else [];
      OrphanlessAgreeList(cfg, n.children, chain', StackBelow(cfg, st, chain', n), Declare(ctx, decls));
    }
  }

  lemma AgreementBelow(cfg: Config, st: Stack, ctx: Ctx, chain: Chain, frame: Frame)
    requires Agreement(cfg, st, ctx, chain)
    ensures Agreement(cfg, st, ctx, [frame] + chain)
  {
    hide Scoped, AllShown, SameMeaning, ListedInWindow;
    ScopedBelow(st.tab, chain, frame);
  }

  lemma {:induction false} OrphanlessAgreeList(cfg: Config, l: NodeList, chain: Chain, st: Stack, ctx: Ctx)
    requires cfg.exclusive && NodesOk(cfg, l, chain) && NoOrphansIn(l) && Agreement(cfg, st, ctx, chain)
    ensures AgreeList(cfg, l, chain, st, ctx)
    decreases l
  {
    hide NodeOk, Agreement, Agree;
    if l.Cons? {
      OrphanlessAgree(cfg, l.head, chain, st, ctx);
      OrphanlessAgreeList(cfg, l.tail, chain, st, ctx);
    }
  }

  lemma StartAgrees(cfg: Config)
    ensures Agreement(cfg, EMPTY_STACK, map[], [])
  {
  }

  /**
    Exclusive canonicalization follows the Recommendation whenever no omitted element has an
    attribute that is shown with a namespace, but for misplaced comments and processing
    instructions: for every inclusive prefix list, a declaration is written exactly for a
    namespace that is listed or visibly utilized and not yet in force.
   */
  lemma FollowsExclusiveRecommendation(cfg: Config, doc: NodeList)
    requires cfg.exclusive && NodesOk(cfg, doc, []) && UniqueAttrsIn(doc) && NoOrphansIn(doc)
    ensures CanonDocument(cfg, doc) == ExcRecommendedDocument(cfg, doc) <==> !MisplacedIn(cfg, doc, Before, false)
  {
    hide CanonDocument, ExcRecommendedDocument, AgreeList, MisplacedIn, NodesOk, UniqueAttrsIn, NoOrphansIn;
    StartAgrees(cfg);
    OrphanlessAgreeList(cfg, doc, [], EMPTY_STACK, map[]);
    FollowsExclusiveRecommendationIff(cfg, doc);
  }
}
