/**
  Exclusive mode, where an element hides a namespace node that its attributes use. The attribute
  loop of xmlExcC14NProcessNamespacesAxis asks whether the attribute is visible, never whether its
  namespace node is, and its own lookups do not find what it has just pushed. So a namespace that
  should not be written at all is written once for every attribute, almost.
 */
module C14nExclusiveHidden {
  import opened Ordering
  import opened C14nTree
  import opened C14nSpec
  import opened C14nNamespaces
  import opened C14nExclusive

  lemma {:induction false} InsertCount(l: seq<Ns>, x: Ns)
    ensures multiset(Insert(l, x, NsBefore)) == multiset(l) + multiset{x}
  {
    if l != [] && NsBefore(l[0], x) {
      InsertCount(l[1..], x);
      assert l == [l[0]] + l[1..];
    }
  }

  /** Namespaces with other prefixes, rendered as in inclusive mode, make no difference. */
  lemma {:induction false} OthersRendered(axis: seq<Ns>, out: AxisOut, hidden: set<string>, ns: Ns)
    requires WindowOk(out.st) && forall x :: x in axis ==> x.prefix != ns.prefix
    ensures var r := Render(axis, out, hidden, true);
            multiset(r.list)[ns] == multiset(out.list)[ns] && ExcFind(r.st, ns) == ExcFind(out.st, ns)
    decreases axis
  {
    hide Find;
    if axis != [] {
      assert axis[0] in axis && forall x :: x in axis[1..] ==> x in axis;
      InsertCount(out.list, axis[0]);
      TopPush(out.st.tab, Entry(axis[0], hidden), ns.prefix);
      OthersRendered(axis[1..], RenderOne(axis[0], out, hidden, true), hidden, ns);
    }
  }

  lemma {:induction false} ListedNotHidden(chain: Chain, prefixes: seq<string>, hidden: set<string>)
    ensures forall ns :: ns in ListedNs(chain, prefixes, hidden) ==> ns.prefix !in hidden
  {
    hide Search;
    if prefixes != [] { ListedNotHidden(chain, prefixes[1..], hidden); }
  }

  /** The attributes with that prefix have that namespace. */
  ghost predicate OneNs(attrs: seq<Attr>, ns: Ns) {
    forall a :: a in attrs && a.ns.Some? && a.ns.value.prefix == ns.prefix ==> a.ns.value == ns
  }

  /** How often a namespace is used by shown attributes. */
  function AttrsWith(attrs: seq<Attr>, ns: Ns): nat {
    multiset(AttrUses(attrs))[ns]
  }

  /** The attribute loop: one declaration for each use, but for a first one that an ancestor's entry answers. */
  lemma {:induction false} HiddenAttrs(attrs: seq<Attr>, out: AxisOut, hidden: set<string>, ns: Ns)
    requires WindowOk(out.st) && ns.prefix in hidden && OneNs(attrs, ns)
    ensures var n := AttrsWith(attrs, ns);
            multiset(RenderAttrs(attrs, out, hidden, true).list)[ns] ==
            multiset(out.list)[ns] + n - (if n > 0 && ExcFind(out.st, ns) then 1 else 0)
    decreases attrs
  {
    if attrs != [] {
      var a := attrs[0];
      assert attrs == [a] + attrs[1..];
      if UsesNs(a) {
        InsertCount(out.list, a.ns.value);
        TopPush(out.st.tab, Entry(a.ns.value, hidden), ns.prefix);
      }
      HiddenAttrs(attrs[1..], RenderAttr(a, out, hidden, true), hidden, ns);
    }
  }

  /** Before the attributes nothing is written for a hidden prefix, but its use in the name is pushed. */
  lemma HiddenName(name: Option<Ns>, out: AxisOut, hidden: set<string>, ns: Ns)
    requires WindowOk(out.st) && ns.prefix in hidden && !IsXmlNs(ns)
    requires name.Some? && name.value.prefix == ns.prefix ==> name.value == ns
    ensures var r := RenderName(name, out, hidden, true);
            multiset(r.list)[ns] == multiset(out.list)[ns]
            && ExcFind(r.st, ns) == (name != Some(ns) && ExcFind(out.st, ns))
  {
    if name.Some? && !IsXmlNs(name.value) {
      InsertCount(out.list, name.value);
      TopPush(out.st.tab, Entry(name.value, hidden), ns.prefix);
    }
  }

  /**
    How often a visible element declares a prefix whose namespace node it hides, whatever is on the
    stack and whatever prefixes are listed: once for each shown attribute that uses it, less one if
    the element's own name does not use it and the lookup finds it. The Recommendation renders no
    namespace node that is not in the node-set, and XML allows no declaration twice.
   */
  lemma HiddenWritten(st: Stack, chain: Chain, prefixes: seq<string>, e: Node, ns: Ns)
    requires e.Element? && WindowOk(st) && ns.prefix in e.hidden && ns.prefix != "" && ns.prefix != "xml"
    requires OneNs(e.attrs, ns) && NameOk(chain, e.ns) && Search(chain, ns.prefix) == Some(ns)
    ensures var n := AttrsWith(e.attrs, ns);
            multiset(ExclusiveAxis(st, chain, prefixes, e.ns, e.attrs, e.hidden, true).list)[ns] ==
            n - (if n > 0 && e.ns != Some(ns) && ExcFind(st, ns) then 1 else 0)
  {
    hide Search, ListedNs, Render, RenderName, RenderAttrs, ExcFind, Find;
    var listed := ListedNs(chain, prefixes, e.hidden);
    var out1 := Render(listed, AxisOut(st, []), e.hidden, true);
    ListedNotHidden(chain, prefixes, e.hidden);
    OthersRendered(listed, AxisOut(st, []), e.hidden, ns);
    var out2 := RenderName(NameNs(chain, e.ns), out1, e.hidden, true);
    NameIs(chain, e.ns, ns);
    HiddenName(NameNs(chain, e.ns), out1, e.hidden, ns);
    HiddenAttrs(e.attrs, out2, e.hidden, ns);
    var out3 := RenderAttrs(e.attrs, out2, e.hidden, true);
    assert multiset([DEFAULT_UNDECLARED] + out3.list)[ns] == multiset(out3.list)[ns];
    assert [] + out3.list == out3.list;
  }

  lemma NameIs(chain: Chain, name: Option<Ns>, ns: Ns)
    requires ns.prefix != "" && NameOk(chain, name) && Search(chain, ns.prefix) == Some(ns)
    ensures var r := NameNs(chain, name);
            (r.Some? && r.value.prefix == ns.prefix ==> r.value == ns) && (r == Some(ns) <==> name == Some(ns))
  {
    hide SearchPos;
  }

  /**
    Nothing of a hidden namespace is written if and only if no shown attribute uses it, or just one
    does while the element's name does not and the namespace is found rendered.
   */
  lemma HiddenKeptIff(st: Stack, chain: Chain, prefixes: seq<string>, e: Node, ns: Ns)
    requires e.Element? && WindowOk(st) && ns.prefix in e.hidden && ns.prefix != "" && ns.prefix != "xml"
    requires OneNs(e.attrs, ns) && NameOk(chain, e.ns) && Search(chain, ns.prefix) == Some(ns)
    ensures ns !in ExclusiveAxis(st, chain, prefixes, e.ns, e.attrs, e.hidden, true).list <==>
            AttrsWith(e.attrs, ns) == 0 || (AttrsWith(e.attrs, ns) == 1 && e.ns != Some(ns) && ExcFind(st, ns))
  {
    hide Search, ExclusiveAxis, ExcFind, AttrsWith;
    HiddenWritten(st, chain, prefixes, e, ns);
    var list := ExclusiveAxis(st, chain, prefixes, e.ns, e.attrs, e.hidden, true).list;
    assert ns in list <==> multiset(list)[ns] > 0;
  }

  // ----- A document whose exclusive canonical form is not XML -----

  const A := Ns("a", "u")
  const X := Attr(Some(A), "x", "1", true)
  const Y := Attr(Some(A), "y", "2", true)
  const HIDER := Element("r", None, [A], [X, Y], Nil, true, {"a"})

  lemma HiderDeclares(chain: Chain)
    requires chain == [FrameOf(HIDER)]
    ensures ExclusiveAxis(EMPTY_STACK, chain, [], None, [X, Y], {"a"}, true).list == [A, A]
  {
    hide Insert, ExcFind;
    var start := AxisOut(EMPTY_STACK, []);
    var one := AxisOut(Push(EMPTY_STACK, A, {"a"}), [A]);
    var two := AxisOut(Push(one.st, A, {"a"}), [A, A]);
    assert Search(chain, "").None? by { assert chain[1..] == [] && [A][1..] == []; }
    NotFound();
    assert RenderAttr(X, start, {"a"}, true) == one;
    assert RenderAttr(Y, one, {"a"}, true) == two;
    assert [X, Y][1..] == [Y] && [Y][1..] == [];
    assert RenderAttrs([], two, {"a"}, true) == two;
    assert RenderAttrs([Y], one, {"a"}, true) == two;
    assert RenderAttrs([X, Y], start, {"a"}, true) == two;
    assert ExcFind(two.st, DEFAULT_UNDECLARED) by { NoDefaultPushed(two.st); }
    assert [] + two.list == two.list;
  }

  lemma NotFound()
    ensures !ExcFind(EMPTY_STACK, A) && !ExcFind(Push(EMPTY_STACK, A, {"a"}), A)
    ensures Insert([], A, NsBefore) == [A] && Insert([A], A, NsBefore) == [A, A]
  {
    assert !NsBefore(A, A) by { assert "a"[1..] == ""; }
    assert [A] + [A] == [A, A];
  }

  lemma NoDefaultPushed(st: Stack)
    requires forall e :: e in st.tab ==> e.ns.prefix != ""
    ensures ExcFind(st, DEFAULT_UNDECLARED)
  {
    assert Top(st.tab, DEFAULT_UNDECLARED.prefix).None?;
  }

  lemma HiderAttributes()
    ensures InsertVisible([], [X, Y]) == [X, Y]
  {
    assert AttrBefore(X, Y) by { assert "x"[0] < "y"[0]; }
    assert [X, Y][1..] == [Y] && [Y][1..] == [];
    assert Insert([], X, AttrBefore) == [X];
    assert [X][1..] == [] && Insert([X], Y, AttrBefore) == [X] + Insert([], Y, AttrBefore) == [X, Y];
    assert InsertVisible([X, Y], []) == [X, Y];
    assert InsertVisible([X], [Y]) == [X, Y];
  }

  /** One element with two attributes of a namespace it hides: its start tag declares the prefix twice. */
  lemma DeclaredTwice()
    ensures CanonDocument(Config(true, [], true), Cons(HIDER, Nil)) ==
            [Open("", "r"), Decl(A), Decl(A), Attribute("a", "x", "1"), Attribute("a", "y", "2"), Gt, Close("", "r")]
  {
    hide ExclusiveAxis, InsertVisible;
    var cfg, chain := Config(true, [], true), [FrameOf(HIDER)];
    assert [FrameOf(HIDER)] + [] == chain;
    HiderDeclares(chain);
    HiderAttributes();
    assert [A, A][1..] == [A] && [X, Y][1..] == [Y];
    assert DeclTokens([A]) == [Decl(A)] + DeclTokens([]);
    assert DeclTokens([A, A]) == [Decl(A)] + DeclTokens([A]);
    assert AttrTokens([Y]) == [Attribute("a", "y", "2")] + AttrTokens([]);
    assert AttrTokens([X, Y]) == [Attribute("a", "x", "1")] + AttrTokens([Y]);
    assert AttrTokens([X, Y]) == [Attribute("a", "x", "1"), Attribute("a", "y", "2")];
    var start := StartTag(cfg, EMPTY_STACK, chain, HIDER);
    assert start == [Open("", "r"), Decl(A), Decl(A), Attribute("a", "x", "1"), Attribute("a", "y", "2"), Gt];
    assert CanonList(cfg, Nil, chain, StackBelow(cfg, EMPTY_STACK, chain, HIDER), Inside, false).tokens == [];
    var out := Canon(cfg, HIDER, [], EMPTY_STACK, Before, true);
    assert out.tokens == start + [] + [Close("", "r")];
    assert CanonList(cfg, Nil, [], EMPTY_STACK, out.pos, true).tokens == [];
    assert out.tokens + [] == out.tokens;
  }

  // ----- An undeclaration that no one asks for -----

  /** Nothing the element makes use of, and nothing the prefix list asks for, is bound to the empty prefix. */
  ghost predicate NoDefaultUsed(chain: Chain, prefixes: seq<string>, ns: Option<Ns>, attrs: seq<Attr>,
                                hidden: set<string>) {
    && ("#default" in prefixes || "" in prefixes ==> Search(chain, "").None? || "" in hidden)
    && (if ns.Some? then ns.value.prefix != "" else Search(chain, "").None?)
    && forall a :: a in attrs && a.ns.Some? && a.visible ==> a.ns.value.prefix != ""
  }

  /** No default namespace comes in or goes out. */
  ghost predicate NoDefaultIn(l: seq<Ns>) {
    forall x :: x in l ==> x.prefix != ""
  }

  lemma {:induction false} RenderNoDefault(axis: seq<Ns>, out: AxisOut, hidden: set<string>, visible: bool)
    requires WindowOk(out.st) && NoDefaultIn(axis) && NoDefaultIn(out.list)
    ensures var r := Render(axis, out, hidden, visible);
            Top(r.st.tab, "") == Top(out.st.tab, "") && NoDefaultIn(r.list)
    decreases axis
  {
    hide Find, Top;
    if axis != [] {
      assert axis[0] in axis && forall x :: x in axis[1..] ==> x in axis;
      TopPush(out.st.tab, Entry(axis[0], hidden), "");
      RenderNoDefault(axis[1..], RenderOne(axis[0], out, hidden, visible), hidden, visible);
    }
  }

  lemma {:induction false} AttrsNoDefault(attrs: seq<Attr>, out: AxisOut, hidden: set<string>, visible: bool)
    requires WindowOk(out.st) && NoDefaultIn(out.list)
    requires forall a :: a in attrs && a.ns.Some? && a.visible ==> a.ns.value.prefix != ""
    ensures var r := RenderAttrs(attrs, out, hidden, visible);
            Top(r.st.tab, "") == Top(out.st.tab, "") && NoDefaultIn(r.list)
    decreases attrs
  {
    hide ExcFind, Top;
    if attrs != [] {
      assert attrs[0] in attrs && forall x :: x in attrs[1..] ==> x in attrs;
      if UsesNs(attrs[0]) { TopPush(out.st.tab, Entry(attrs[0].ns.value, hidden), ""); }
      AttrsNoDefault(attrs[1..], RenderAttr(attrs[0], out, hidden, visible), hidden, visible);
    }
  }

  lemma NameNoDefault(name: Option<Ns>, out: AxisOut, hidden: set<string>, visible: bool)
    requires WindowOk(out.st) && NoDefaultIn(out.list) && (name.Some? ==> name.value.prefix != "")
    ensures var r := RenderName(name, out, hidden, visible);
            Top(r.st.tab, "") == Top(out.st.tab, "") && NoDefaultIn(r.list)
  {
    hide ExcFind, Top;
    if name.Some? { TopPush(out.st.tab, Entry(name.value, hidden), ""); }
  }

  /**
    Where no default namespace is used, xmlns="" is written exactly if one is rendered further out
    that has a URI, or was hidden where it was rendered, and the element has no namespace. But an
    attribute that is not shown undeclares it as well, if its namespace has neither prefix nor
    URI; and where the prefix list asks for the default namespace, the name does not matter.
   */
  lemma UndeclaredIff(st: Stack, chain: Chain, prefixes: seq<string>, ns: Option<Ns>, attrs: seq<Attr>,
                      hidden: set<string>, visible: bool)
    requires WindowOk(st) && NoDefaultUsed(chain, prefixes, ns, attrs, hidden)
    ensures var asked := "#default" in prefixes || "" in prefixes;
            var outer := Top(st.tab, "");
            Ns("", "") in ExclusiveAxis(st, chain, prefixes, ns, attrs, hidden, visible).list <==>
            && visible && outer.Some?
            && (outer.value.ns.href != "" || (!asked && "" in outer.value.hidden))
            && (asked || ns.None? || exists a :: a in attrs && a.ns == Some(Ns("", "")) && !a.visible)
  {
    hide Render, RenderAttrs, RenderName, Top, Search, ListedNs;
    var listed := ListedNs(chain, prefixes, hidden);
    ListedMembers(chain, prefixes, hidden);
    ListsDefaultIff(prefixes);
    assert NoDefaultIn(listed);
    var out1 := Render(listed, AxisOut(st, []), hidden, visible);
    RenderNoDefault(listed, AxisOut(st, []), hidden, visible);
    var name := NameNs(chain, ns);
    var out2 := RenderName(name, out1, hidden, visible);
    NameNoDefault(name, out1, hidden, visible);
    AttrsNoDefault(attrs, out2, hidden, visible);
    var out3 := RenderAttrs(attrs, out2, hidden, visible);
    assert out3.st.tab[0..] == out3.st.tab;
  }

  // ----- Omitted elements and the prefix list -----

  /** Rendered for an omitted element, namespaces are listed where the lookup does not find them, and not pushed. */
  lemma {:induction false} OmittedRender(axis: seq<Ns>, out: AxisOut, hidden: set<string>)
    requires WindowOk(out.st)
    ensures var r := Render(axis, out, hidden, false);
            r.st == out.st && forall x :: x in r.list <==> x in out.list || (x in axis && !Find(out.st, x))
    decreases axis
  {
    hide Find;
    if axis != [] {
      assert axis == [axis[0]] + axis[1..];
      OmittedRender(axis[1..], RenderOne(axis[0], out, hidden, false), hidden);
    }
  }

  lemma {:induction false} OmittedList(attrs: seq<Attr>, out: AxisOut, hidden: set<string>)
    requires WindowOk(out.st)
    ensures RenderAttrs(attrs, out, hidden, false).list == out.list
    decreases attrs
  {
    if attrs != [] { OmittedList(attrs[1..], RenderAttr(attrs[0], out, hidden, false), hidden); }
  }

  /**
    Any omitted element: the namespaces of the prefix list that it shows are written where the
    lookup does not find them, although there is no start tag to write them in, and are not marked
    as rendered; the namespaces of its shown attributes are marked, and not written.
   */
  lemma OmittedElementIs(st: Stack, chain: Chain, prefixes: seq<string>, ns: Option<Ns>, attrs: seq<Attr>,
                         hidden: set<string>)
    requires WindowOk(st)
    ensures var out := ExclusiveAxis(st, chain, prefixes, ns, attrs, hidden, false);
            && (forall x :: x in out.list <==> x in AskedFor(Axis(chain, hidden), prefixes) && !Find(st, x))
            && out.st == st.(tab := st.tab + Entries(AttrUses(attrs), hidden))
  {
    hide Axis, AskedFor, Search, Find, ListedNs, Render, RenderAttrs;
    ListedAsked(chain, prefixes, hidden);
    OmittedRender(ListedNs(chain, prefixes, hidden), AxisOut(st, []), hidden);
    var out := Render(ListedNs(chain, prefixes, hidden), AxisOut(st, []), hidden, false);
    OmittedPushes(attrs, out, hidden);
    OmittedList(attrs, out, hidden);
    assert [] + RenderAttrs(attrs, out, hidden, false).list == RenderAttrs(attrs, out, hidden, false).list;
  }
}
