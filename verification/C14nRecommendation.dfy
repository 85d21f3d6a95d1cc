/**
  The namespace rule of Canonical XML 1.0, section 2.3, stated without a stack, and where the
  stack of rendered namespaces follows it.
 */
module C14nRecommendation {
  import opened Ordering
  import opened C14nTree
  import opened C14nSpec
  import opened C14nNamespaces
  import opened C14nTokens

  /** A default namespace node: an empty default is no namespace node at all. */
  predicate NonemptyDefault(l: seq<Ns>) {
    exists ns :: ns in l && ns.prefix == "" && ns.href != ""
  }

  /** The order of section 2.2: namespace nodes by prefix. */
  predicate PrefixLess(a: Ns, b: Ns) {
    LexLess(a.prefix, b.prefix)
  }

  lemma SamePrefixOrder(a: Ns, b: Ns)
    ensures PrefixLess(a, b) <==> NsBefore(a, b)
  {
    StrLessIff(a.prefix, b.prefix);
  }

  /** The namespace nodes that the nearest output ancestor does not have. */
  function NewNodes(axis: seq<Ns>, prev: seq<Ns>): seq<Ns> {
    if axis == [] then []
    else (if axis[0] in prev || axis[0] == DEFAULT_UNDECLARED then [] else [axis[0]]) + NewNodes(axis[1..], prev)
  }

  /** The declarations of an element, given the namespace nodes of its nearest output ancestor. */
  function RecommendedDecls(prev: seq<Ns>, axis: seq<Ns>, visible: bool): seq<Ns> {
    (if visible && !NonemptyDefault(axis) && NonemptyDefault(prev) then [DEFAULT_UNDECLARED] else [])
    + InsertAll([], NewNodes(axis, prev), PrefixLess)
  }

  lemma {:induction false} NewNodesMembers(axis: seq<Ns>, prev: seq<Ns>)
    requires DistinctPrefixes(axis)
    ensures DistinctPrefixes(NewNodes(axis, prev))
    ensures forall ns :: ns in NewNodes(axis, prev) <==> ns in axis && ns !in prev && ns != DEFAULT_UNDECLARED
  {
    if axis != [] {
      var t := axis[1..];
      NewNodesMembers(t, prev);
      assert axis == [axis[0]] + t;
      var s, s' := NewNodes(axis, prev), NewNodes(t, prev);
      forall i, j | 0 <= i < j < |s| ensures s[i].prefix != s[j].prefix {
        if |s| != |s'| {
          assert s[j] == s'[j - 1] && s[j] in s';
          TailApart(axis, s[j]);
          if i > 0 { assert s[i] == s'[i - 1]; }
        }
      }
    }
  }

  lemma SortedNew(axis: seq<Ns>, prev: seq<Ns>)
    requires DistinctPrefixes(axis)
    ensures var l := InsertAll([], NewNodes(axis, prev), PrefixLess);
            Sorted(l, NsBefore) && forall ns :: ns in l <==> ns in NewNodes(axis, prev)
  {
    var added := NewNodes(axis, prev);
    NewNodesMembers(axis, prev);
    var s := set x | x in added;
    forall a: Ns, b: Ns | a in s && b in s && a != b ensures a.prefix != b.prefix {
      DistinctMembers(added, a, b);
    }
    hide PrefixLess, NsBefore;
    NsTotal(s);
    forall a: Ns, b: Ns ensures PrefixLess(a, b) <==> NsBefore(a, b) { SamePrefixOrder(a, b); }
    InsertAllSorted([], added, s, PrefixLess);
  }

  /** The recommended declarations are sorted, and these are their members. */
  lemma RecommendedMembers(prev: seq<Ns>, axis: seq<Ns>, visible: bool)
    requires DistinctPrefixes(axis)
    ensures var l := RecommendedDecls(prev, axis, visible);
            && Sorted(l, NsBefore)
            && forall ns :: ns in l <==>
                 (ns in axis && ns !in prev && ns != DEFAULT_UNDECLARED)
                 || (ns == DEFAULT_UNDECLARED && visible && !NonemptyDefault(axis) && NonemptyDefault(prev))
  {
    NewNodesMembers(axis, prev);
    SortedNew(axis, prev);
    var l := InsertAll([], NewNodes(axis, prev), PrefixLess);
    var r := RecommendedDecls(prev, axis, visible);
    if |r| != |l| {
      assert r == [DEFAULT_UNDECLARED] + l;
      forall ns | ns in axis && ns != DEFAULT_UNDECLARED ensures ns.prefix != "" {
      }
      forall j | 0 <= j < |l| ensures NsBefore(DEFAULT_UNDECLARED, l[j]) {
        assert l[j] in l;
      }
    } else {
      assert r == l;
    }
  }

  /** The window of the stack holds the namespace nodes of the nearest output ancestor. */
  ghost predicate WindowHolds(st: Stack, prev: seq<Ns>) {
    && WindowOk(st) && st.prevEnd == |st.tab| && DistinctPrefixes(prev)
    && exists h :: st.tab[st.prevStart..] == Entries(prev, h)
  }

  lemma WindowOks(st: Stack, prev: seq<Ns>)
    requires WindowHolds(st, prev)
    ensures WindowOk(st)
  {
  }

  lemma FindInWindow(st: Stack, prev: seq<Ns>, ns: Ns)
    requires WindowHolds(st, prev) && ns != DEFAULT_UNDECLARED
    ensures Find(st, ns) <==> ns in prev
  {
    var h :| st.tab[st.prevStart..] == Entries(prev, h);
    TopEntries([], prev, h, ns.prefix);
    assert [] + Entries(prev, h) == Entries(prev, h);
    if x :| x in prev && x.prefix == ns.prefix {
      if ns in prev && ns != x { DistinctMembers(prev, ns, x); }
    }
  }

  lemma LastDefaultAbove(st: Stack, prev: seq<Ns>)
    requires WindowHolds(st, prev)
    ensures forall ns :: ns in prev && ns.prefix == "" ==> LastDefault(st) == ns.href
  {
    var h :| st.tab[st.prevStart..] == Entries(prev, h);
    TopEntries(st.tab[..st.prevStart], prev, h, "");
    assert st.tab == st.tab[..st.prevStart] + st.tab[st.prevStart..];
  }

  /**
    Where an element writes xmlns="" although the Recommendation has none: it has no default
    namespace and neither has its nearest output ancestor, yet `last`, the default namespace
    rendered most recently by an output ancestor, is not empty. An omitted element with a shown
    node xmlns="" writes it as well.
   */
  predicate Superfluous(prev: seq<Ns>, axis: seq<Ns>, visible: bool, last: string) {
    last != "" && if visible then !NonemptyDefault(axis) && !NonemptyDefault(prev) else DEFAULT_UNDECLARED in axis
  }

  /**
    The declarations of one element, shown or omitted: those of the Recommendation, and xmlns=""
    where it is superfluous.
   */
  lemma ElementDecls(st: Stack, prev: seq<Ns>, chain: Chain, hidden: set<string>, visible: bool)
    requires WindowHolds(st, prev)
    ensures var axis := Axis(chain, hidden);
            InclusiveAxis(st, chain, hidden, visible).list ==
            (if Superfluous(prev, axis, visible, LastDefault(st)) then [DEFAULT_UNDECLARED] else [])
              + RecommendedDecls(prev, axis, visible)
  {
    hide InclusiveAxis, RecommendedDecls, Search, Axis, NewNodes;
    var axis := Axis(chain, hidden);
    var l, r := InclusiveAxis(st, chain, hidden, visible).list, RecommendedDecls(prev, axis, visible);
    AxisMembers(chain, hidden);
    InclusiveEffect(st, chain, hidden, visible);
    RecommendedMembers(prev, axis, visible);
    forall ns | ns != DEFAULT_UNDECLARED ensures ns in l <==> ns in r {
      FindInWindow(st, prev, ns);
    }
    UndeclaredIff(st, prev, axis, visible);
    if Superfluous(prev, axis, visible, LastDefault(st)) {
      WithUndeclared(l, r);
    } else {
      SameSorted(l, r);
      assert [] + r == r;
    }
  }

  /** xmlns="" is written where the Recommendation has it and where it is superfluous, never both. */
  lemma UndeclaredIff(st: Stack, prev: seq<Ns>, axis: seq<Ns>, visible: bool)
    requires WindowHolds(st, prev) && DistinctPrefixes(axis)
    ensures var recommended := visible && !NonemptyDefault(axis) && NonemptyDefault(prev);
            && ((DEFAULT_UNDECLARED in axis && !Find(st, DEFAULT_UNDECLARED))
                || (visible && !HasDefault(axis) && LastDefault(st) != "")
                <==> recommended || Superfluous(prev, axis, visible, LastDefault(st)))
            && !(recommended && Superfluous(prev, axis, visible, LastDefault(st)))
  {
    UndeclaredMembers(st, axis);
    LastDefaultAbove(st, prev);
    assert st.tab[0..] == st.tab;
  }

  lemma UndeclaredMembers(st: Stack, axis: seq<Ns>)
    requires WindowOk(st) && DistinctPrefixes(axis)
    ensures (DEFAULT_UNDECLARED in axis && !Find(st, DEFAULT_UNDECLARED))
            || (!HasDefault(axis) && LastDefault(st) != "")
            <==> !NonemptyDefault(axis) && LastDefault(st) != ""
  {
    assert st.tab[0..] == st.tab;
    if ns :| ns in axis && ns.prefix == "" {
      if DEFAULT_UNDECLARED in axis && ns != DEFAULT_UNDECLARED { DistinctMembers(axis, ns, DEFAULT_UNDECLARED); }
      if x :| x in axis && x.prefix == "" && x.href != "" {
        if x != ns { DistinctMembers(axis, x, ns); }
      }
      assert ns.href == "" ==> ns == DEFAULT_UNDECLARED;
    }
  }

  /** Ordered declaration lists with the same members are the same. */
  lemma SameSorted(l: seq<Ns>, r: seq<Ns>)
    requires Sorted(l, NsBefore) && Sorted(r, NsBefore)
    requires forall ns :: ns in l <==> ns in r
    ensures l == r
  {
    SortedDistinct(l);
    var s := set x | x in l;
    forall a: Ns, b: Ns | a in s && b in s && a != b ensures a.prefix != b.prefix {
      DistinctMembers(l, a, b);
    }
    NsTotal(s);
    SortedUnique(l, r, s, NsBefore);
  }

  lemma WithUndeclared(l: seq<Ns>, r: seq<Ns>)
    requires Sorted(l, NsBefore) && Sorted(r, NsBefore)
    requires DEFAULT_UNDECLARED in l && DEFAULT_UNDECLARED !in r
    requires forall ns :: ns != DEFAULT_UNDECLARED ==> (ns in l <==> ns in r)
    ensures l == [DEFAULT_UNDECLARED] + r
  {
    var l' := [DEFAULT_UNDECLARED] + r;
    SortedDistinct(l);
    forall i, j | 0 <= i < j < |l'| ensures NsBefore(l'[i], l'[j]) {
      if i == 0 {
        assert l'[j] == r[j - 1] && r[j - 1] in r && r[j - 1] in l;
        DistinctMembers(l, DEFAULT_UNDECLARED, l'[j]);
      }
    }
    SameSorted(l, l');
  }

  // ----- Whole documents -----

  /** The default namespace rendered last, on the way to the children of an element with this axis. */
  function LastRendered(axis: seq<Ns>, last: string): string {
    if axis == [] then last else if axis[0].prefix == "" then axis[0].href else LastRendered(axis[1..], last)
  }

  lemma {:induction false} LastRenderedIs(axis: seq<Ns>, last: string)
    requires DistinctPrefixes(axis)
    ensures forall ns :: ns in axis && ns.prefix == "" ==> LastRendered(axis, last) == ns.href
    ensures !HasDefault(axis) ==> LastRendered(axis, last) == last
  {
    if axis != [] {
      assert axis == [axis[0]] + axis[1..];
      LastRenderedIs(axis[1..], last);
      forall ns | ns in axis[1..] ensures ns.prefix != axis[0].prefix { TailApart(axis, ns); }
    }
  }

  /** The stack the children of an element are processed with. */
  function StackAfter(st: Stack, chain: Chain, hidden: set<string>, visible: bool): Stack
    requires WindowOk(st)
  {
    var out := InclusiveAxis(st, chain, hidden, visible).st;
    if visible then Shift(out) else out
  }

  /** Every element, shown or omitted and whatever it hides, keeps the window up to date. */
  lemma WindowStep(st: Stack, prev: seq<Ns>, chain: Chain, hidden: set<string>, visible: bool)
    requires WindowHolds(st, prev)
    ensures var axis, st' := Axis(chain, hidden), StackAfter(st, chain, hidden, visible);
            && WindowHolds(st', if visible then axis else prev)
            && LastDefault(st') == (if visible then LastRendered(axis, LastDefault(st)) else LastDefault(st))
  {
    hide Search, Axis, Top, InclusiveAxis;
    var axis, st' := Axis(chain, hidden), StackAfter(st, chain, hidden, visible);
    AxisMembers(chain, hidden);
    InclusiveEffect(st, chain, hidden, visible);
    if visible {
      assert st'.tab[st'.prevStart..] == Entries(axis, hidden);
      TopEntries(st.tab, axis, hidden, "");
      LastRenderedIs(axis, LastDefault(st));
    } else {
      assert st' == st;
    }
  }

  /**
    Canonical form without a stack: what the canonicalizer writes, but for the declarations, which
    are those of section 2.3; `prev` is the axis of the nearest output ancestor.
   */
  function Stackless(cfg: Config, n: Node, chain: Chain, prev: seq<Ns>, pos: Position, atDoc: bool): Out
    decreases n
  {
    match n
    case Element(name, ns, nsDefs, attrs, children, visible, hidden) =>
      var chain' := [FrameOf(n)] + chain;
      var axis := Axis(chain', hidden);
      var body := StacklessList(cfg, children, chain', if visible then axis else prev,
                                  if visible && atDoc then Inside else pos, atDoc && !visible);
      Out(Optional(visible, Open(NsPrefix(ns), name)) + DeclTokens(RecommendedDecls(prev, axis, visible))
          + AttrTokens(AttrsAxis(cfg, attrs, chain, visible)) + Optional(visible, Gt)
          + body.tokens + Optional(visible, Close(NsPrefix(ns), name)),
          if visible && atDoc then After else body.pos)
    case _ => Canon(cfg, n, chain, EMPTY_STACK, pos, atDoc)
  }

  function StacklessList(cfg: Config, l: NodeList, chain: Chain, prev: seq<Ns>, pos: Position, atDoc: bool): Out
    decreases l
  {
    match l
    case Nil => Out([], pos)
    case Cons(n, tail) =>
      var first := Stackless(cfg, n, chain, prev, pos, atDoc);
      var rest := StacklessList(cfg, tail, chain, prev, first.pos, atDoc);
      Out(first.tokens + rest.tokens, rest.pos)
  }

  lemma StacklessElement(cfg: Config, n: Node, chain: Chain, prev: seq<Ns>, pos: Position, atDoc: bool)
    requires n.Element?
    ensures var chain' := [FrameOf(n)] + chain;
            var axis := Axis(chain', n.hidden);
            var body := StacklessList(cfg, n.children, chain', if n.visible then axis else prev,
                                        if n.visible && atDoc then Inside else pos, atDoc && !n.visible);
            Stackless(cfg, n, chain, prev, pos, atDoc) ==
            Out(ElementTokens(n, RecommendedDecls(prev, axis, n.visible), AttrsAxis(cfg, n.attrs, chain, n.visible),
                              body.tokens),
                if n.visible && atDoc then After else body.pos)
  {
    hide Axis, RecommendedDecls, AttrsAxis, StacklessList, DeclTokens, AttrTokens;
  }

  /** How many elements write a superfluous xmlns="": a property of the source document alone. */
  function Extra(n: Node, chain: Chain, prev: seq<Ns>, last: string): nat
    decreases n
  {
    if !n.Element? then 0
    else
      var chain' := [FrameOf(n)] + chain;
      var axis := Axis(chain', n.hidden);
      (if Superfluous(prev, axis, n.visible, last) then 1 else 0)
      + ExtraOfList(n.children, chain', if n.visible then axis else prev,
                    if n.visible then LastRendered(axis, last) else last)
  }

  function ExtraOfList(l: NodeList, chain: Chain, prev: seq<Ns>, last: string): nat
    decreases l
  {
    if l.Nil? then 0 else Extra(l.head, chain, prev, last) + ExtraOfList(l.tail, chain, prev, last)
  }

  /** The two forms differ by so many tokens, and if by none, they are the same. */
  ghost predicate DifferBy(c: Out, r: Out, extra: nat) {
    c.pos == r.pos && |c.tokens| == |r.tokens| + extra && (extra == 0 ==> c == r)
  }

  lemma {:induction false} DeclTokensLength(l: seq<Ns>)
    ensures |DeclTokens(l)| == |l|
  {
    if l != [] { DeclTokensLength(l[1..]); }
  }

  /** An element differs from the rule by what its declarations and its content differ. */
  lemma TokensDiffer(n: Node, l: seq<Ns>, m: seq<Ns>, attrs: seq<Attr>, c: Out, r: Out, own: nat, below: nat)
    requires n.Element? && |l| == |m| + own && (own == 0 ==> l == m) && DifferBy(c, r, below)
    ensures |ElementTokens(n, l, attrs, c.tokens)| == |ElementTokens(n, m, attrs, r.tokens)| + own + below
    ensures own + below == 0 ==> ElementTokens(n, l, attrs, c.tokens) == ElementTokens(n, m, attrs, r.tokens)
  {
    hide DeclTokens, AttrTokens;
    DeclTokensLength(l);
    DeclTokensLength(m);
  }

  lemma NotElement(cfg: Config, n: Node, chain: Chain, st: Stack, prev: seq<Ns>, pos: Position, atDoc: bool)
    requires !n.Element? && WindowOk(st)
    ensures Canon(cfg, n, chain, st, pos, atDoc) == Stackless(cfg, n, chain, prev, pos, atDoc)
  {
  }

  /** One element, given that its content follows the rule but for some superfluous xmlns="". */
  lemma ElementFollows(cfg: Config, n: Node, chain: Chain, st: Stack, prev: seq<Ns>, pos: Position, atDoc: bool,
                       below: nat)
    requires !cfg.exclusive && WindowHolds(st, prev) && n.Element?
    requires var chain' := [FrameOf(n)] + chain;
             var pos1, atDoc1 := if n.visible && atDoc then Inside else pos, atDoc && !n.visible;
             DifferBy(CanonList(cfg, n.children, chain', StackAfter(st, chain', n.hidden, n.visible), pos1, atDoc1),
                      StacklessList(cfg, n.children, chain', if n.visible then Axis(chain', n.hidden) else prev, pos1,
                                    atDoc1), below)
    ensures var more := Superfluous(prev, Axis([FrameOf(n)] + chain, n.hidden), n.visible, LastDefault(st));
            var own := if more then 1 else 0;
            DifferBy(Canon(cfg, n, chain, st, pos, atDoc), Stackless(cfg, n, chain, prev, pos, atDoc), own + below)
  {
    assert WindowOk(st);
    hide Axis, InclusiveAxis, RecommendedDecls, Superfluous, WindowHolds, LastDefault, DeclTokens, AttrTokens,
         AttrsAxis;
    hide Canon, CanonList, Stackless, StacklessList, ElementTokens;
    var chain' := [FrameOf(n)] + chain;
    var axis := Axis(chain', n.hidden);
    var pos1, atDoc1 := if n.visible && atDoc then Inside else pos, atDoc && !n.visible;
    ElementDecls(st, prev, chain', n.hidden, n.visible);
    CanonElement(cfg, n, chain, st, pos, atDoc);
    StacklessElement(cfg, n, chain, prev, pos, atDoc);
    TokensDiffer(n, InclusiveAxis(st, chain', n.hidden, n.visible).list, RecommendedDecls(prev, axis, n.visible),
                 AttrsAxis(cfg, n.attrs, chain, n.visible),
                 CanonList(cfg, n.children, chain', StackAfter(st, chain', n.hidden, n.visible), pos1, atDoc1),
                 StacklessList(cfg, n.children, chain', if n.visible then axis else prev, pos1, atDoc1),
                 if Superfluous(prev, axis, n.visible, LastDefault(st)) then 1 else 0, below);
  }

  lemma {:induction false} NodeFollows(cfg: Config, n: Node, chain: Chain, st: Stack, prev: seq<Ns>, pos: Position,
                                       atDoc: bool)
    requires !cfg.exclusive && WindowHolds(st, prev)
    ensures DifferBy(Canon(cfg, n, chain, st, pos, atDoc), Stackless(cfg, n, chain, prev, pos, atDoc),
                     Extra(n, chain, prev, LastDefault(st)))
    decreases n
  {
    assert WindowOk(st);
    hide Axis, StackAfter, Superfluous, WindowHolds, LastDefault, LastRendered, Canon, CanonList, Stackless,
         StacklessList, ExtraOfList;
    if n.Element? {
      var chain' := [FrameOf(n)] + chain;
      var axis := Axis(chain', n.hidden);
      var below := StackAfter(st, chain', n.hidden, n.visible);
      WindowStep(st, prev, chain', n.hidden, n.visible);
      var prev1 := if n.visible then axis else prev;
      ListFollows(cfg, n.children, chain', below, prev1, if n.visible && atDoc then Inside else pos,
                  atDoc && !n.visible);
      ElementFollows(cfg, n, chain, st, prev, pos, atDoc, ExtraOfList(n.children, chain', prev1, LastDefault(below)));
    } else {
      NotElement(cfg, n, chain, st, prev, pos, atDoc);
    }
  }

  lemma {:induction false} ListFollows(cfg: Config, l: NodeList, chain: Chain, st: Stack, prev: seq<Ns>, pos: Position,
                                       atDoc: bool)
    requires !cfg.exclusive && WindowHolds(st, prev)
    ensures DifferBy(CanonList(cfg, l, chain, st, pos, atDoc), StacklessList(cfg, l, chain, prev, pos, atDoc),
                     ExtraOfList(l, chain, prev, LastDefault(st)))
    decreases l
  {
    assert WindowOk(st);
    hide WindowHolds, LastDefault, Canon, Stackless, Extra;
    if l.Cons? {
      NodeFollows(cfg, l.head, chain, st, prev, pos, atDoc);
      ListFollows(cfg, l.tail, chain, st, prev, Canon(cfg, l.head, chain, st, pos, atDoc).pos, atDoc);
    }
  }

  /**
    For every document, every choice of visible elements and of hidden namespace nodes: the stack
    machine writes as many tokens more than section 2.3 asks for as there are superfluous xmlns=""
    by the source, and its declarations are those of section 2.3 if and only if there are none.
   */
  lemma DeclarationsIff(cfg: Config, doc: NodeList)
    requires !cfg.exclusive
    ensures var c, r := CanonDocument(cfg, doc), StacklessList(cfg, doc, [], [], Before, true).tokens;
            && |c| == |r| + ExtraOfList(doc, [], [], "")
            && (c == r <==> ExtraOfList(doc, [], [], "") == 0)
  {
    assert EMPTY_STACK.tab[0..] == Entries([], {});
    ListFollows(cfg, doc, [], EMPTY_STACK, [], Before, true);
  }

  // ----- Namespace nodes shown with their elements -----

  /** Namespace nodes are shown exactly when their element is. */
  ghost predicate Elementwise(n: Node, chain: Chain)
    decreases n
  {
    n.Element? ==>
      var chain' := [FrameOf(n)] + chain;
      (if n.visible then n.hidden == {} else Axis(chain', n.hidden) == []) && ElementwiseList(n.children, chain')
  }

  ghost predicate ElementwiseList(l: NodeList, chain: Chain)
    decreases l
  {
    l.Cons? ==> Elementwise(l.head, chain) && ElementwiseList(l.tail, chain)
  }

  /** No default further out is pending: it is a namespace node of the nearest output ancestor, and in scope. */
  ghost predicate Settled(prev: seq<Ns>, last: string, chain: Chain) {
    last == "" || (NonemptyDefault(prev) && Search(chain, "").Some?)
  }

  lemma SettledStep(prev: seq<Ns>, last: string, chain: Chain, n: Node)
    requires n.Element? && Elementwise(n, chain) && Settled(prev, last, chain)
    ensures var chain' := [FrameOf(n)] + chain;
            var axis := Axis(chain', n.hidden);
            && !Superfluous(prev, axis, n.visible, last)
            && Settled(if n.visible then axis else prev, if n.visible then LastRendered(axis, last) else last, chain')
  {
    hide Axis, Search, ElementwiseList, LastRendered;
    var chain' := [FrameOf(n)] + chain;
    var axis := Axis(chain', n.hidden);
    SearchStep(FrameOf(n), chain, "");
    AxisMembers(chain', n.hidden);
    LastRenderedIs(axis, last);
    if n.visible && last != "" {
      var d := Search(chain', "").value;
      assert d in axis && d.prefix == "";
    }
  }

  lemma {:induction false} ElementwiseExtra(n: Node, chain: Chain, prev: seq<Ns>, last: string)
    requires Elementwise(n, chain) && Settled(prev, last, chain)
    ensures Extra(n, chain, prev, last) == 0
    decreases n
  {
    hide Axis, Superfluous, LastRendered, Settled;
    if n.Element? {
      var chain' := [FrameOf(n)] + chain;
      var axis := Axis(chain', n.hidden);
      SettledStep(prev, last, chain, n);
      ElementwiseExtraOfList(n.children, chain', if n.visible then axis else prev,
                             if n.visible then LastRendered(axis, last) else last);
    }
  }

  lemma {:induction false} ElementwiseExtraOfList(l: NodeList, chain: Chain, prev: seq<Ns>, last: string)
    requires ElementwiseList(l, chain) && Settled(prev, last, chain)
    ensures ExtraOfList(l, chain, prev, last) == 0
    decreases l
  {
    if l.Cons? {
      ElementwiseExtra(l.head, chain, prev, last);
      ElementwiseExtraOfList(l.tail, chain, prev, last);
    }
  }

  /** When namespace nodes are shown exactly with their elements, no xmlns="" is superfluous. */
  lemma NothingSuperfluous(cfg: Config, doc: NodeList)
    requires !cfg.exclusive && ElementwiseList(doc, [])
    ensures ExtraOfList(doc, [], [], "") == 0
    ensures CanonDocument(cfg, doc) == StacklessList(cfg, doc, [], [], Before, true).tokens
  {
    ElementwiseExtraOfList(doc, [], [], "");
    DeclarationsIff(cfg, doc);
  }
}
