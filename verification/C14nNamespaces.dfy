/**
  Inclusive canonicalization keeps every namespace binding.

  The tokens of the output are read by `Read`, which knows nothing of the canonicalizer: it scopes
  declarations by start and end tags as Namespaces in XML prescribes.
 */
module C14nNamespaces {
  import opened Ordering
  import opened C14nTree
  import opened C14nSpec

  // ----- A namespace-aware reader of canonical output -----

  type Ctx = map<string, string>

  /** What a prefix means: xml is fixed, and an unbound prefix means no namespace. */
  function Bound(ctx: Ctx, p: string): string {
    if p == "xml" then XML_NAMESPACE else if p in ctx then ctx[p] else ""
  }

  /** A start tag: the bindings in force there, its name and its attributes. */
  datatype Tag = Tag(ctx: Ctx, prefix: string, name: string, attrs: seq<Token>)

  /** The contexts of the open elements, and the start tag being read. */
  datatype Reader = Reader(stack: seq<Ctx>, open: Option<Tag>)

  function Current(r: Reader): Ctx {
    if r.stack == [] then map[] else r.stack[|r.stack| - 1]
  }

  function ReadOne(t: Token, r: Reader): Reader {
    match t
    case Open(prefix, name) => r.(open := Some(Tag(Current(r), prefix, name, [])))
    case Decl(ns) =>
      if r.open.Some? then r.(open := Some(r.open.value.(ctx := r.open.value.ctx[ns.prefix := ns.href]))) else r
    case Attribute(_, _, _) =>
      if r.open.Some? then r.(open := Some(r.open.value.(attrs := r.open.value.attrs + [t]))) else r
    case Gt => if r.open.Some? then Reader(r.stack + [r.open.value.ctx], None) else r
    case Close(_, _) => if r.stack == [] then r else r.(stack := r.stack[..|r.stack| - 1])
    case _ => r
  }

  datatype Reading = Reading(reader: Reader, elements: seq<Tag>)

  /** Reads tokens; `elements` are the start tags met, in document order. */
  function Read(ts: seq<Token>, r: Reader): Reading {
    if ts == [] then Reading(r, [])
    else
      var rest := Read(ts[1..], ReadOne(ts[0], r));
      Reading(rest.reader, (if ts[0].Gt? && r.open.Some? then [r.open.value] else []) + rest.elements)
  }

  lemma {:induction false} ReadAppend(a: seq<Token>, b: seq<Token>, r: Reader)
    ensures Read(a + b, r) ==
            Reading(Read(b, Read(a, r).reader).reader, Read(a, r).elements + Read(b, Read(a, r).reader).elements)
  {
    hide Read, ReadOne;
    if a == [] {
      ReadNothing(r);
      assert a + b == b && [] + Read(b, r).elements == Read(b, r).elements;
    } else {
      var r1 := ReadOne(a[0], r);
      ReadAppend(a[1..], b, r1);
      ReadCons(a[0], a[1..], r);
      ReadCons(a[0], a[1..] + b, r);
      assert [a[0]] + a[1..] == a && [a[0]] + (a[1..] + b) == a + b;
      var first := if a[0].Gt? && r.open.Some? then [r.open.value] else [];
      var middle, last := Read(a[1..], r1).elements, Read(b, Read(a[1..], r1).reader).elements;
      assert (first + middle) + last == first + (middle + last);
    }
  }

  lemma ReadNothing(r: Reader)
    ensures Read([], r) == Reading(r, [])
  {
  }

  lemma ReadCons(t: Token, ts: seq<Token>, r: Reader)
    ensures Read([t] + ts, r) ==
            Reading(Read(ts, ReadOne(t, r)).reader,
                    (if t.Gt? && r.open.Some? then [r.open.value] else []) + Read(ts, ReadOne(t, r)).elements)
  {
    assert ([t] + ts)[1..] == ts;
  }

  /** A context after a list of declarations. */
  function Declare(ctx: Ctx, l: seq<Ns>): Ctx
    decreases l
  {
    if l == [] then ctx else Declare(ctx[l[0].prefix := l[0].href], l[1..])
  }

  lemma {:induction false} ReadDecls(l: seq<Ns>, r: Reader)
    ensures Read(DeclTokens(l), r) ==
            Reading(if r.open.Some? then r.(open := Some(r.open.value.(ctx := Declare(r.open.value.ctx, l))))
                    else r, [])
  {
    if l != [] {
      var ts := DeclTokens(l);
      assert ts[0] == Decl(l[0]) && ts[1..] == DeclTokens(l[1..]);
      ReadDecls(l[1..], ReadOne(Decl(l[0]), r));
    }
  }

  lemma {:induction false} ReadAttrs(l: seq<Attr>, r: Reader)
    ensures Read(AttrTokens(l), r) ==
            Reading(if r.open.Some? then r.(open := Some(r.open.value.(attrs := r.open.value.attrs + AttrTokens(l))))
                    else r, [])
  {
    var ts := AttrTokens(l);
    if l == [] {
      assert r.open.Some? ==> r.open.value.attrs + ts == r.open.value.attrs;
    } else {
      assert ts[1..] == AttrTokens(l[1..]);
      ReadAttrs(l[1..], ReadOne(ts[0], r));
      assert r.open.Some? ==> r.open.value.attrs + [ts[0]] + ts[1..] == r.open.value.attrs + ts;
    }
  }

  /** Declarations with distinct prefixes bind exactly what they say. */
  lemma {:induction false} DeclareBound(ctx: Ctx, l: seq<Ns>, p: string)
    requires DistinctPrefixes(l) && p != "xml"
    ensures forall ns :: ns in l && ns.prefix == p ==> Bound(Declare(ctx, l), p) == ns.href
    ensures (forall ns :: ns in l ==> ns.prefix != p) ==> Bound(Declare(ctx, l), p) == Bound(ctx, p)
    decreases l
  {
    if l != [] {
      assert l == [l[0]] + l[1..];
      assert forall i :: 0 <= i < |l[1..]| ==> l[1..][i] == l[i + 1];
      DeclareBound(ctx[l[0].prefix := l[0].href], l[1..], p);
      forall ns | ns in l[1..] ensures ns.prefix != l[0].prefix {
        TailApart(l, ns);
      }
    }
  }

  /** The start tag of an element as read in context `ctx`. */
  function TagOf(cfg: Config, st: Stack, chain: Chain, e: Node, ctx: Ctx): Tag
    requires e.Element? && chain != [] && WindowOk(st)
  {
    Tag(Declare(ctx, NamespaceAxis(cfg, st, chain, e).list), NsPrefix(e.ns), e.name,
        AttrTokens(AttrsAxis(cfg, e.attrs, chain[1..], e.visible)))
  }

  lemma ReadStartTag(cfg: Config, st: Stack, chain: Chain, e: Node, r: Reader)
    requires e.Element? && chain != [] && WindowOk(st) && r.open.None?
    ensures var tag := TagOf(cfg, st, chain, e, Current(r));
            Read(StartTag(cfg, st, chain, e), r) ==
            if e.visible then Reading(Reader(r.stack + [tag.ctx], None), [tag]) else Reading(r, [])
  {
    hide DeclTokens, AttrTokens, NamespaceAxis, AttrsAxis, Declare;
    var a := Optional(e.visible, Open(NsPrefix(e.ns), e.name));
    var b := DeclTokens(NamespaceAxis(cfg, st, chain, e).list);
    var c := AttrTokens(AttrsAxis(cfg, e.attrs, chain[1..], e.visible));
    var d := Optional(e.visible, Gt);
    ReadAppend(a + b + c, d, r);
    ReadAppend(a + b, c, r);
    ReadAppend(a, b, r);
    var r1 := Read(a, r).reader;
    ReadDecls(NamespaceAxis(cfg, st, chain, e).list, r1);
    var r2 := Read(b, r1).reader;
    ReadAttrs(AttrsAxis(cfg, e.attrs, chain[1..], e.visible), r2);
    assert [] + c == c;
  }

  // ----- The effect of rendering an axis -----

  function Entries(axis: seq<Ns>, hidden: set<string>): seq<Entry> {
    if axis == [] then [] else [Entry(axis[0], hidden)] + Entries(axis[1..], hidden)
  }

  lemma TopPush(tab: seq<Entry>, e: Entry, p: string)
    ensures Top(tab + [e], p) == if e.ns.prefix == p then Some(e) else Top(tab, p)
  {
    assert (tab + [e])[..|tab|] == tab;
  }

  lemma FindPush(st: Stack, ns: Ns, hidden: set<string>, other: Ns)
    requires WindowOk(st) && ns.prefix != other.prefix
    ensures Find(Push(st, ns, hidden), other) == Find(st, other)
  {
    var start := if other == DEFAULT_UNDECLARED then 0 else st.prevStart;
    assert (st.tab + [Entry(ns, hidden)])[start..] == st.tab[start..] + [Entry(ns, hidden)];
    TopPush(st.tab[start..], Entry(ns, hidden), other.prefix);
  }

  lemma {:induction false} RenderTab(axis: seq<Ns>, out: AxisOut, hidden: set<string>, visible: bool)
    requires WindowOk(out.st)
    ensures Render(axis, out, hidden, visible).st.tab ==
            if visible then out.st.tab + Entries(axis, hidden) else out.st.tab
    decreases axis
  {
    if axis != [] {
      RenderTab(axis[1..], RenderOne(axis[0], out, hidden, visible), hidden, visible);
    }
  }

  /**
    The loop of xmlC14NProcessNamespacesAxis looks each namespace up in a stack that already
    holds the earlier ones of the same element; that makes no difference.
   */
  lemma {:induction false} RenderMembers(axis: seq<Ns>, out: AxisOut, hidden: set<string>, visible: bool)
    requires DistinctPrefixes(axis) && WindowOk(out.st)
    ensures forall ns :: ns in Render(axis, out, hidden, visible).list <==>
              ns in out.list || (ns in axis && !Find(out.st, ns))
    decreases axis
  {
    if axis != [] {
      var out' := RenderOne(axis[0], out, hidden, visible);
      var t := axis[1..];
      assert axis == [axis[0]] + t;
      RenderMembers(t, out', hidden, visible);
      forall ns | ns in t ensures Find(out'.st, ns) == Find(out.st, ns) && ns.prefix != axis[0].prefix {
        TailApart(axis, ns);
        if visible { FindPush(out.st, axis[0], hidden, ns); }
      }
    }
  }

  lemma TailApart(l: seq<Ns>, ns: Ns)
    requires DistinctPrefixes(l) && l != [] && ns in l[1..]
    ensures ns.prefix != l[0].prefix
  {
    var i :| 0 <= i < |l[1..]| && l[1..][i] == ns;
    assert l[i + 1] == ns;
  }

  lemma {:induction false} TopEntries(tab: seq<Entry>, axis: seq<Ns>, hidden: set<string>, p: string)
    requires DistinctPrefixes(axis)
    ensures forall ns :: ns in axis && ns.prefix == p ==> Top(tab + Entries(axis, hidden), p) == Some(Entry(ns, hidden))
    ensures (forall ns :: ns in axis ==> ns.prefix != p) ==> Top(tab + Entries(axis, hidden), p) == Top(tab, p)
    decreases axis
  {
    if axis == [] {
      assert tab + Entries(axis, hidden) == tab;
    } else {
      var t := axis[1..];
      assert axis == [axis[0]] + t;
      var tab' := tab + [Entry(axis[0], hidden)];
      assert tab + Entries(axis, hidden) == tab' + Entries(t, hidden);
      TopEntries(tab', t, hidden, p);
      TopPush(tab, Entry(axis[0], hidden), p);
      forall ns | ns in t ensures ns.prefix != axis[0].prefix {
        TailApart(axis, ns);
      }
    }
  }

  // ----- The invariant between the stack and the output -----

  /** The default namespace most recently rendered on the way to the current element. */
  function LastDefault(st: Stack): string {
    match Top(st.tab, "")
    case Some(e) => e.ns.href
    case None => ""
  }

  /** The window says what its prefixes mean in the output; the default may also be undeclared. */
  ghost predicate Mirrors(st: Stack, ctx: Ctx) {
    && WindowOk(st) && st.prevEnd == |st.tab|
    && (forall p :: p != "xml" && Top(st.tab[st.prevStart..], p).Some? ==>
          Bound(ctx, p) == Top(st.tab[st.prevStart..], p).value.ns.href)
    && (Bound(ctx, "") == "" || Bound(ctx, "") == LastDefault(st))
  }

  /** In `ctx` every shown namespace node means what it means in the source. */
  ghost predicate Agrees(ctx: Ctx, chain: Chain, hidden: set<string>) {
    && (forall p :: p != "xml" && p !in hidden && Search(chain, p).Some? ==>
          Bound(ctx, p) == Search(chain, p).value.href)
    && ("" in hidden || Search(chain, "").None? ==> Bound(ctx, "") == "")
  }

  lemma NsTotal(s: set<Ns>)
    requires forall a, b :: a in s && b in s && a != b ==> a.prefix != b.prefix
    ensures StrictTotalOn(s, NsBefore)
  {
    forall a, b
      ensures (NsBefore(a, b) <==> StrCmp(b.prefix, a.prefix) > 0)
              && (StrCmp(a.prefix, b.prefix) == 0 <==> a.prefix == b.prefix)
    {
      StrCmpAntisymmetric(a.prefix, b.prefix);
    }
    forall a, b, c | NsBefore(a, b) && NsBefore(b, c) ensures NsBefore(a, c) {
      StrLessTransitive(a.prefix, b.prefix, c.prefix);
    }
  }

  ghost predicate Apart(l: seq<Ns>, axis: seq<Ns>) {
    forall a, b :: a in l && b in axis ==> a.prefix != b.prefix
  }

  lemma DistinctMembers(l: seq<Ns>, a: Ns, b: Ns)
    requires DistinctPrefixes(l) && a in l && b in l && a != b
    ensures a.prefix != b.prefix
  {
    var i :| 0 <= i < |l| && l[i] == a;
    var j :| 0 <= j < |l| && l[j] == b;
    assert i < j || j < i;
  }

  /** The list built by the loop is in ascending order of prefixes. */
  lemma {:induction false} RenderSorted(axis: seq<Ns>, out: AxisOut, hidden: set<string>, visible: bool)
    requires DistinctPrefixes(axis) && WindowOk(out.st)
    requires DistinctPrefixes(out.list) && Apart(out.list, axis) && Sorted(out.list, NsBefore)
    ensures Sorted(Render(axis, out, hidden, visible).list, NsBefore)
    decreases axis
  {
    if axis != [] {
      var ns, t := axis[0], axis[1..];
      assert axis == [ns] + t;
      var out' := RenderOne(ns, out, hidden, visible);
      assert ns in axis;
      if !Find(out.st, ns) {
        var s := (set x | x in out.list) + {ns};
        forall a, b | a in s && b in s && a != b ensures a.prefix != b.prefix {
          if a in out.list && b in out.list { DistinctMembers(out.list, a, b); }
        }
        NsTotal(s);
        InsertSorted(out.list, ns, s, NsBefore);
        var l := out'.list;
        forall i, j | 0 <= i < j < |l| ensures l[i].prefix != l[j].prefix {
          assert NsBefore(l[i], l[j]);
          StrCmpAntisymmetric(l[i].prefix, l[j].prefix);
        }
      }
      forall a, b | a in out'.list && b in t ensures a.prefix != b.prefix {
        assert b in axis;
        if a == ns { TailApart(axis, b); }
      }
      RenderSorted(t, out', hidden, visible);
    }
  }

  lemma SortedDistinct(l: seq<Ns>)
    requires Sorted(l, NsBefore)
    ensures DistinctPrefixes(l)
  {
    forall i, j | 0 <= i < j < |l| ensures l[i].prefix != l[j].prefix {
      StrCmpAntisymmetric(l[i].prefix, l[j].prefix);
    }
  }

  /** What one element of inclusive canonicalization declares, and what it leaves on the stack. */
  lemma InclusiveEffect(st: Stack, chain: Chain, hidden: set<string>, visible: bool)
    requires WindowOk(st)
    ensures var out := InclusiveAxis(st, chain, hidden, visible);
            var axis := Axis(chain, hidden);
            && out.st.tab == (if visible then st.tab + Entries(axis, hidden) else st.tab)
            && Sorted(out.list, NsBefore)
            && forall ns :: ns in out.list <==>
                 (ns in axis && !Find(st, ns))
                 || (ns == DEFAULT_UNDECLARED && visible && !HasDefault(axis) && LastDefault(st) != "")
  {
    hide Axis, Render, Entries, Search;
    var axis := Axis(chain, hidden);
    AxisMembers(chain, hidden);
    var start := AxisOut(st, []);
    RenderTab(axis, start, hidden, visible);
    RenderMembers(axis, start, hidden, visible);
    RenderSorted(axis, start, hidden, visible);
    var out := Render(axis, start, hidden, visible);
    assert out.st.tab[0..] == out.st.tab;
    TopEntries(st.tab, axis, hidden, "");
    var l := InclusiveAxis(st, chain, hidden, visible).list;
    if |l| != |out.list| {
      assert l == [DEFAULT_UNDECLARED] + out.list;
      forall j | 0 <= j < |out.list| ensures NsBefore(DEFAULT_UNDECLARED, out.list[j]) {
        assert out.list[j] in out.list && out.list[j] in axis;
      }
    } else {
      assert l == out.list;
    }
  }

  /** One visible element: its output context says what the source says. */
  lemma ElementAgrees(st: Stack, ctx: Ctx, chain: Chain, hidden: set<string>)
    requires Mirrors(st, ctx)
    ensures var out := InclusiveAxis(st, chain, hidden, true);
            Agrees(Declare(ctx, out.list), chain, hidden)
  {
    var out := InclusiveAxis(st, chain, hidden, true);
    var axis := Axis(chain, hidden);
    var l := out.list;
    InclusiveEffect(st, chain, hidden, true);
    AxisMembers(chain, hidden);
    SortedDistinct(l);
    assert st.tab[0..] == st.tab;
    forall p | p != "xml" && p !in hidden && Search(chain, p).Some?
      ensures Bound(Declare(ctx, l), p) == Search(chain, p).value.href
    {
      var ns := Search(chain, p).value;
      assert ns in axis;
      DeclareBound(ctx, l, p);
      if ns !in l {
        forall x | x in l ensures x.prefix != p {
          if x.prefix == p && x in axis { DistinctMembers(axis, x, ns); }
        }
      }
    }
    if "" in hidden || Search(chain, "").None? {
      DeclareBound(ctx, l, "");
      assert DEFAULT_UNDECLARED in l || LastDefault(st) == "";
    }
  }

  lemma WindowAgrees(st: Stack, ctx: Ctx, chain: Chain, hidden: set<string>, p: string)
    requires Mirrors(st, ctx)
    ensures var out := InclusiveAxis(st, chain, hidden, true);
            var top := Top(Entries(Axis(chain, hidden), hidden), p);
            p != "xml" && top.Some? ==> Bound(Declare(ctx, out.list), p) == top.value.ns.href
  {
    var axis := Axis(chain, hidden);
    AxisMembers(chain, hidden);
    ElementAgrees(st, ctx, chain, hidden);
    TopEntries([], axis, hidden, p);
    assert [] + Entries(axis, hidden) == Entries(axis, hidden);
    if ns :| ns in axis && ns.prefix == p {
      assert Search(chain, p) == Some(ns);
    }
  }

  lemma DefaultAgrees(st: Stack, ctx: Ctx, chain: Chain, hidden: set<string>)
    requires Mirrors(st, ctx)
    ensures var out := InclusiveAxis(st, chain, hidden, true);
            var d := Bound(Declare(ctx, out.list), "");
            d == "" || d == LastDefault(out.st)
  {
    var axis := Axis(chain, hidden);
    InclusiveEffect(st, chain, hidden, true);
    AxisMembers(chain, hidden);
    ElementAgrees(st, ctx, chain, hidden);
    TopEntries(st.tab, axis, hidden, "");
    var found := Search(chain, "");
    if found.Some? && "" !in hidden {
      assert found.value in axis;
    }
  }

  /** The stack the children see mirrors the output context of their parent. */
  lemma ElementMirrors(st: Stack, ctx: Ctx, chain: Chain, hidden: set<string>)
    requires Mirrors(st, ctx)
    ensures var out := InclusiveAxis(st, chain, hidden, true);
            Mirrors(Shift(out.st), Declare(ctx, out.list))
  {
    var out := InclusiveAxis(st, chain, hidden, true);
    InclusiveEffect(st, chain, hidden, true);
    DefaultAgrees(st, ctx, chain, hidden);
    var st' := Shift(out.st);
    assert st'.tab[st'.prevStart..] == Entries(Axis(chain, hidden), hidden);
    forall p | p != "xml" && Top(st'.tab[st'.prevStart..], p).Some?
      ensures Bound(Declare(ctx, out.list), p) == Top(st'.tab[st'.prevStart..], p).value.ns.href
    {
      WindowAgrees(st, ctx, chain, hidden, p);
    }
  }

  // ----- Whole documents -----

  /** An element the canonicalizer shows, and where it stands: its own frame and its ancestors'. */
  datatype Scope = Scope(chain: Chain, element: Node)

  function Scopes(n: Node, chain: Chain): seq<Scope>
    decreases n
  {
    if !n.Element? then []
    else
      var chain' := [FrameOf(n)] + chain;
      (if n.visible then [Scope(chain', n)] else []) + ScopesOfList(n.children, chain')
  }

  function ScopesOfList(l: NodeList, chain: Chain): seq<Scope>
    decreases l
  {
    if l.Nil? then [] else Scopes(l.head, chain) + ScopesOfList(l.tail, chain)
  }

  /** A start tag in the output stands for this element of the source. */
  ghost predicate Stands(cfg: Config, tag: Tag, s: Scope) {
    && s.element.Element? && s.chain != []
    && tag.prefix == NsPrefix(s.element.ns) && tag.name == s.element.name
    && tag.attrs == AttrTokens(AttrsAxis(cfg, s.element.attrs, s.chain[1..], true))
    && Agrees(tag.ctx, s.chain, s.element.hidden)
  }

  ghost predicate AllStand(cfg: Config, read: seq<Tag>, scopes: seq<Scope>) {
    |read| == |scopes| && forall i :: 0 <= i < |read| ==> Stands(cfg, read[i], scopes[i])
  }

  lemma AllStandAppend(cfg: Config, a: seq<Tag>, b: seq<Tag>, s: seq<Scope>, t: seq<Scope>)
    requires AllStand(cfg, a, s) && AllStand(cfg, b, t)
    ensures AllStand(cfg, a + b, s + t)
  {
  }

  /** Reading a start tag, balanced content and an end tag. */
  lemma ReadElement(a: seq<Token>, b: seq<Token>, c: seq<Token>, r: Reader, r1: Reader)
    requires Read(a, r).reader == r1 && Read(b, r1).reader == r1
    ensures Read(a + b + c, r) ==
            Reading(Read(c, r1).reader, Read(a, r).elements + Read(b, r1).elements + Read(c, r1).elements)
  {
    ReadAppend(a + b, c, r);
    ReadAppend(a, b, r);
  }

  lemma ReadEndTag(e: Node, r: Reader, r1: Reader)
    requires e.Element?
    requires if e.visible then r1.stack != [] && r == r1.(stack := r1.stack[..|r1.stack| - 1]) else r == r1
    ensures Read(Optional(e.visible, Close(NsPrefix(e.ns), e.name)), r1) == Reading(r, [])
  {
  }

  lemma StartTagMirrors(cfg: Config, st: Stack, chain: Chain, e: Node, r: Reader)
    requires !cfg.exclusive && e.Element? && chain != [] && r.open.None? && Mirrors(st, Current(r))
    ensures var reading := Read(StartTag(cfg, st, chain, e), r);
            && reading.reader.open.None?
            && (if e.visible then
                  |reading.reader.stack| == |r.stack| + 1 && reading.reader.stack[..|r.stack|] == r.stack
                else reading.reader == r)
            && Mirrors(StackBelow(cfg, st, chain, e), Current(reading.reader))
            && AllStand(cfg, reading.elements, if e.visible then [Scope(chain, e)] else [])
  {
    ReadStartTag(cfg, st, chain, e, r);
    if e.visible {
      ElementAgrees(st, Current(r), chain, e.hidden);
      ElementMirrors(st, Current(r), chain, e.hidden);
    } else {
      InclusiveEffect(st, chain, e.hidden, false);
    }
  }

  lemma {:induction false} NodePreserves(cfg: Config, n: Node, chain: Chain, st: Stack, pos: Position, atDoc: bool,
                                         r: Reader)
    requires !cfg.exclusive && r.open.None? && Mirrors(st, Current(r))
    ensures var reading := Read(Canon(cfg, n, chain, st, pos, atDoc).tokens, r);
            reading.reader == r && AllStand(cfg, reading.elements, Scopes(n, chain))
    decreases n
  {
    if n.Element? {
      var chain' := [FrameOf(n)] + chain;
      var below := StackBelow(cfg, st, chain', n);
      var pos1, atDoc1 := if n.visible && atDoc then Inside else pos, atDoc && !n.visible;
      var a := StartTag(cfg, st, chain', n);
      var b := CanonList(cfg, n.children, chain', below, pos1, atDoc1).tokens;
      var c := Optional(n.visible, Close(NsPrefix(n.ns), n.name));
      StartTagMirrors(cfg, st, chain', n, r);
      var r1 := Read(a, r).reader;
      ListPreserves(cfg, n.children, chain', below, pos1, atDoc1, r1);
      ReadEndTag(n, r, r1);
      ReadElement(a, b, c, r, r1);
      AllStandAppend(cfg, Read(a, r).elements, Read(b, r1).elements,
                     if n.visible then [Scope(chain', n)] else [], ScopesOfList(n.children, chain'));
      assert Read(a, r).elements + Read(b, r1).elements + [] == Read(a, r).elements + Read(b, r1).elements;
    }
  }

  lemma {:induction false} ListPreserves(cfg: Config, l: NodeList, chain: Chain, st: Stack, pos: Position, atDoc: bool,
                                         r: Reader)
    requires !cfg.exclusive && r.open.None? && Mirrors(st, Current(r))
    ensures var reading := Read(CanonList(cfg, l, chain, st, pos, atDoc).tokens, r);
            reading.reader == r && AllStand(cfg, reading.elements, ScopesOfList(l, chain))
    decreases l
  {
    if l.Cons? {
      NodePreserves(cfg, l.head, chain, st, pos, atDoc, r);
      var first := Canon(cfg, l.head, chain, st, pos, atDoc);
      ListPreserves(cfg, l.tail, chain, st, first.pos, atDoc, r);
      var rest := CanonList(cfg, l.tail, chain, st, first.pos, atDoc);
      ReadAppend(first.tokens, rest.tokens, r);
      AllStandAppend(cfg, Read(first.tokens, r).elements, Read(rest.tokens, r).elements,
                     Scopes(l.head, chain), ScopesOfList(l.tail, chain));
    }
  }

  const NEW_READER := Reader([], None)

  /**
    Inclusive canonicalization keeps the meaning of prefixes: for every document, every choice
    of visible elements and of hidden namespace nodes, the canonical form has one start tag for
    each visible element, its tags balance, and there each shown prefix is bound to its source
    namespace, while a default namespace that is absent or hidden is bound to none.
   */
  lemma NamespacesPreserved(cfg: Config, doc: NodeList)
    requires !cfg.exclusive
    ensures var reading := Read(CanonDocument(cfg, doc), NEW_READER);
            reading.reader == NEW_READER && AllStand(cfg, reading.elements, ScopesOfList(doc, []))
  {
    ListPreserves(cfg, doc, [], EMPTY_STACK, Before, true, NEW_READER);
  }

  /** The namespace of a name, as the source document has it. */
  function SourceNs(ns: Option<Ns>): string {
    if ns.Some? then ns.value.href else ""
  }

  /** Namespace well-formedness: a name's namespace is the one its prefix has in scope. */
  ghost predicate NameOk(chain: Chain, ns: Option<Ns>) {
    if ns.Some? then Search(chain, ns.value.prefix) == ns
    else Search(chain, "").None? || Search(chain, "").value.href == ""
  }

  /** Names whose bindings are in scope and shown. */
  ghost predicate NamesOk(s: Scope) {
    && s.element.Element? && s.chain != []
    && NameOk(s.chain, s.element.ns) && NsPrefix(s.element.ns) !in s.element.hidden
    && forall a :: a in s.element.attrs && a.visible && a.ns.Some? ==>
         a.ns.value.prefix != "" && a.ns.value.prefix !in s.element.hidden && Search(s.chain, a.ns.value.prefix) == a.ns
  }

  /** Names by namespace URI and local part; attributes with their values. */
  datatype Expanded = Expanded(uri: string, name: string, attrs: seq<(string, string, string)>)

  function ExpandAttrs(ctx: Ctx, l: seq<Token>): seq<(string, string, string)> {
    if l == [] || !l[0].Attribute? then []
    else [(if l[0].prefix == "" then "" else Bound(ctx, l[0].prefix), l[0].name, l[0].value)] + ExpandAttrs(ctx, l[1..])
  }

  function SourceAttrs(l: seq<Attr>): seq<(string, string, string)> {
    if l == [] then [] else [(SourceNs(l[0].ns), l[0].name, l[0].value)] + SourceAttrs(l[1..])
  }

  function ExpandTags(l: seq<Tag>): seq<Expanded> {
    if l == [] then []
    else [Expanded(Bound(l[0].ctx, l[0].prefix), l[0].name, ExpandAttrs(l[0].ctx, l[0].attrs))] + ExpandTags(l[1..])
  }

  ghost predicate AllNamesOk(l: seq<Scope>) {
    forall s :: s in l ==> NamesOk(s)
  }

  ghost function SourceNames(cfg: Config, l: seq<Scope>): seq<Expanded>
    requires AllNamesOk(l)
  {
    if l == [] then []
    else
      assert NamesOk(l[0]);
      [Expanded(SourceNs(l[0].element.ns), l[0].element.name,
                SourceAttrs(AttrsAxis(cfg, l[0].element.attrs, l[0].chain[1..], true)))] + SourceNames(cfg, l[1..])
  }

  lemma {:induction false} AttrsExpand(ctx: Ctx, l: seq<Attr>)
    requires forall a :: a in l && a.ns.Some? ==>
             a.ns.value.prefix != "" && Bound(ctx, a.ns.value.prefix) == a.ns.value.href
    ensures ExpandAttrs(ctx, AttrTokens(l)) == SourceAttrs(l)
  {
    if l != [] {
      assert AttrTokens(l)[1..] == AttrTokens(l[1..]);
      AttrsExpand(ctx, l[1..]);
    }
  }

  lemma {:induction false} InsertVisibleMembers(list: seq<Attr>, attrs: seq<Attr>)
    ensures forall a :: a in InsertVisible(list, attrs) <==> a in list || (a in attrs && a.visible)
    decreases attrs
  {
    if attrs != [] {
      assert attrs == [attrs[0]] + attrs[1..];
      InsertVisibleMembers(if attrs[0].visible then Insert(list, attrs[0], AttrBefore) else list, attrs[1..]);
    }
  }

  lemma {:induction false} ImportFrameMembers(list: seq<Attr>, attrs: seq<Attr>)
    ensures forall a :: a in ImportFrame(list, attrs) ==> a in list || IsXmlAttr(a)
    decreases attrs
  {
    if attrs != [] {
      var more := IsXmlAttr(attrs[0]) && !Listed(list, attrs[0]);
      ImportFrameMembers(if more then Insert(list, attrs[0], AttrBefore) else list, attrs[1..]);
    }
  }

  lemma {:induction false} ImportXmlMembers(list: seq<Attr>, chain: Chain)
    ensures forall a :: a in ImportXml(list, chain) ==> a in list || IsXmlAttr(a)
    decreases chain
  {
    if chain != [] {
      ImportFrameMembers(list, chain[0].attrs);
      ImportXmlMembers(ImportFrame(list, chain[0].attrs), chain[1..]);
    }
  }

  /** The start tag names the same element, with the same attributes, as the source. */
  ghost predicate SameNames(cfg: Config, tag: Tag, s: Scope)
    requires NamesOk(s)
  {
    && Bound(tag.ctx, tag.prefix) == SourceNs(s.element.ns) && tag.name == s.element.name
    && ExpandAttrs(tag.ctx, tag.attrs) == SourceAttrs(AttrsAxis(cfg, s.element.attrs, s.chain[1..], true))
  }

  lemma TagExpands(cfg: Config, tag: Tag, s: Scope)
    requires Stands(cfg, tag, s) && NamesOk(s)
    ensures SameNames(cfg, tag, s)
  {
    var attrs, parents := s.element.attrs, s.chain[1..];
    InsertVisibleMembers([], attrs);
    ImportXmlMembers(InsertVisible([], attrs), parents);
    AttrsExpand(tag.ctx, AttrsAxis(cfg, attrs, parents, true));
  }

  lemma {:induction false} TagsExpand(cfg: Config, tags: seq<Tag>, scopes: seq<Scope>)
    requires AllNamesOk(scopes) && |tags| == |scopes|
    requires forall i :: 0 <= i < |tags| ==> NamesOk(scopes[i]) && SameNames(cfg, tags[i], scopes[i])
    ensures ExpandTags(tags) == SourceNames(cfg, scopes)
  {
    if tags != [] {
      assert SameNames(cfg, tags[0], scopes[0]);
      TagsExpand(cfg, tags[1..], scopes[1..]);
    }
  }

  /**
    For a namespace-well-formed document whose shown elements show the namespace nodes they use,
    the output read by a namespace-aware reader has the same elements and attributes, in the
    same namespaces, as the source: prefixes never change meaning on the way.
   */
  lemma ExpandedNamesPreserved(cfg: Config, doc: NodeList)
    requires !cfg.exclusive && AllNamesOk(ScopesOfList(doc, []))
    ensures ExpandTags(Read(CanonDocument(cfg, doc), NEW_READER).elements) == SourceNames(cfg, ScopesOfList(doc, []))
  {
    NamespacesPreserved(cfg, doc);
    var tags, scopes := Read(CanonDocument(cfg, doc), NEW_READER).elements, ScopesOfList(doc, []);
    forall i | 0 <= i < |tags| ensures NamesOk(scopes[i]) && SameNames(cfg, tags[i], scopes[i]) {
      assert scopes[i] in scopes && Stands(cfg, tags[i], scopes[i]);
      TagExpands(cfg, tags[i], scopes[i]);
    }
    TagsExpand(cfg, tags, scopes);
  }
}
