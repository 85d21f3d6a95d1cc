/**
  The canonicalizer as a function: what each routine of c14n.c writes, and what it does to the
  stack of rendered namespaces. The methods of C14nMachine are proved equal to these
  functions; the properties of canonical output are proved about them.
 */
module C14nSpec {
  import opened Ordering
  import opened C14nTree

  datatype Config = Config(exclusive: bool, inclusivePrefixes: seq<string>, withComments: bool)

  datatype Position = Before | Inside | After

  // ----- The stack of rendered namespaces -----

  /** A rendered namespace, with the prefixes hidden at the element it was pushed for. */
  datatype Entry = Entry(ns: Ns, hidden: set<string>)

  /** nsTab/nodeTab up to nsCurEnd, and the window of the previous visible element. */
  datatype Stack = Stack(tab: seq<Entry>, prevStart: nat, prevEnd: nat)

  predicate WindowOk(st: Stack) {
    st.prevStart <= st.prevEnd <= |st.tab|
  }

  const EMPTY_STACK := Stack([], 0, 0)

  function Push(st: Stack, ns: Ns, hidden: set<string>): Stack {
    st.(tab := st.tab + [Entry(ns, hidden)])
  }

  function Shift(st: Stack): Stack {
    st.(prevStart := st.prevEnd, prevEnd := |st.tab|)
  }

  /** The topmost entry for a prefix. */
  function Top(tab: seq<Entry>, p: string): (r: Option<Entry>)
    ensures r.Some? ==> r.value in tab && r.value.ns.prefix == p
    ensures r.None? ==> forall e :: e in tab ==> e.ns.prefix != p
    decreases |tab|
  {
    if tab == [] then None
    else
      assert tab == tab[..|tab| - 1] + [tab[|tab| - 1]];
      if tab[|tab| - 1].ns.prefix == p then Some(tab[|tab| - 1])
      else Top(tab[..|tab| - 1], p)
  }

  /** xmlC14NVisibleNsStackFind: looks below the window only for the undeclared default. */
  predicate Find(st: Stack, ns: Ns)
    requires WindowOk(st)
  {
    var start := if ns == DEFAULT_UNDECLARED then 0 else st.prevStart;
    match Top(st.tab[start..], ns.prefix)
    case Some(e) => e.ns.href == ns.href
    case None => ns == DEFAULT_UNDECLARED
  }

  /** xmlExcC14NVisibleNsStackFind: the whole stack, and the entry must be visible where it was pushed. */
  predicate ExcFind(st: Stack, ns: Ns) {
    match Top(st.tab, ns.prefix)
    case Some(e) => e.ns.href == ns.href && ns.prefix !in e.hidden
    case None => ns == DEFAULT_UNDECLARED
  }

  // ----- Order of declarations and attributes -----

  /** xmlC14NNsCompare(a, b) < 0 */
  predicate NsBefore(a: Ns, b: Ns) {
    StrLess(a.prefix, b.prefix)
  }

  /** xmlC14NAttrsCompare */
  function AttrsCompare(a: Attr, b: Attr): int {
    if a == b then 0
    else if a.ns == b.ns then StrCmp(a.name, b.name)
    else if a.ns.None? then -1
    else if b.ns.None? then 1
    else if a.ns.value.prefix == "" then -1
    else if b.ns.value.prefix == "" then 1
    else
      var ret := StrCmp(a.ns.value.href, b.ns.value.href);
      if ret == 0 then StrCmp(a.name, b.name) else ret
  }

  predicate AttrBefore(a: Attr, b: Attr) {
    AttrsCompare(a, b) < 0
  }

  // ----- Namespace axis, inclusive mode -----

  datatype AxisOut = AxisOut(st: Stack, list: seq<Ns>)

  /** The loop over the namespace axis in xmlC14NProcessNamespacesAxis. */
  function Render(axis: seq<Ns>, out: AxisOut, hidden: set<string>, visible: bool): (r: AxisOut)
    requires WindowOk(out.st)
    ensures WindowOk(r.st) && r.st.prevStart == out.st.prevStart && r.st.prevEnd == out.st.prevEnd
    decreases axis
  {
    if axis == [] then out
    else Render(axis[1..], RenderOne(axis[0], out, hidden, visible), hidden, visible)
  }

  function RenderOne(ns: Ns, out: AxisOut, hidden: set<string>, visible: bool): (r: AxisOut)
    requires WindowOk(out.st)
    ensures WindowOk(r.st) && r.st.prevStart == out.st.prevStart && r.st.prevEnd == out.st.prevEnd
  {
    AxisOut(if visible then Push(out.st, ns, hidden) else out.st,
            if Find(out.st, ns) then out.list else Insert(out.list, ns, NsBefore))
  }

  predicate HasDefault(l: seq<Ns>) {
    exists ns :: ns in l && ns.prefix == ""
  }

  /** xmlC14NProcessNamespacesAxis: the declarations written, in order, and the stack. */
  function InclusiveAxis(st: Stack, chain: Chain, hidden: set<string>, visible: bool): (r: AxisOut)
    requires WindowOk(st)
    ensures WindowOk(r.st) && r.st.prevStart == st.prevStart && r.st.prevEnd == st.prevEnd
  {
    var axis := Axis(chain, hidden);
    var out := Render(axis, AxisOut(st, []), hidden, visible);
    var undeclare := visible && !HasDefault(axis) && !Find(out.st, DEFAULT_UNDECLARED);
    AxisOut(out.st, (if undeclare then [DEFAULT_UNDECLARED] else []) + out.list)
  }

  // ----- Namespace axis, exclusive mode -----

  predicate IsDefaultToken(prefix: string) {
    prefix == "#default" || prefix == ""
  }

  function InclusiveName(prefix: string): string {
    if IsDefaultToken(prefix) then "" else prefix
  }

  /** The bindings of the inclusive prefix list that are rendered as in inclusive mode. */
  function ListedNs(chain: Chain, prefixes: seq<string>, hidden: set<string>): seq<Ns> {
    if prefixes == [] then []
    else
      var ns := Search(chain, InclusiveName(prefixes[0]));
      (if ns.Some? && !IsXmlNs(ns.value) && ns.value.prefix !in hidden then [ns.value] else [])
      + ListedNs(chain, prefixes[1..], hidden)
  }

  /** The binding of the element's own name. */
  function NameNs(chain: Chain, ns: Option<Ns>): Option<Ns> {
    if ns.Some? then ns else Search(chain, "")
  }

  function RenderName(ns: Option<Ns>, out: AxisOut, hidden: set<string>, visible: bool): (r: AxisOut)
    requires WindowOk(out.st)
    ensures WindowOk(r.st) && r.st.prevStart == out.st.prevStart && r.st.prevEnd == out.st.prevEnd
  {
    if ns.None? || IsXmlNs(ns.value) || !visible then out
    else AxisOut(Push(out.st, ns.value, hidden),
                 if ns.value.prefix !in hidden && !ExcFind(out.st, ns.value)
                 then Insert(out.list, ns.value, NsBefore) else out.list)
  }

  /** Attributes whose namespace is looked at in exclusive mode. */
  predicate UsesNs(a: Attr) {
    a.ns.Some? && !IsXmlNs(a.ns.value) && a.visible
  }

  function RenderAttr(a: Attr, out: AxisOut, hidden: set<string>, visible: bool): (r: AxisOut)
    requires WindowOk(out.st)
    ensures WindowOk(r.st) && r.st.prevStart == out.st.prevStart && r.st.prevEnd == out.st.prevEnd
  {
    if !UsesNs(a) then out
    else AxisOut(Push(out.st, a.ns.value, hidden),
                 if !ExcFind(out.st, a.ns.value) && visible then Insert(out.list, a.ns.value, NsBefore) else out.list)
  }

  function RenderAttrs(attrs: seq<Attr>, out: AxisOut, hidden: set<string>, visible: bool): (r: AxisOut)
    requires WindowOk(out.st)
    ensures WindowOk(r.st) && r.st.prevStart == out.st.prevStart && r.st.prevEnd == out.st.prevEnd
    decreases attrs
  {
    if attrs == [] then out
    else RenderAttrs(attrs[1..], RenderAttr(attrs[0], out, hidden, visible), hidden, visible)
  }

  predicate UsesDefaultAttr(attrs: seq<Attr>) {
    exists a :: a in attrs && UsesNs(a) && a.ns.value.prefix == ""
  }

  predicate UtilizesEmptyAttr(attrs: seq<Attr>) {
    exists a :: a in attrs && !UsesNs(a) && a.ns == Some(DEFAULT_UNDECLARED)
  }

  predicate ListsDefault(prefixes: seq<string>) {
    exists p :: p in prefixes && IsDefaultToken(p)
  }

  /** xmlExcC14NProcessNamespacesAxis */
  function ExclusiveAxis(st: Stack, chain: Chain, prefixes: seq<string>, ns: Option<Ns>, attrs: seq<Attr>,
                         hidden: set<string>, visible: bool): (r: AxisOut)
    requires WindowOk(st)
    ensures WindowOk(r.st) && r.st.prevStart == st.prevStart && r.st.prevEnd == st.prevEnd
  {
    var listed := ListedNs(chain, prefixes, hidden);
    var name := NameNs(chain, ns);
    var out1 := Render(listed, AxisOut(st, []), hidden, visible);
    var out2 := RenderName(name, out1, hidden, visible);
    var out3 := RenderAttrs(attrs, out2, hidden, visible);
    var hasEmpty := HasDefault(listed) || (name.Some? && name.value.prefix == "") || UsesDefaultAttr(attrs);
    var utilized := ns.None? || UtilizesEmptyAttr(attrs);
    var undeclare :=
      visible && !hasEmpty &&
      (if utilized && !ListsDefault(prefixes) then !ExcFind(out3.st, DEFAULT_UNDECLARED)
       else ListsDefault(prefixes) && !Find(out3.st, DEFAULT_UNDECLARED));
    AxisOut(out3.st, (if undeclare then [DEFAULT_UNDECLARED] else []) + out3.list)
  }

  function NamespaceAxis(cfg: Config, st: Stack, chain: Chain, e: Node): (r: AxisOut)
    requires e.Element? && WindowOk(st)
    ensures WindowOk(r.st) && r.st.prevStart == st.prevStart && r.st.prevEnd == st.prevEnd
  {
    if cfg.exclusive then ExclusiveAxis(st, chain, cfg.inclusivePrefixes, e.ns, e.attrs, e.hidden, e.visible)
    else InclusiveAxis(st, chain, e.hidden, e.visible)
  }

  // ----- Attribute axis -----

  function InsertVisible(list: seq<Attr>, attrs: seq<Attr>): seq<Attr>
    decreases attrs
  {
    if attrs == [] then list
    else InsertVisible(if attrs[0].visible then Insert(list, attrs[0], AttrBefore) else list, attrs[1..])
  }

  predicate IsXmlAttr(a: Attr) {
    a.ns.Some? && IsXmlNs(a.ns.value)
  }

  /** xmlListSearch(list, a) != NULL */
  predicate Listed(list: seq<Attr>, a: Attr) {
    list != [] && (if AttrBefore(list[0], a) then Listed(list[1..], a) else AttrsCompare(list[0], a) == 0)
  }

  /** The xml: attributes of one omitted ancestor that are not yet in the list. */
  function ImportFrame(list: seq<Attr>, attrs: seq<Attr>): seq<Attr>
    decreases attrs
  {
    if attrs == [] then list
    else
      var more := IsXmlAttr(attrs[0]) && !Listed(list, attrs[0]);
      ImportFrame(if more then Insert(list, attrs[0], AttrBefore) else list, attrs[1..])
  }

  function ImportXml(list: seq<Attr>, chain: Chain): seq<Attr>
    decreases chain
  {
    if chain == [] then list else ImportXml(ImportFrame(list, chain[0].attrs), chain[1..])
  }

  /** xmlC14NProcessAttrsAxis, modes 1.0 and exclusive; `parents` are the element's ancestors. */
  function AttrsAxis(cfg: Config, attrs: seq<Attr>, parents: Chain, visible: bool): seq<Attr> {
    var list := InsertVisible([], attrs);
    if !cfg.exclusive && visible && parents != [] && !parents[0].visible then ImportXml(list, parents) else list
  }

  // ----- Nodes -----

  datatype Out = Out(tokens: seq<Token>, pos: Position)

  function NsPrefix(ns: Option<Ns>): string {
    if ns.Some? then ns.value.prefix else ""
  }

  function DeclTokens(l: seq<Ns>): seq<Token> {
    if l == [] then [] else [Decl(l[0])] + DeclTokens(l[1..])
  }

  function AttrTokens(l: seq<Attr>): seq<Token> {
    if l == [] then [] else [Attribute(NsPrefix(l[0].ns), l[0].name, l[0].value)] + AttrTokens(l[1..])
  }

  function Optional(b: bool, t: Token): seq<Token> {
    if b then [t] else []
  }

  function FrameOf(e: Node): Frame
    requires e.Element?
  {
    Frame(e.nsDefs, e.attrs, e.visible)
  }

  /** The stack the children of an element are processed with. */
  function StackBelow(cfg: Config, st: Stack, chain: Chain, e: Node): (r: Stack)
    requires e.Element? && WindowOk(st)
    ensures WindowOk(r)
  {
    var axis := NamespaceAxis(cfg, st, chain, e);
    if e.visible then Shift(axis.st) else axis.st
  }

  /** Everything up to and including the closing angle bracket of the start tag. */
  function StartTag(cfg: Config, st: Stack, chain: Chain, e: Node): seq<Token>
    requires e.Element? && chain != [] && WindowOk(st)
  {
    Optional(e.visible, Open(NsPrefix(e.ns), e.name))
    + DeclTokens(NamespaceAxis(cfg, st, chain, e).list)
    + AttrTokens(AttrsAxis(cfg, e.attrs, chain[1..], e.visible))
    + Optional(e.visible, Gt)
  }

  /** xmlC14NProcessNode, for a node whose processing succeeds; `chain` are its ancestors. */
  function Canon(cfg: Config, n: Node, chain: Chain, st: Stack, pos: Position, atDoc: bool): Out
    requires WindowOk(st)
    decreases n
  {
    match n
    case Element(name, ns, nsDefs, attrs, children, visible, hidden) =>
      var chain' := [FrameOf(n)] + chain;
      var body := CanonList(cfg, children, chain', StackBelow(cfg, st, chain', n),
                            if visible && atDoc then Inside else pos, atDoc && !visible);
      Out(StartTag(cfg, st, chain', n) + body.tokens + Optional(visible, Close(NsPrefix(ns), name)),
          if visible && atDoc then After else body.pos)
    case Text(content, visible) => Out(Optional(visible, Chars(content)), pos)
    case Comment(content, visible) =>
      Out(Optional(visible && cfg.withComments, CommentTok(pos == After, content, pos == Before)), pos)
    case PI(target, content, visible) =>
      Out(Optional(visible, PITok(pos == After, target, content, pos == Before)), pos)
    case Declaration => Out([], pos)
    case Unexpected => Out([], pos)
  }

  /** xmlC14NProcessNodeList */
  function CanonList(cfg: Config, l: NodeList, chain: Chain, st: Stack, pos: Position, atDoc: bool): Out
    requires WindowOk(st)
    decreases l
  {
    match l
    case Nil => Out([], pos)
    case Cons(n, tail) =>
      var first := Canon(cfg, n, chain, st, pos, atDoc);
      var rest := CanonList(cfg, tail, chain, st, first.pos, atDoc);
      Out(first.tokens + rest.tokens, rest.pos)
  }

  /** xmlC14NExecute on a document with these children. */
  function CanonDocument(cfg: Config, doc: NodeList): seq<Token> {
    CanonList(cfg, doc, [], EMPTY_STACK, Before, true).tokens
  }

  // ----- Documents the run accepts -----

  /** No relative namespace URI and no node of an unexpected kind. */
  predicate Accepted(n: Node, uriOk: string -> bool) {
    match n
    case Element(_, _, nsDefs, _, children, _, _) => UrisOk(nsDefs, uriOk) && AcceptedList(children, uriOk)
    case Unexpected => false
    case _ => true
  }

  predicate AcceptedList(l: NodeList, uriOk: string -> bool) {
    match l
    case Nil => true
    case Cons(n, tail) => Accepted(n, uriOk) && AcceptedList(tail, uriOk)
  }

  predicate UrisOk(defs: seq<Ns>, uriOk: string -> bool) {
    forall ns :: ns in defs && ns.href != "" ==> uriOk(ns.href)
  }

  /** Every node of a document, in document order. */
  function AllNodes(l: NodeList): seq<Node> {
    match l
    case Nil => []
    case Cons(n, tail) => [n] + (if n.Element? then AllNodes(n.children) else []) + AllNodes(tail)
  }

  /** What a node must not be, and must not declare. */
  ghost predicate Harmless(n: Node, uriOk: string -> bool) {
    !n.Unexpected? && (n.Element? ==> forall ns :: ns in n.nsDefs ==> ns.href == "" || uriOk(ns.href))
  }

  /** A document is accepted exactly if every node of it is harmless, however deep it is. */
  lemma {:induction false} AcceptedIff(l: NodeList, uriOk: string -> bool)
    ensures AcceptedList(l, uriOk) <==> forall n :: n in AllNodes(l) ==> Harmless(n, uriOk)
  {
    match l
    case Nil =>
    case Cons(n, tail) =>
      AcceptedIff(tail, uriOk);
      var inside := if n.Element? then AllNodes(n.children) else [];
      if n.Element? { AcceptedIff(n.children, uriOk); }
      assert Accepted(n, uriOk) <==> Harmless(n, uriOk) && forall m :: m in inside ==> Harmless(m, uriOk);
      hide Harmless, Accepted;
      assert AllNodes(l) == [n] + inside + AllNodes(tail);
      assert n in AllNodes(l) && (forall m :: m in inside ==> m in AllNodes(l));
      assert forall m :: m in AllNodes(tail) ==> m in AllNodes(l);
  }
}
