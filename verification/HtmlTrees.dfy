/**
  A document whose tags are balanced, and whose elements do not close one another, is read as the
  tree it was written from.
 */
module HtmlTrees {
  import opened Ordering
  import opened HtmlStack
  import opened HtmlStackSafety
  import opened HtmlContent

  /** Elements with their content, elements without, and characters. */
  datatype Tree = Elem(name: string, kids: Forest) | Leaf(name: string, tail: Tail) | Words(paragraph: bool)
  datatype Forest = Nil | Cons(head: Tree, rest: Forest)

  // ----- Tags and calls -----

  function TreeItems(t: Tree): seq<Item> {
    match t
    case Elem(name, kids) =>
      [Tag(Some(name), Some(name), Greater, false)] + ForestItems(kids) + [EndOf(Some(name))]
    case Leaf(name, tail) => [Tag(Some(name), Some(name), tail, false)]
    case Words(paragraph) => [Chars(paragraph)]
  }

  function ForestItems(f: Forest): seq<Item> {
    match f
    case Nil => []
    case Cons(t, rest) => TreeItems(t) + ForestItems(rest)
  }

  /** The calls a consumer expects: every element is started and ended, its content in between. */
  function TreeEvents(t: Tree): seq<Event> {
    match t
    case Elem(name, kids) => [Start(name)] + ForestEvents(kids) + [End(name)]
    case Leaf(name, _) => [Start(name), End(name)]
    case Words(_) => []
  }

  function ForestEvents(f: Forest): seq<Event> {
    match f
    case Nil => []
    case Cons(t, rest) => TreeEvents(t) + ForestEvents(rest)
  }

  function Max(a: nat, b: nat): nat {
    if a < b then b else a
  }

  function Height(t: Tree): nat {
    match t
    case Elem(_, kids) => 1 + ForestHeight(kids)
    case Leaf(_, _) => 1
    case Words(_) => 0
  }

  function ForestHeight(f: Forest): nat {
    match f
    case Nil => 0
    case Cons(t, rest) => Max(Height(t), ForestHeight(rest))
  }

  // ----- Elements that leave one another alone -----

  /** Ordinary content of a body: no element with a place of its own, and none whose content is raw. */
  predicate Ordinary(name: string) {
    name !in STRUCTURE && name !in HEAD_TAGS && name !in FRAME_TAGS
  }

  /** The names of the tree are ordinary; those with content have an end tag, and only those. */
  predicate TreeFits(cfg: Config, names: set<string>, t: Tree) {
    match t
    case Elem(name, kids) => name in names && Ordinary(name) && name !in cfg.empty && ForestFits(cfg, names, kids)
    case Leaf(name, tail) =>
      name in names && Ordinary(name) && (tail == Slash || (tail == Greater && name in cfg.empty))
    case Words(_) => true
  }

  predicate ForestFits(cfg: Config, names: set<string>, f: Forest) {
    match f
    case Nil => true
    case Cons(t, rest) => TreeFits(cfg, names, t) && ForestFits(cfg, names, rest)
  }

  /** No element of these names closes another, or the body. */
  ghost predicate Peaceful(cfg: Config, names: set<string>) {
    forall a, b :: a in names && (b in names || b == "body") ==> !Closing(cfg, a, b)
  }

  /** A state inside a body whose innermost element is the body or one of these names. */
  ghost predicate InBody(cfg: Config, names: set<string>, s: State, height: nat) {
    && !s.halted && s.names != [] && "body" in s.names && |s.names| > 1 && s.nodes == s.names
    && (Top(s.names).value in names || Top(s.names) == Some("body"))
    && (forall n :: n in names ==> Ordinary(n))
    && (cfg.huge || |s.names| + height <= cfg.maxDepth + 1)
  }

  // ----- One tag -----

  function Opened(s: State, name: string): State {
    s.(names := s.names + [name], nodes := s.nodes + [name], events := s.events + [Start(name)])
  }

  function Told(s: State, events: seq<Event>): State {
    s.(events := s.events + events)
  }

  lemma OpenTag(cfg: Config, names: set<string>, s: State, name: string, height: nat)
    requires Peaceful(cfg, names) && InBody(cfg, names, s, height) && height > 0 && name in names
    ensures Faced(cfg, s, Some(name)) == s && StartTag(cfg, s, name) == (Opened(s, name), false)
  {
    assert !Closing(cfg, name, Top(s.names).value);
    assert AutoClose(cfg, s, name) == s;
    assert Implied(cfg, s, name) == s;
  }

  lemma OpenHandled(cfg: Config, names: set<string>, s: State, name: string, tail: Tail, height: nat)
    requires Peaceful(cfg, names) && InBody(cfg, names, s, height) && height > 0 && name in names
    requires tail != Neither
    ensures Handle(cfg, Spot(s, false), Tag(Some(name), Some(name), tail, false)) ==
            Spot(if tail == Slash || name in cfg.empty then Told(s, [Start(name), End(name)])
                 else Opened(s, name), false)
  {
    hide Closing;
    OpenTag(cfg, names, s, name, height);
    var r := Opened(s, name);
    assert Below(r.names) == s.names && Below(r.nodes) == s.nodes;
    assert s.events + [Start(name)] + [End(name)] == s.events + [Start(name), End(name)];
  }

  lemma CloseHandled(cfg: Config, names: set<string>, s: State, name: string, events: seq<Event>)
    requires name in names && Ordinary(name) && !s.halted && s.names != []
    ensures Handle(cfg, Spot(Told(Opened(s, name), events), false), EndOf(Some(name))) ==
            Spot(Told(s, [Start(name)] + events + [End(name)]), false)
  {
    var r := Told(Opened(s, name), events);
    assert Top(r.names) == Some(name) && MayClose(cfg, r.names, name) && CloseTo(r, name) == r;
    assert Below(r.names) == s.names && Below(r.nodes) == s.nodes;
    assert r.events + [End(name)] == s.events + ([Start(name)] + events + [End(name)]);
  }

  lemma WordsHandled(cfg: Config, names: set<string>, s: State, paragraph: bool, height: nat)
    requires InBody(cfg, names, s, height)
    ensures Handle(cfg, Spot(s, false), Chars(paragraph)) == Spot(s, false)
  {
  }

  // ----- Whole trees -----

  lemma HandleStep(cfg: Config, p: Spot, item: Item, more: seq<Item>)
    requires !p.s.halted
    ensures HandleAll(cfg, p, [item] + more) == HandleAll(cfg, Handle(cfg, p, item), more)
  {
    assert ([item] + more)[1..] == more;
  }

  lemma InBodyInside(cfg: Config, names: set<string>, s: State, name: string, height: nat)
    requires InBody(cfg, names, s, height) && height > 0 && name in names
    ensures InBody(cfg, names, Opened(s, name), height - 1)
  {
    assert "body" in s.names + [name];
  }

  lemma InBodyLower(cfg: Config, names: set<string>, s: State, height: nat, lower: nat, events: seq<Event>)
    requires InBody(cfg, names, s, height) && lower <= height
    ensures InBody(cfg, names, Told(s, events), lower)
  {
  }

  lemma {:induction false} TreeHandled(cfg: Config, names: set<string>, s: State, t: Tree, more: seq<Item>)
    requires Peaceful(cfg, names) && TreeFits(cfg, names, t) && InBody(cfg, names, s, Height(t))
    ensures HandleAll(cfg, Spot(s, false), TreeItems(t) + more) ==
            HandleAll(cfg, Spot(Told(s, TreeEvents(t)), false), more)
    decreases t
  {
    hide HandleAll, Handle, Closing, InBody;
    RunningIn(cfg, names, s, Height(t));
    match t
    case Elem(name, kids) =>
      var first, last := Tag(Some(name), Some(name), Greater, false), EndOf(Some(name));
      var inside := Opened(s, name);
      assert TreeItems(t) + more == [first] + (ForestItems(kids) + ([last] + more));
      HandleStep(cfg, Spot(s, false), first, ForestItems(kids) + ([last] + more));
      OpenHandled(cfg, names, s, name, Greater, Height(t));
      InBodyInside(cfg, names, s, name, Height(t));
      ForestHandled(cfg, names, inside, kids, [last] + more);
      var after := Told(inside, ForestEvents(kids));
      RunningIn(cfg, names, inside, ForestHeight(kids));
      HandleStep(cfg, Spot(after, false), last, more);
      CloseHandled(cfg, names, s, name, ForestEvents(kids));
    case Leaf(name, tail) =>
      OpenHandled(cfg, names, s, name, tail, Height(t));
      HandleStep(cfg, Spot(s, false), Tag(Some(name), Some(name), tail, false), more);
    case Words(paragraph) =>
      WordsHandled(cfg, names, s, paragraph, Height(t));
      HandleStep(cfg, Spot(s, false), Chars(paragraph), more);
      assert Told(s, []) == s by { assert s.events + [] == s.events; }
  }

  lemma RunningIn(cfg: Config, names: set<string>, s: State, height: nat)
    requires InBody(cfg, names, s, height)
    ensures !s.halted && s.names != []
  {
  }

  lemma {:induction false} ForestHandled(cfg: Config, names: set<string>, s: State, f: Forest, more: seq<Item>)
    requires Peaceful(cfg, names) && ForestFits(cfg, names, f) && InBody(cfg, names, s, ForestHeight(f))
    ensures HandleAll(cfg, Spot(s, false), ForestItems(f) + more) ==
            HandleAll(cfg, Spot(Told(s, ForestEvents(f)), false), more)
    decreases f
  {
    hide HandleAll, Peaceful, InBody, TreeItems, TreeEvents, TreeFits;
    match f
    case Nil =>
      assert ForestItems(f) + more == more;
      assert s.events + [] == s.events;
    case Cons(t, rest) =>
      assert ForestItems(f) + more == TreeItems(t) + (ForestItems(rest) + more);
      InBodyLower(cfg, names, s, ForestHeight(f), Height(t), []);
      InBodyLower(cfg, names, s, ForestHeight(f), ForestHeight(rest), TreeEvents(t));
      assert s.events + [] == s.events;
      TreeHandled(cfg, names, s, t, ForestItems(rest) + more);
      var after := Told(s, TreeEvents(t));
      ForestHandled(cfg, names, after, rest, more);
      assert s.events + TreeEvents(t) + ForestEvents(rest) == s.events + (TreeEvents(t) + ForestEvents(rest));
  }

  // ----- Documents -----

  /** Nothing but html and body is open, and nothing was met before. */
  function BodyOnly(): State {
    State(["html", "body"], ["html", "body"], 10, 0, false, [Start("html"), Start("body")])
  }

  /** A document without structure of its own: html and body are implied by its first tag. */
  lemma FirstTag(cfg: Config, name: string, tail: Tail)
    requires !cfg.noImplied && cfg.omitted && Ordinary(name) && (cfg.huge || cfg.maxDepth >= 2)
    requires tail != Neither && !Closing(cfg, name, "body")
    ensures var item := Tag(Some(name), Some(name), tail, false);
            Handle(cfg, Spot(INITIAL, false), item) == Handle(cfg, Spot(BodyOnly(), false), item)
  {
    hide Closing;
    var b := BodyOnly();
    assert AutoClose(cfg, INITIAL, name) == INITIAL && AutoClose(cfg, b, name) == b;
    assert Implied(cfg, INITIAL, name) == b && Implied(cfg, b, name) == b by { ImpliedBody(cfg, name); }
  }

  lemma ImpliedBody(cfg: Config, name: string)
    requires !cfg.noImplied && cfg.omitted && Ordinary(name) && (cfg.huge || cfg.maxDepth >= 2)
    ensures Implied(cfg, INITIAL, name) == BodyOnly() && Implied(cfg, BodyOnly(), name) == BodyOnly()
  {
    var r := ImpliedRoot(cfg, INITIAL);
    assert r == State(["html"], ["html"], 1, 0, false, [Start("html")]);
    assert ["html"] + ["body"] == ["html", "body"];
    assert [Start("html")] + [Start("body")] == [Start("html"), Start("body")];
    assert BodyOnly().names[1] == "body";
  }

  lemma BodyClosed(events: seq<Event>)
    ensures CloseAll(Told(BodyOnly(), events)).events ==
            [Start("html"), Start("body")] + events + [End("body"), End("html")]
  {
    var s := Told(BodyOnly(), events);
    var r := Close(s);
    assert r.names == ["html"] && Close(r).names == [];
    assert CloseAll(s) == CloseAll(r) == CloseAll(Close(r)) == Close(r);
    assert s.events + [End("body")] + [End("html")] == s.events + [End("body"), End("html")];
  }

  /**
    A balanced document that starts with an element: the loop ends, and the calls are the events
    of the tree inside the implied html and body.
   */
  lemma TreeParses(cfg: Config, names: set<string>, f: Forest) returns (k: nat)
    requires !cfg.noImplied && cfg.omitted && Peaceful(cfg, names) && ForestFits(cfg, names, f)
    requires f.Cons? && !f.head.Words? && (forall n :: n in names ==> Ordinary(n))
    requires cfg.huge || ForestHeight(f) + 1 <= cfg.maxDepth
    ensures var r := Rounds(cfg, Begin(INITIAL, ForestItems(f)), k);
            && r.done && r.s.names == []
            && r.s.events == [Start("html"), Start("body")] + ForestEvents(f) + [End("body"), End("html")]
  {
    hide Rounds, HandleAll, Handle, Closing, CloseAll;
    var items, b := ForestItems(f), BodyOnly();
    k := LoopHandlesAll(cfg, items);
    var name := f.head.name;
    var first := Tag(Some(name), Some(name), if f.head.Elem? then Greater else f.head.tail, false);
    assert TreeItems(f.head)[0] == first;
    assert items == [first] + items[1..];
    FirstTag(cfg, name, first.tail);
    HandleStep(cfg, Spot(INITIAL, false), first, items[1..]);
    HandleStep(cfg, Spot(b, false), first, items[1..]);
    assert b.names[1] == "body";
    ForestHandled(cfg, names, b, f, []);
    assert items + [] == items;
    var end := Told(b, ForestEvents(f));
    NothingLeft(cfg, end);
    BodyClosed(ForestEvents(f));
    ClosedAll(end);
  }

  lemma NothingLeft(cfg: Config, s: State)
    ensures HandleAll(cfg, Spot(s, false), []) == Spot(s, false)
  {
  }

  // ----- Where the loop is stuck -----

  /**
    Without implied tags, a start tag may close a script or style with everything around it: the
    loop still takes itself to be inside of it, and nothing of the rest of the document is read.
   */
  lemma {:induction false} StuckForGood(cfg: Config, s: State, items: seq<Item>)
    requires s.names == [] && !s.halted
    ensures var r := HandleAll(cfg, Spot(s, true), items);
            r.stuck && r.s.names == [] && r.s.events == s.events
    decreases |items|
  {
    if items != [] {
      var p := Handle(cfg, Spot(s, true), items[0]);
      StuckForGood(cfg, p.s, items[1..]);
    }
  }

  /** A table in which body closes style, like that of the library. */
  lemma StyleSwallowsDocument(cfg: Config, items: seq<Item>)
    requires cfg.noImplied && cfg.huge && Closing(cfg, "body", "style") && !Closing(cfg, "style", "style")
    requires "style" !in cfg.empty
    ensures var tags := [Tag(Some("style"), Some("style"), Greater, false),
                         Tag(Some("body"), Some("body"), Greater, false)];
            HandleAll(cfg, Spot(INITIAL, false), tags + items).s.events == [Start("style"), End("style")]
  {
    hide Closing;
    var style, body := Tag(Some("style"), Some("style"), Greater, false),
        Tag(Some("body"), Some("body"), Greater, false);
    var s1 := State(["style"], ["style"], 1, 0, false, [Start("style")]);
    assert Handle(cfg, Spot(INITIAL, false), style) == Spot(s1, false);
    var s2 := Close(s1);
    assert s2.names == [] && AutoClose(cfg, s2, "body") == s2 && AutoClose(cfg, s1, "body") == s2;
    assert [style, body] + items == [style] + ([body] + items);
    HandleStep(cfg, Spot(INITIAL, false), style, [body] + items);
    HandleStep(cfg, Spot(s1, false), body, items);
    assert Handle(cfg, Spot(s1, false), body) == Spot(s2, true);
    StuckForGood(cfg, s2, items);
    assert [Start("style")] + [End("style")] == [Start("style"), End("style")];
  }
}
