/**
  The open-element stack of the HTML parser: start tags that close other elements, implied
  html, head, body and p elements, priorities of end tags, and tags that are discarded.
 */
module HtmlStack {
  import opened Ordering

  // ----- Tables and options -----

  /** Groups of names, each ended by None; the first name of a group closes the others. */
  type CloseTable = seq<Option<string>>

  datatype Config = Config(
    closes: CloseTable,
    priorities: seq<(string, int)>,
    otherwise: int,        // the priority of names that are not listed
    empty: set<string>,    // elements without content
    noImplied: bool,       // HTML_PARSE_NOIMPLIED
    omitted: bool,         // htmlOmittedDefaultValue
    maxDepth: nat,         // xmlParserMaxDepth
    huge: bool)            // XML_PARSE_HUGE

  /** Where the group at or after `i` ends. */
  function GroupEnd(t: CloseTable, i: nat): (e: nat)
    ensures i <= e && (i <= |t| ==> e <= |t|)
    ensures forall k :: i <= k < e ==> k < |t| && t[k].Some?
    ensures e < |t| ==> t[e].None?
    decreases |t| - i
  {
    if i < |t| && t[i].Some? then GroupEnd(t, i + 1) else i
  }

  /** `old` is one of the names from `i` to the end of the group. */
  predicate Listed(t: CloseTable, i: nat, oldtag: string)
    decreases |t| - i
  {
    i < |t| && t[i].Some? && (t[i].value == oldtag || Listed(t, i + 1, oldtag))
  }

  /** The plain scan: the first group for `newtag` decides; an empty group ends the table. */
  predicate ClosesFrom(t: CloseTable, i: nat, newtag: string, oldtag: string)
    decreases |t| - i
  {
    i < |t| && t[i].Some? &&
    if t[i].value == newtag then Listed(t, i + 1, oldtag) else ClosesFrom(t, GroupEnd(t, i) + 1, newtag, oldtag)
  }

  /** The scan over the first `k` groups only. */
  predicate ClosesWithin(t: CloseTable, i: nat, k: nat, newtag: string, oldtag: string)
    decreases k
  {
    k > 0 && i < |t| && t[i].Some? &&
    if t[i].value == newtag then Listed(t, i + 1, oldtag)
    else ClosesWithin(t, GroupEnd(t, i) + 1, k - 1, newtag, oldtag)
  }

  const INDEX_SIZE := 100

  /** htmlCheckAutoClose: the index holds all but its last entry. */
  predicate Closing(cfg: Config, newtag: string, oldtag: string) {
    ClosesWithin(cfg.closes, 0, INDEX_SIZE - 1, newtag, oldtag)
  }

  /** htmlGetEndPriority */
  function PriorityIn(rows: seq<(string, int)>, otherwise: int, name: string): int {
    if rows == [] then otherwise
    else if rows[0].0 == name then rows[0].1
    else PriorityIn(rows[1..], otherwise, name)
  }

  function Priority(cfg: Config, name: string): int {
    PriorityIn(cfg.priorities, cfg.otherwise, name)
  }

  // ----- The state -----

  /** SAX calls; Dropped is a pop that is not reported. */
  datatype Event = Start(name: string) | End(name: string) | Dropped(name: string)

  datatype State = State(
    names: seq<string>,    // nameTab
    nodes: seq<string>,    // the names of the elements on the node stack
    html: nat,
    depth: nat,
    halted: bool,
    events: seq<Event>)

  const INITIAL := State([], [], 1, 0, false, [])

  function Top(names: seq<string>): Option<string> {
    if names == [] then None else Some(names[|names| - 1])
  }

  function Below(names: seq<string>): seq<string> {
    if names == [] then [] else names[..|names| - 1]
  }

  /** The node stack takes another element. */
  predicate NodeFits(cfg: Config, s: State) {
    cfg.huge || |s.nodes| <= cfg.maxDepth
  }

  function Level(html: nat, name: string): nat {
    if html < 3 && name == "head" then 3
    else if html < 10 && name == "body" then 10
    else html
  }

  /** htmlnamePush and startElement. */
  function Push(cfg: Config, s: State, name: string): State {
    State(s.names + [name], if NodeFits(cfg, s) then s.nodes + [name] else s.nodes,
          Level(s.html, name), s.depth, s.halted || !NodeFits(cfg, s), s.events + [Start(name)])
  }

  /** endElement for the innermost element, and htmlnamePop. */
  function Close(s: State): State
    requires s.names != []
  {
    s.(names := Below(s.names), nodes := Below(s.nodes), events := s.events + [End(Top(s.names).value)])
  }

  /** nodePop and htmlnamePop without a call. */
  function Drop(s: State): State
    requires s.names != []
  {
    s.(names := Below(s.names), nodes := Below(s.nodes), events := s.events + [Dropped(Top(s.names).value)])
  }

  // ----- Operations -----

  /** htmlAutoClose for a tag. */
  function AutoClose(cfg: Config, s: State, newtag: string): State
    decreases |s.names|
  {
    if s.names != [] && Closing(cfg, newtag, Top(s.names).value) then AutoClose(cfg, Close(s), newtag) else s
  }

  /** htmlAutoCloseOnEnd */
  function CloseAll(s: State): State
    decreases |s.names|
  {
    if s.names == [] then s else CloseAll(Close(s))
  }

  const HEAD_TAGS := {"script", "style", "meta", "link", "title", "base"}
  const FRAME_TAGS := {"noframes", "frame", "frameset"}

  function ImpliedRoot(cfg: Config, s: State): State {
    if s.names == [] then Push(cfg, s, "html") else s
  }

  /** htmlCheckImplied */
  function Implied(cfg: Config, s: State, newtag: string): State {
    if cfg.noImplied || !cfg.omitted || newtag == "html" then s
    else
      var r := ImpliedRoot(cfg, s);
      if newtag == "body" || newtag == "head" then r
      else if |r.names| <= 1 && newtag in HEAD_TAGS then
        if r.html >= 3 then r else Push(cfg, r, "head")
      else if newtag in FRAME_TAGS || r.html >= 10 || "body" in r.names || "head" in r.names then r
      else Push(cfg, r, "body")
  }

  function PushParagraph(cfg: Config, s: State): State {
    Push(cfg, Implied(cfg, AutoClose(cfg, s, "p"), "p"), "p")
  }

  /** htmlCheckParagraph */
  function Paragraph(cfg: Config, s: State): State {
    if s.names == [] || (cfg.omitted && Top(s.names).value in {"html", "head"}) then PushParagraph(cfg, s) else s
  }

  function Count(names: seq<string>, name: string): nat {
    if names == [] then 0 else (if names[0] == name then 1 else 0) + Count(names[1..], name)
  }

  /** How often a start tag is found misplaced. */
  function Misplaced(names: seq<string>, name: string): nat {
    if name == "html" then (if names != [] then 1 else 0)
    else if name == "head" then (if |names| != 1 then 1 else 0)
    else if name == "body" then Count(names, "body")
    else 0
  }

  /** htmlParseStartTag: the state, and whether the tag was discarded. */
  function StartTag(cfg: Config, s: State, name: string): (State, bool) {
    var r := Implied(cfg, AutoClose(cfg, s, name), name);
    var m := Misplaced(r.names, name);
    if m > 0 then (r.(depth := r.depth + m), true) else (Push(cfg, r, name), false)
  }

  /** The scan of htmlAutoCloseOnClose: an element of higher priority is in the way. */
  predicate MayClose(cfg: Config, names: seq<string>, name: string) {
    names != [] &&
    (Top(names).value == name ||
     (Priority(cfg, Top(names).value) <= Priority(cfg, name) && MayClose(cfg, Below(names), name)))
  }

  function CloseTo(s: State, name: string): State
    decreases |s.names|
  {
    if s.names == [] || Top(s.names).value == name then s else CloseTo(Close(s), name)
  }

  /** htmlAutoCloseOnClose */
  function AutoCloseOnClose(cfg: Config, s: State, name: string): State {
    if MayClose(cfg, s.names, name) then CloseTo(s, name) else s
  }

  const STRUCTURE := {"html", "body", "head"}

  /** htmlParseEndTag: the state, and whether the element was closed. */
  function EndTag(cfg: Config, s: State, name: string): (State, bool) {
    if s.depth > 0 && name in STRUCTURE then (s.(depth := s.depth - 1), false)
    else if name !in s.names then (s, false)
    else
      var r := AutoCloseOnClose(cfg, s, name);
      if Top(r.names) == Some(name) then (Close(r), true) else (r, false)
  }

  // ----- The content loop -----

  /** What follows the attributes of a start tag. */
  datatype Tail = Slash | Greater | Neither

  /**
    A piece of input that one round of the loop consumes, as the lexer sees it. `face` is the
    name read ahead after "<", `name` the name the tag is parsed with; `text` says that a
    misconstructed tag is kept as text, `paragraph` that characters are not ignorable.
   */
  datatype Item =
    | EndOf(closing: Option<string>)
    | Tag(face: Option<string>, name: Option<string>, tail: Tail, text: bool)
    | Chars(paragraph: bool)
    | Quiet

  /** What htmlParseElementInternal does once the start tag is parsed. */
  function Finish(cfg: Config, s: State, tail: Tail): State {
    if s.names == [] then s
    else if s.halted || tail == Neither then Drop(s)
    else if tail == Slash || Top(s.names).value in cfg.empty then Close(s)
    else s
  }

  /** htmlParseElementInternal */
  function Element(cfg: Config, s: State, item: Item): State
    requires item.Tag?
  {
    match item.name
    case None => if item.text then Paragraph(cfg, s) else s
    case Some(name) => Finish(cfg, StartTag(cfg, s, name).0, item.tail)
  }

  /** The variables of htmlParseContentInternal; a halted parser has no input left. */
  datatype Loop = Loop(s: State, items: seq<Item>, current: Option<string>, level: nat, done: bool)

  /** The current element was closed since it was noted. */
  predicate Stale(l: Loop) {
    l.s.names != [] && l.level >= |l.s.names| && l.current != Top(l.s.names)
  }

  function Note(l: Loop): Loop {
    l.(current := Top(l.s.names), level := |l.s.names|)
  }

  /** The loop with a new state after consuming an item. */
  function Consume(l: Loop, s: State): Loop
    requires l.items != []
  {
    l.(s := s, items := if s.halted then [] else l.items[1..])
  }

  predicate Preclosed(cfg: Config, l: Loop) {
    && l.items != [] && l.items[0].Tag? && l.items[0].face.Some? && l.s.names != []
    && Closing(cfg, l.items[0].face.value, Top(l.s.names).value)
  }

  /** One round of htmlParseContentInternal. */
  function Round(cfg: Config, l: Loop): Loop {
    if l.done || l.s.halted then l.(done := true)
    else if l.items != [] && l.items[0].EndOf? then
      match l.items[0].closing
      case None => Consume(l, l.s)
      case Some(name) =>
        var (s, closed) := EndTag(cfg, l.s, name);
        if closed && (l.current.Some? || s.names == []) then Note(Consume(l, s)) else Consume(l, s)
    else if Preclosed(cfg, l) then l.(s := AutoClose(cfg, l.s, l.items[0].face.value))
    else if Stale(l) then Note(l)
    else if l.items == [] then l.(s := CloseAll(l.s), done := true)
    else if l.current == Some("script") || l.current == Some("style") then Consume(l, l.s)
    else
      match l.items[0]
      case Tag(_, _, _, _) => Note(Consume(l, Element(cfg, l.s, l.items[0])))
      case Chars(paragraph) => Consume(l, if paragraph then Paragraph(cfg, l.s) else l.s)
      case _ => Consume(l, l.s)
  }

  /** The loop before its first round. */
  function Begin(s: State, items: seq<Item>): Loop {
    Loop(s, items, Top(s.names), |s.names|, false)
  }
}
