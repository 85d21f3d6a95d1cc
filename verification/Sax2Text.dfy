/**
  Character data in the SAX2 tree builder: consecutive chunks become one text node, appended in
  place with the help of two fields that remember its length and its capacity.
 */
module Sax2Text {
  import opened Ordering

  // ----- What the events mean -----

  /** A child of an element under construction; texts are numbered in order of creation. */
  datatype Child = TextChild(k: nat) | CDataChild | Leaf | Nested

  /** The children of the open elements, innermost last, and the content of every text. */
  datatype Builder = Builder(stack: seq<seq<Child>>, bytes: seq<seq<Byte>>)

  /**
    Open and Close are elements, Pop is a nodePop without a call, Text a chunk of characters,
    CData a CDATA section, Node any other child, Splice text copied from an entity.
   */
  datatype Event = Open | Close | Pop | Text(chunk: seq<Byte>) | CData | Node | Splice(chunk: seq<Byte>)

  function Top(stack: seq<seq<Child>>): seq<Child>
    requires stack != []
  {
    stack[|stack| - 1]
  }

  function AddChild(stack: seq<seq<Child>>, c: Child): seq<seq<Child>>
    requires stack != []
  {
    stack[|stack| - 1 := Top(stack) + [c]]
  }

  /** The text that the next chunk belongs to. */
  function OpenText(stack: seq<seq<Child>>): Option<nat> {
    if stack == [] || Top(stack) == [] then None
    else match Top(stack)[|Top(stack)| - 1]
         case TextChild(k) => Some(k)
         case _ => None
  }

  /** A chunk goes to the open text of the innermost element, or starts one. */
  function AddText(b: Builder, chunk: seq<Byte>): Builder {
    if b.stack == [] then b
    else
      match OpenText(b.stack)
      case Some(k) => if k < |b.bytes| then b.(bytes := b.bytes[k := b.bytes[k] + chunk]) else b
      case None => Builder(AddChild(b.stack, TextChild(|b.bytes|)), b.bytes + [chunk])
  }

  function Step(b: Builder, e: Event): Builder {
    match e
    case Open => b.(stack := (if b.stack == [] then [] else AddChild(b.stack, Nested)) + [[]])
    case Close => if b.stack == [] then b else b.(stack := b.stack[..|b.stack| - 1])
    case Pop => if b.stack == [] then b else b.(stack := b.stack[..|b.stack| - 1])
    case Text(chunk) => AddText(b, chunk)
    case Node => if b.stack == [] then b else b.(stack := AddChild(b.stack, Leaf))
    case CData =>
      if b.stack == [] || (Top(b.stack) != [] && Top(b.stack)[|Top(b.stack)| - 1] == CDataChild) then b
      else b.(stack := AddChild(b.stack, CDataChild))
    case Splice(chunk) => AddText(b, chunk)
  }

  function Run(events: seq<Event>): Builder {
    if events == [] then Builder([], [])
    else Step(Run(events[..|events| - 1]), events[|events| - 1])
  }

  predicate IsText(e: Event) {
    e.Text? || e.Splice?
  }

  /** The chunks since the last event that was not text, put together; None if there are none. */
  function Trailing(events: seq<Event>): Option<seq<Byte>> {
    if events == [] || !IsText(events[|events| - 1]) then None
    else
      var chunk := events[|events| - 1].chunk;
      match Trailing(events[..|events| - 1])
      case None => Some(chunk)
      case Some(before) => Some(before + chunk)
  }

  /** The children of every element but the innermost end with an element; texts are numbered. */
  ghost predicate WellFormed(b: Builder) {
    && (forall i :: 0 <= i < |b.stack| - 1 ==> b.stack[i] != [] && b.stack[i][|b.stack[i]| - 1] == Nested)
    && (OpenText(b.stack).Some? ==> OpenText(b.stack).value < |b.bytes|)
  }

  /** What the open text holds. */
  function OpenBytes(b: Builder): Option<seq<Byte>> {
    match OpenText(b.stack)
    case Some(k) => if k < |b.bytes| then Some(b.bytes[k]) else None
    case None => None
  }

  lemma StepWellFormed(b: Builder, e: Event)
    requires WellFormed(b)
    ensures WellFormed(Step(b, e))
    ensures Step(b, e).stack != [] ==>
      OpenBytes(Step(b, e)) ==
        if !IsText(e) then None
        else if OpenBytes(b).Some? then Some(OpenBytes(b).value + e.chunk) else Some(e.chunk)
    ensures |b.bytes| <= |Step(b, e).bytes| <= |b.bytes| + (if IsText(e) && OpenText(b.stack).None? then 1 else 0)
    ensures forall k :: 0 <= k < |b.bytes| && (!IsText(e) || OpenText(b.stack) != Some(k)) ==>
              Step(b, e).bytes[k] == b.bytes[k]
    ensures b.stack == [] && e != Open ==> Step(b, e) == b
  {
  }

  /**
    After every run of events, the innermost element ends with text exactly if the last event was
    text, and that text is what came since the last event that was not.
   */
  lemma {:induction false} TextIsConcatenation(events: seq<Event>)
    ensures WellFormed(Run(events))
    ensures Run(events).stack != [] ==> OpenBytes(Run(events)) == Trailing(events)
  {
    hide Step, WellFormed;
    if events == [] {
      EmptyRun();
    } else {
      var before := events[..|events| - 1];
      TextIsConcatenation(before);
      StepWellFormed(Run(before), events[|events| - 1]);
      if IsText(events[|events| - 1]) && Run(before).stack == [] {
        TextKeepsStack(Run(before), events[|events| - 1]);
      }
    }
  }

  lemma EmptyRun()
    ensures WellFormed(Builder([], []))
  {
  }

  lemma TextKeepsStack(b: Builder, e: Event)
    requires IsText(e) && b.stack == []
    ensures Step(b, e).stack == []
  {
  }

  // ----- Documents -----

  /** What an element holds, in document order; a chunk is copied if it comes from an entity. */
  datatype Tree = Elem(kids: Forest) | Chunk(text: seq<Byte>, copied: bool) | Section | Other
  datatype Forest = Nil | Cons(head: Tree, rest: Forest)

  /** The calls for it. */
  function TreeCalls(t: Tree): seq<Event> {
    match t
    case Elem(kids) => [Open] + ForestCalls(kids) + [Close]
    case Chunk(text, copied) => [if copied then Splice(text) else Text(text)]
    case Section => [CData]
    case Other => [Node]
  }

  function ForestCalls(f: Forest): seq<Event> {
    match f
    case Nil => []
    case Cons(t, rest) => TreeCalls(t) + ForestCalls(rest)
  }

  /** A kind of child. */
  datatype Shape = AText | ASection | ALeaf | AnElement

  function ShapeOf(c: Child): Shape {
    match c
    case TextChild(_) => AText
    case CDataChild => ASection
    case Leaf => ALeaf
    case Nested => AnElement
  }

  function Shapes(cs: seq<Child>): seq<Shape> {
    seq(|cs|, i requires 0 <= i < |cs| => ShapeOf(cs[i]))
  }

  function LastShape(cs: seq<Child>): Option<Shape> {
    if cs == [] then None else Some(ShapeOf(cs[|cs| - 1]))
  }

  function TreeShape(t: Tree): Shape {
    match t
    case Elem(_) => AnElement
    case Chunk(_, _) => AText
    case Section => ASection
    case Other => ALeaf
  }

  /** The children that come of it: texts next to each other are one, and so are CDATA sections. */
  function Merged(last: Option<Shape>, f: Forest): seq<Shape>
    decreases f
  {
    match f
    case Nil => []
    case Cons(t, rest) =>
      var s := TreeShape(t);
      if (s == AText || s == ASection) && last == Some(s) then Merged(last, rest) else [s] + Merged(Some(s), rest)
  }

  /** The innermost element has these children more; the others are as they were. */
  ghost predicate Gained(b: Builder, r: Builder, more: seq<Shape>) {
    && b.stack != [] && |r.stack| == |b.stack| && r.stack[..|r.stack| - 1] == b.stack[..|b.stack| - 1]
    && Shapes(Top(r.stack)) == Shapes(Top(b.stack)) + more
  }

  lemma RunMore(before: seq<Event>, e: Event)
    ensures Run(before + [e]) == Step(Run(before), e)
  {
    assert (before + [e])[..|before|] == before;
  }

  lemma ShapesMore(cs: seq<Child>, c: Child)
    ensures Shapes(cs + [c]) == Shapes(cs) + [ShapeOf(c)]
  {
  }

  lemma GainedLast(b: Builder, r: Builder, more: seq<Shape>)
    requires Gained(b, r, more)
    ensures LastShape(Top(r.stack)) == if more == [] then LastShape(Top(b.stack)) else Some(more[|more| - 1])
  {
    var cs, ds := Top(b.stack), Top(r.stack);
    assert |Shapes(ds)| == |ds| && |Shapes(cs)| == |cs|;
    if ds != [] { assert Shapes(ds)[|ds| - 1] == ShapeOf(ds[|ds| - 1]); }
    if more == [] && cs != [] { assert Shapes(cs)[|cs| - 1] == ShapeOf(cs[|cs| - 1]); }
  }

  lemma GainedMore(b: Builder, r: Builder, s: Builder, m: seq<Shape>, n: seq<Shape>)
    requires Gained(b, r, m) && Gained(r, s, n)
    ensures Gained(b, s, m + n)
  {
  }

  /** A child that is no element. */
  lemma SimpleStep(b: Builder, t: Tree)
    requires b.stack != [] && !t.Elem?
    ensures Gained(b, Step(b, TreeCalls(t)[0]), Merged(LastShape(Top(b.stack)), Cons(t, Nil)))
  {
    var cs := Top(b.stack);
    assert Shapes(cs) + [] == Shapes(cs);
    ShapesMore(cs, TextChild(|b.bytes|));
    ShapesMore(cs, CDataChild);
    ShapesMore(cs, Leaf);
  }

  lemma OpenStep(b: Builder)
    requires b.stack != []
    ensures var r := Step(b, Open);
            r.stack != [] && Top(r.stack) == [] && Gained(b, Step(r, Close), [AnElement])
  {
    ShapesMore(Top(b.stack), Nested);
    var r := Step(b, Open);
    assert r.stack[..|r.stack| - 1] == AddChild(b.stack, Nested);
  }

  lemma CloseAfter(b: Builder, r: Builder, more: seq<Shape>)
    requires Gained(b, r, more)
    ensures Step(r, Close).stack == Step(b, Close).stack
  {
  }

  lemma {:induction false} TreeRun(before: seq<Event>, t: Tree)
    requires Run(before).stack != []
    ensures Gained(Run(before), Run(before + TreeCalls(t)), Merged(LastShape(Top(Run(before).stack)), Cons(t, Nil)))
    decreases t
  {
    hide Run, Step, Gained, Shapes;
    var b := Run(before);
    if t.Elem? {
      var inside := before + [Open];
      RunMore(before, Open);
      OpenStep(b);
      ForestRun(inside, t.kids);
      var r := Run(inside + ForestCalls(t.kids));
      CloseAfter(Run(inside), r, Merged(LastShape(Top(Run(inside).stack)), t.kids));
      RunMore(inside + ForestCalls(t.kids), Close);
      assert before + TreeCalls(t) == inside + ForestCalls(t.kids) + [Close];
      SameStack(b, Step(Run(inside), Close), Step(r, Close), [AnElement]);
      assert [AnElement] + [] == [AnElement];
    } else {
      RunMore(before, TreeCalls(t)[0]);
      assert before + TreeCalls(t) == before + [TreeCalls(t)[0]];
      SimpleStep(b, t);
    }
  }

  lemma SameStack(b: Builder, r: Builder, s: Builder, more: seq<Shape>)
    requires Gained(b, r, more) && r.stack == s.stack
    ensures Gained(b, s, more)
  {
  }

  /**
    The calls for the content of an element give it the children of that content, however deep
    it is nested, and change nothing around it.
   */
  lemma {:induction false} ForestRun(before: seq<Event>, f: Forest)
    requires Run(before).stack != []
    ensures Gained(Run(before), Run(before + ForestCalls(f)), Merged(LastShape(Top(Run(before).stack)), f))
    decreases f
  {
    hide Run, Gained, Shapes, Merged, LastShape;
    MergedNone(LastShape(Top(Run(before).stack)));
    match f
    case Nil =>
      assert before + [] == before;
      NothingGained(Run(before));
    case Cons(t, rest) =>
      var between := before + TreeCalls(t);
      var last := LastShape(Top(Run(before).stack));
      TreeRun(before, t);
      StackKept(Run(before), Run(between), Merged(last, Cons(t, Nil)));
      GainedLast(Run(before), Run(between), Merged(last, Cons(t, Nil)));
      ForestRun(between, rest);
      assert before + ForestCalls(f) == between + ForestCalls(rest);
      GainedMore(Run(before), Run(between), Run(between + ForestCalls(rest)), Merged(last, Cons(t, Nil)),
                 Merged(LastShape(Top(Run(between).stack)), rest));
      MergedSplit(last, t, rest);
  }

  lemma MergedNone(last: Option<Shape>)
    ensures Merged(last, Nil) == []
  {
  }

  lemma MergedSplit(last: Option<Shape>, t: Tree, rest: Forest)
    ensures var m := Merged(last, Cons(t, Nil));
            Merged(last, Cons(t, rest)) == m + Merged(if m == [] then last else Some(m[|m| - 1]), rest)
  {
  }

  lemma NothingGained(b: Builder)
    requires b.stack != []
    ensures Gained(b, b, [])
  {
    hide Shapes;
    var s := Shapes(Top(b.stack));
    assert s + [] == s;
  }

  lemma StackKept(b: Builder, r: Builder, more: seq<Shape>)
    requires Gained(b, r, more)
    ensures r.stack != []
  {
  }

  // ----- The limit on the length of a text -----

  const MAX_TEXT := 10000000

  /** The tree, whether the accelerator is on, and whether an error has switched the calls off. */
  datatype Live = Live(b: Builder, on: bool, failed: bool)

  const FRESH := Live(Builder([], []), false, false)

  /** The chunk would make the text longer than the limit; nobody looks when the accelerator is off. */
  predicate Exceeds(huge: bool, l: Live, chunk: seq<Byte>) {
    l.on && !huge && OpenBytes(l.b).Some? && |OpenBytes(l.b).value| + |chunk| > MAX_TEXT
  }

  /** One call, with the limit; after an error there are no more calls. */
  function LimitedStep(huge: bool, l: Live, e: Event): Live {
    if l.failed then l
    else if e.Text? && Exceeds(huge, l, e.chunk) then l.(failed := true)
    else
      var on := match e
                case Open => true
                case Close => true
                case Text(_) => l.on || l.b.stack != []
                case Splice(_) => l.on && l.b.stack == []
                case _ => l.on;
      Live(Step(l.b, e), on, false)
  }

  function LimitedRun(huge: bool, events: seq<Event>): Live {
    if events == [] then FRESH
    else LimitedStep(huge, LimitedRun(huge, events[..|events| - 1]), events[|events| - 1])
  }

  /**
    The last event is a chunk that follows a chunk, and together with what came since the last
    event that was not text it is longer than the limit. After text from an entity there is no limit.
   */
  ghost predicate Overflows(huge: bool, events: seq<Event>) {
    && |events| >= 2 && events[|events| - 1].Text? && events[|events| - 2].Text? && !huge
    && Run(events[..|events| - 1]).stack != []
    && |Trailing(events[..|events| - 1]).value| + |events[|events| - 1].chunk| > 10_000_000
  }

  /** How many events come before the first that overflows. */
  ghost function Accepted(huge: bool, events: seq<Event>): (m: nat)
    ensures m <= |events|
    decreases |events|
  {
    if events == [] then 0
    else
      var m := Accepted(huge, events[..|events| - 1]);
      if m < |events| - 1 || Overflows(huge, events) then m else |events|
  }

  lemma LastOf(events: seq<Event>)
    ensures events != [] ==> events[..|events|] == events
  {
  }

  /**
    With the limit the tree is that of the events before the first that overflows, and an error
    is reported exactly if there is one. Until then the accelerator is on, where text is open,
    exactly if the last event was a chunk.
   */
  lemma {:induction false} LimitedRunIs(huge: bool, events: seq<Event>)
    ensures var l, m := LimitedRun(huge, events), Accepted(huge, events);
            && l.b == Run(events[..m])
            && (l.failed <==> m < |events|)
            && (!l.failed && OpenBytes(l.b).Some? ==> (l.on <==> events != [] && events[|events| - 1].Text?))
    decreases |events|
  {
    hide Run, Step, Trailing, OpenBytes;
    if events == [] {
      assert events[..0] == [];
      EmptyTree();
    } else {
      var n := |events| - 1;
      var before, e := events[..n], events[n];
      var l := LimitedRun(huge, before);
      LimitedRunIs(huge, before);
      LastOf(events);
      if l.failed {
        assert before[..Accepted(huge, before)] == events[..Accepted(huge, before)];
      } else {
        assert before[..n] == before;
        TextIsConcatenation(before);
        ClosedOutside(l.b);
        OverflowIs(huge, events, l);
        RunOnce(events);
        TextIsConcatenation(events);
        ClosedOutside(Run(events));
        NotText(events);
        if l.b.stack == [] && IsText(e) { TextKeepsStack(l.b, e); }
      }
    }
  }

  lemma NotText(events: seq<Event>)
    ensures Trailing(events).Some? ==> events != [] && IsText(events[|events| - 1])
    ensures events != [] && IsText(events[|events| - 1]) ==> Trailing(events).Some?
  {
  }

  /** The limit is passed in a call exactly if the events overflow with it. */
  lemma OverflowIs(huge: bool, events: seq<Event>, l: Live)
    requires events != [] && l.b == Run(events[..|events| - 1])
    requires l.b.stack != [] ==> OpenBytes(l.b) == Trailing(events[..|events| - 1])
    requires OpenBytes(l.b).Some? ==> l.b.stack != [] && (l.on <==> |events| >= 2 && events[|events| - 2].Text?)
    ensures events[|events| - 1].Text? && Exceeds(huge, l, events[|events| - 1].chunk) <==> Overflows(huge, events)
  {
    hide Run, OpenBytes;
    var before := events[..|events| - 1];
    NotText(before);
    assert before != [] ==> before[|before| - 1] == events[|events| - 2];
  }

  lemma EmptyTree()
    ensures Run([]) == Builder([], []) && OpenBytes(Builder([], [])).None?
  {
  }

  lemma RunOnce(events: seq<Event>)
    requires events != []
    ensures Run(events) == Step(Run(events[..|events| - 1]), events[|events| - 1])
  {
  }

  lemma ClosedOutside(b: Builder)
    ensures OpenBytes(b).Some? ==> b.stack != []
  {
  }

  // ----- The tree builder -----

  /** Where the content of a text node is: in the node itself, in the dictionary, or on its own. */
  datatype Storage = Inline | Interned | Heap

  datatype TextNode = TextNode(content: array<Byte>, storage: Storage)

  const INLINE_SIZE := 16

  /** A zero-terminated string in memory. */
  ghost predicate Holds(a: array<Byte>, s: seq<Byte>)
    reads a
  {
    |s| < a.Length && a[..|s|] == s && a[|s|] == 0 && 0 !in s
  }

  /** xmlStrlen */
  method StrLen(a: array<Byte>, ghost s: seq<Byte>) returns (n: nat)
    requires Holds(a, s)
    ensures n == |s|
  {
    n := 0;
    assert forall i :: 0 <= i < |s| ==> a[i] == s[i] && s[i] in s;
    while a[n] != 0
      invariant n <= |s|
      decreases |s| - n
    {
      n := n + 1;
    }
  }

  /** A zero-terminated copy in an area of `size` bytes: xmlStrdup, xmlStrndup, realloc. */
  method Copy(s: seq<Byte>, size: nat) returns (a: array<Byte>)
    requires 0 !in s && |s| < size
    ensures fresh(a) && a.Length == size && Holds(a, s)
  {
    a := new Byte[size];
    for i := 0 to |s|
      invariant a[..i] == s[..i]
    {
      a[i] := s[i];
    }
    a[|s|] := 0;
  }

  /** memcpy behind the string, and a new terminator. */
  method WriteTail(a: array<Byte>, ghost s: seq<Byte>, at: nat, chunk: seq<Byte>)
    requires Holds(a, s) && at == |s| && at + |chunk| < a.Length && 0 !in chunk
    modifies a
    ensures Holds(a, s + chunk)
  {
    for i := 0 to |chunk|
      invariant a[..at + i] == s + chunk[..i]
    {
      a[at + i] := chunk[i];
    }
    a[at + |chunk|] := 0;
    assert chunk[..|chunk|] == chunk;
  }

  class Context {
    const dictNames: bool
    const compact: bool
    const huge: bool
    var stack: seq<seq<Child>>
    var texts: seq<TextNode>
    var dict: seq<array<Byte>>
    var nodelen: int
    var nodemem: int
    /** A memory error was reported, which switches the calls off. */
    var failed: bool
    /** What the text nodes and the strings of the dictionary hold. */
    ghost var bytes: seq<seq<Byte>>
    ghost var words: seq<seq<Byte>>

    ghost function Abs(): Builder
      reads `stack, `bytes
    {
      Builder(stack, bytes)
    }

    ghost function Memory(): set<array<Byte>>
      reads `texts, `dict
    {
      (set k | 0 <= k < |texts| :: texts[k].content) + (set k | 0 <= k < |dict| :: dict[k])
    }

    /** The text nodes hold what they should; only interned content is shared. */
    ghost predicate Stored()
      reads `texts, `dict, `bytes, `words, Memory()
    {
      && |bytes| == |texts| && |words| == |dict|
      && (forall k :: 0 <= k < |texts| ==> texts[k].content in Memory() && Holds(texts[k].content, bytes[k]))
      && (forall k :: 0 <= k < |dict| ==> dict[k] in Memory() && Holds(dict[k], words[k]))
      && (forall k :: 0 <= k < |texts| ==> (texts[k].storage == Interned <==> texts[k].content in dict))
      && (forall j, k :: 0 <= j < |texts| && 0 <= k < |texts| && j != k && texts[k].storage == Heap ==>
            texts[j].content != texts[k].content)
    }

    /** The accelerator: nodelen is the length of the open text, and nodemem its capacity. */
    ghost predicate Accelerated()
      reads `stack, `texts, `bytes, `nodelen, `nodemem
    {
      match OpenText(stack)
      case None => true
      case Some(k) =>
        && k < |texts| && k < |bytes|
        && (nodemem != 0 ==>
              && nodelen == |bytes[k]| && nodelen < nodemem
              && (if texts[k].storage == Heap then nodemem == texts[k].content.Length else nodemem == nodelen + 1))
    }

    ghost predicate Valid()
      reads `stack, `texts, `dict, `bytes, `words, `nodelen, `nodemem, Memory()
    {
      Stored() && WellFormed(Abs()) && Accelerated()
    }

    constructor (dictNames: bool, compact: bool, huge: bool)
      ensures Valid() && Abs() == Run([]) && !failed && nodemem == 0 && Memory() == {} && this.huge == huge
    {
      this.dictNames, this.compact, this.huge := dictNames, compact, huge;
      stack, texts, dict, nodelen, nodemem, failed := [], [], [], 0, 0, false;
      bytes, words := [], [];
    }

    // ----- Events other than text -----

    /** xmlSAX2StartElement, as far as the stack and the accelerator go */
    method StartElement()
      requires Valid()
      modifies this`stack, this`nodemem
      ensures Valid() && Abs() == Step(old(Abs()), Open) && nodemem == -1
    {
      if stack != [] {
        stack := stack[|stack| - 1 := stack[|stack| - 1] + [Nested]];
      }
      nodemem := -1;
      stack := stack + [[]];
      StepWellFormed(old(Abs()), Open);
    }

    /** xmlSAX2EndElement */
    method EndElement()
      requires Valid()
      modifies this`stack, this`nodemem
      ensures Valid() && Abs() == Step(old(Abs()), Close) && nodemem == -1
    {
      nodemem := -1;
      NodePop();
    }

    /** nodePop; the HTML parser also calls it without an end of element, and nodemem stays. */
    method NodePop()
      requires Stored() && WellFormed(Abs())
      modifies this`stack
      ensures Valid() && Abs() == Step(old(Abs()), Pop)
    {
      StepWellFormed(Abs(), Pop);
      if stack != [] {
        stack := stack[..|stack| - 1];
      }
    }

    /** xmlSAX2CDataBlock: a section after a section goes on with it. */
    method CDataBlock()
      requires Valid()
      modifies this`stack
      ensures Valid() && Abs() == Step(old(Abs()), CData)
    {
      StepWellFormed(Abs(), CData);
      if stack == [] { return; }
      var last := stack[|stack| - 1];
      if last != [] && last[|last| - 1] == CDataChild { return; }
      stack := stack[|stack| - 1 := last + [CDataChild]];
    }

    /** A comment, a processing instruction or an entity reference. */
    method OtherNode()
      requires Valid()
      modifies this`stack
      ensures Valid() && Abs() == Step(old(Abs()), Node)
    {
      StepWellFormed(Abs(), Node);
      if stack != [] {
        stack := stack[|stack| - 1 := stack[|stack| - 1] + [Leaf]];
      }
    }

    // ----- Text -----

    predicate IsBlank(b: Byte) {
      b == 0x20 || 0x9 <= b <= 0xA || b == 0xD
    }

    /**
      Where xmlSAX2TextNode puts a string, looking at the two bytes after it: short strings in the
      node, very short ones and blanks between tags in the dictionary.
     */
    function ChooseStorage(str: seq<Byte>, after: Byte, next: Byte): (s: Storage)
      ensures s == Inline ==> |str| < INLINE_SIZE
    {
      var lt, bang, quote, apostrophe := 60, 33, 34, 39;
      if !dictNames then Heap
      else if |str| < INLINE_SIZE && compact then Inline
      else if |str| <= 3 && (after == quote || after == apostrophe || (after == lt && next != bang)) then Interned
      else if |str| < 60 && after == lt && next != bang && str != []
        && forall b :: b in str ==> IsBlank(b) then Interned
      else Heap
    }

    /** xmlDictLookup: one string in memory for all its occurrences. */
    method DictLookup(str: seq<Byte>) returns (a: array<Byte>)
      requires Stored() && 0 !in str
      modifies this`dict, this`words
      ensures Stored() && a in dict && Holds(a, str)
      ensures old(dict) <= dict && old(words) <= words
      ensures forall a :: a in Memory() ==> a in old(Memory()) || fresh(a)
    {
      for i := 0 to |dict|
        invariant Stored() && dict == old(dict) && words == old(words)
      {
        var n := StrLen(dict[i], words[i]);
        if dict[i][..n] == str { return dict[i]; }
      }
      a := Copy(str, |str| + 1);
      dict, words := dict + [a], words + [str];
    }

    /** xmlSAX2TextNode */
    method NewText(str: seq<Byte>, after: Byte, next: Byte) returns (t: TextNode)
      requires Stored() && 0 !in str
      modifies this`dict, this`words
      ensures Stored() && Holds(t.content, str)
      ensures if t.storage == Interned then t.content in dict else fresh(t.content) && t.content !in dict
      ensures t.storage == Heap ==> t.content.Length == |str| + 1
      ensures old(dict) <= dict && old(words) <= words
      ensures forall a :: a in Memory() ==> a in old(Memory()) || fresh(a)
    {
      var storage := ChooseStorage(str, after, next);
      var a;
      match storage {
        case Inline => a := Copy(str, INLINE_SIZE);
        case Interned => a := DictLookup(str);
        case Heap => a := Copy(str, |str| + 1);
      }
      t := TextNode(a, storage);
    }

    /** A new text node at the end of the innermost element. */
    method AddTextNode(t: TextNode, ghost str: seq<Byte>)
      requires Stored() && WellFormed(Abs()) && stack != [] && OpenText(stack).None? && Holds(t.content, str)
      requires if t.storage == Interned then t.content in dict
               else t.content !in dict && forall k :: 0 <= k < |texts| ==> texts[k].content != t.content
      modifies this`stack, this`texts, this`bytes
      ensures Stored() && WellFormed(Abs()) && Abs() == AddText(old(Abs()), str)
      ensures OpenText(stack) == Some(|texts| - 1) && texts == old(texts) + [t] && bytes == old(bytes) + [str]
      ensures Memory() <= old(Memory()) + {t.content}
    {
      hide Holds;
      stack := stack[|stack| - 1 := stack[|stack| - 1] + [TextChild(|texts|)]];
      texts, bytes := texts + [t], bytes + [str];
    }

    /** The content of a text moves to memory of its own. */
    method ReplaceText(k: nat, a: array<Byte>, ghost str: seq<Byte>)
      requires Stored() && k < |texts| && Holds(a, str)
      requires a !in dict && forall j :: 0 <= j < |texts| ==> texts[j].content != a
      modifies this`texts, this`bytes
      ensures Stored() && texts == old(texts)[k := TextNode(a, Heap)] && bytes == old(bytes)[k := str]
      ensures Memory() <= old(Memory()) + {a}
    {
      texts, bytes := texts[k := TextNode(a, Heap)], bytes[k := str];
    }

    /** Inline and interned content is copied before anything is appended to it. */
    method Unshare(k: nat)
      requires Valid() && OpenText(stack) == Some(k) && nodemem != 0
      modifies this`texts, this`bytes
      ensures Valid() && Abs() == old(Abs()) && |texts| == |old(texts)| && texts[k].storage == Heap
      ensures old(texts[k].storage) != Heap ==> fresh(texts[k].content)
      ensures old(texts[k].storage) == Heap ==> texts == old(texts)
      ensures forall a :: a in Memory() ==> a in old(Memory()) || fresh(a)
    {
      hide Memory;
      var t := texts[k];
      if t.storage == Inline || (nodemem == nodelen + 1 && t.content in dict) {
        var n := StrLen(t.content, bytes[k]);
        var a := Copy(t.content[..n], n + 1);
        ReplaceText(k, a, bytes[k]);
        assert bytes == old(bytes);
      }
    }

    /** Room for `len` more bytes: the memory at least doubles when it is short. */
    method Reserve(k: nat, len: nat)
      requires Valid() && OpenText(stack) == Some(k) && nodemem != 0 && texts[k].storage == Heap
      modifies this`texts, this`bytes, this`nodemem
      ensures Valid() && Abs() == old(Abs()) && |texts| == |old(texts)| && texts[k].storage == Heap
      ensures nodelen + len < nodemem
      ensures nodemem == if nodelen + len < old(nodemem) then old(nodemem) else 2 * (old(nodemem) + len)
      ensures texts == old(texts) || fresh(texts[k].content)
      ensures forall a :: a in Memory() ==> a in old(Memory()) || fresh(a)
      ensures nodemem != 0
    {
      hide Memory;
      if nodelen + len >= nodemem {
        var size := (nodemem + len) * 2;
        var a := Copy(texts[k].content[..nodelen], size);
        ReplaceText(k, a, bytes[k]);
        assert bytes == old(bytes);
        nodemem := size;
      }
    }

    /** The chunk would make the text longer than the limit. */
    ghost predicate TooLong(chunk: seq<Byte>)
      requires Valid()
      reads this, Memory()
    {
      OpenText(stack).Some? && nodemem != 0 && !huge && |bytes[OpenText(stack).value]| + |chunk| > 10_000_000
    }

    /** The chunk is appended where the accelerator says the text ends. */
    method AppendInPlace(k: nat, chunk: seq<Byte>)
      requires Valid() && OpenText(stack) == Some(k) && nodemem != 0 && texts[k].storage == Heap
      requires 0 !in chunk && nodelen + |chunk| < nodemem
      modifies this`bytes, this`nodelen, texts[k].content
      ensures Valid() && Abs() == AddText(old(Abs()), chunk)
    {
      hide Holds;
      StoreTail(k, nodelen, chunk);
      nodelen := nodelen + |chunk|;
    }

    /** The chunk is stored behind the content of a text that has it to itself. */
    method StoreTail(k: nat, at: nat, chunk: seq<Byte>)
      requires Stored() && k < |texts| && texts[k].storage == Heap
      requires at == |bytes[k]| && at + |chunk| < texts[k].content.Length && 0 !in chunk
      modifies this`bytes, texts[k].content
      ensures Stored() && bytes == old(bytes)[k := old(bytes)[k] + chunk]
    {
      hide Holds;
      WriteTail(texts[k].content, bytes[k], at, chunk);
      bytes := bytes[k := bytes[k] + chunk];
    }

    /** A copy of a text's content with a chunk behind it. */
    method Joined(k: nat, chunk: seq<Byte>) returns (n: nat, a: array<Byte>)
      requires Stored() && k < |texts| && 0 !in chunk
      ensures n == |bytes[k]| && fresh(a) && a.Length == n + |chunk| + 1 && Holds(a, bytes[k] + chunk)
    {
      var t := texts[k];
      n := StrLen(t.content, bytes[k]);
      a := Copy(t.content[..n] + chunk, n + |chunk| + 1);
    }

    /** xmlTextConcat, and the accelerator measured anew. */
    method Concat(k: nat, chunk: seq<Byte>)
      requires Valid() && OpenText(stack) == Some(k) && 0 !in chunk
      modifies this`texts, this`bytes, this`nodelen, this`nodemem
      ensures Valid() && Abs() == AddText(old(Abs()), chunk) && nodemem == nodelen + 1 > 0
      ensures forall a :: a in Memory() ==> a in old(Memory()) || fresh(a)
    {
      hide Holds, Memory;
      var n, a := Joined(k, chunk);
      ReplaceText(k, a, bytes[k] + chunk);
      nodelen := n + |chunk|;
      nodemem := nodelen + 1;
    }

    /** xmlSAX2Characters: the model's text, unless the limit on its length is passed; then nothing is added. */
    method Characters(chunk: seq<Byte>, after: Byte, next: Byte)
      requires Valid() && 0 !in chunk
      modifies this, Memory()
      ensures Valid()
      ensures old(TooLong(chunk)) ==> failed && Abs() == old(Abs())
      ensures !old(TooLong(chunk)) ==> failed == old(failed) && Abs() == Step(old(Abs()), Text(chunk))
      ensures old(dict) <= dict && old(words) <= words
      ensures forall a :: a in Memory() ==> a in old(Memory()) || fresh(a)
      ensures nodemem != 0 <==> old(nodemem) != 0 || old(stack) != []
    {
      hide Memory;
      if stack == [] { return; }
      var last := stack[|stack| - 1];
      if last == [] || !last[|last| - 1].TextChild? {
        StartText(chunk, after, next);
      } else if nodemem != 0 {
        Coalesce(last[|last| - 1].k, chunk);
      } else {
        Concat(last[|last| - 1].k, chunk);
      }
    }

    /** The first chunk of a text. */
    method StartText(chunk: seq<Byte>, after: Byte, next: Byte)
      requires Valid() && 0 !in chunk && stack != [] && OpenText(stack).None?
      modifies this`stack, this`texts, this`bytes, this`dict, this`words, this`nodelen, this`nodemem
      ensures Valid() && Abs() == AddText(old(Abs()), chunk)
      ensures old(dict) <= dict && old(words) <= words
      ensures forall a :: a in Memory() ==> a in old(Memory()) || fresh(a)
      ensures nodemem != 0
    {
      hide Holds, Memory;
      var t := NewText(chunk, after, next);
      AddTextNode(t, chunk);
      nodelen, nodemem := |chunk|, |chunk| + 1;
    }

    /** A further chunk, with the accelerator on. */
    method Coalesce(k: nat, chunk: seq<Byte>)
      requires Valid() && 0 !in chunk && OpenText(stack) == Some(k) && nodemem != 0
      modifies this`texts, this`bytes, this`nodelen, this`nodemem, this`failed, Memory()
      ensures Valid()
      ensures if old(TooLong(chunk)) then failed && Abs() == old(Abs())
              else failed == old(failed) && Abs() == AddText(old(Abs()), chunk)
      ensures forall a :: a in Memory() ==> a in old(Memory()) || fresh(a)
      ensures nodemem != 0
    {
      hide Holds, Memory;
      Unshare(k);
      if nodelen + |chunk| > MAX_TEXT && !huge {
        failed := true;
        return;
      }
      Reserve(k, |chunk|);
      AppendInPlace(k, chunk);
    }

    method StartCopiedText(chunk: seq<Byte>, interned: bool)
      requires Valid() && 0 !in chunk && stack != [] && OpenText(stack).None?
      modifies this`stack, this`texts, this`bytes, this`dict, this`words
      ensures Stored() && WellFormed(Abs()) && Abs() == AddText(old(Abs()), chunk)
      ensures old(dict) <= dict && old(words) <= words
      ensures forall a :: a in Memory() ==> a in old(Memory()) || fresh(a)
    {
      hide Holds, Memory;
      if interned {
        var a := DictLookup(chunk);
        AddTextNode(TextNode(a, Interned), chunk);
      } else {
        var a := Copy(chunk, |chunk| + 1);
        AddTextNode(TextNode(a, Heap), chunk);
      }
    }

    /** xmlAddChild for a text: it joins a text that is already last. */
    method JoinText(chunk: seq<Byte>, interned: bool)
      requires Valid() && 0 !in chunk && stack != []
      modifies this`stack, this`texts, this`bytes, this`dict, this`words, this`nodelen, this`nodemem
      ensures Stored() && WellFormed(Abs()) && Abs() == AddText(old(Abs()), chunk)
      ensures old(dict) <= dict && old(words) <= words
      ensures forall a :: a in Memory() ==> a in old(Memory()) || fresh(a)
    {
      hide Holds, Memory;
      var last := stack[|stack| - 1];
      if last == [] || !last[|last| - 1].TextChild? {
        StartCopiedText(chunk, interned);
      } else {
        Concat(last[|last| - 1].k, chunk);
      }
    }

    /** Text copied from an entity, interned or not: joined to the open text, and the accelerator switched off. */
    method SpliceText(chunk: seq<Byte>, interned: bool)
      requires Valid() && 0 !in chunk
      modifies this`stack, this`texts, this`bytes, this`dict, this`words, this`nodelen, this`nodemem
      ensures Valid() && Abs() == Step(old(Abs()), Splice(chunk))
      ensures old(dict) <= dict && old(words) <= words
      ensures forall a :: a in Memory() ==> a in old(Memory()) || fresh(a)
      ensures nodemem != 0 <==> old(nodemem) != 0 && old(stack) == []
    {
      hide Holds, Memory;
      if stack == [] { return; }
      JoinText(chunk, interned);
      assert OpenText(stack).Some? ==> OpenText(stack).value < |texts|;
      nodelen, nodemem := 0, 0;
    }

    // ----- Runs of calls -----

    /** What the object stands for, with the state of the accelerator. */
    ghost function State(): Live
      reads `stack, `bytes, `nodemem, `failed
    {
      Live(Abs(), nodemem != 0, failed)
    }

    /** One call of the parser, unless an error has switched the calls off. */
    method Handle(e: Event, hint: Hint)
      requires Valid() && Clean(e)
      modifies this, Memory()
      ensures Valid() && State() == LimitedStep(huge, old(State()), e)
      ensures forall a :: a in Memory() ==> a in old(Memory()) || fresh(a)
    {
      hide Stored, WellFormed, Memory, Step;
      if failed { return; }
      LimitIs(e);
      match e {
        case Open => StartElement();
        case Close => EndElement();
        case Pop => NodePop();
        case Text(chunk) => Characters(chunk, hint.after, hint.next);
        case CData => CDataBlock();
        case Node => OtherNode();
        case Splice(chunk) => SpliceText(chunk, hint.interned);
      }
    }

    lemma LimitIs(e: Event)
      requires Valid()
      ensures e.Text? ==> (TooLong(e.chunk) <==> Exceeds(huge, State(), e.chunk))
    {
      hide Stored;
    }
  }

  /** What the tree builder sees around a string: the two bytes after it, and whether it was interned. */
  datatype Hint = Hint(after: Byte, next: Byte, interned: bool)

  /** Chunks hold no zero byte. */
  predicate Clean(e: Event) {
    IsText(e) ==> 0 !in e.chunk
  }

  /**
    A tree builder driven through any run of calls, whatever the storage of its texts: the tree is
    that of the events before the first that overflows, and an error is reported exactly if there
    is one.
   */
  method Build(dictNames: bool, compact: bool, huge: bool, events: seq<Event>, hints: seq<Hint>) returns (c: Context)
    requires |hints| == |events| && forall e :: e in events ==> Clean(e)
    ensures fresh(c) && c.Valid() && c.Abs() == Run(events[..Accepted(huge, events)])
    ensures c.failed <==> Accepted(huge, events) < |events|
  {
    c := new Context(dictNames, compact, huge);
    for i := 0 to |events|
      invariant fresh(c) && c.huge == huge && c.Valid() && forall a :: a in c.Memory() ==> fresh(a)
      invariant c.State() == LimitedRun(huge, events[..i])
    {
      assert events[..i + 1][..i] == events[..i] && events[..i + 1][i] == events[i];
      c.Handle(events[i], hints[i]);
    }
    assert events[..|events|] == events;
    LimitedRunIs(huge, events);
  }
}
