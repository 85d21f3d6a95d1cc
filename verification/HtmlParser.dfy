/**
  The HTML parser's stacks as it keeps them: fields updated in place, an index over the table
  of closing start tags, and the content loop.
 */
module HtmlParser {
  import opened Ordering
  import opened HtmlStack
  import opened HtmlStackSafety
  import opened HtmlContent

  // ----- The index over the table -----

  /** The table ends with an empty group. */
  ghost predicate Terminated(t: CloseTable) {
    |t| >= 1 && t[|t| - 1].None? && (|t| >= 2 ==> t[|t| - 2].None?)
  }

  /** Where the scan stands after `k` groups. */
  function After(t: CloseTable, i: nat, k: nat): nat
    decreases k
  {
    if k == 0 || i >= |t| || t[i].None? then i else After(t, GroupEnd(t, i) + 1, k - 1)
  }

  lemma {:induction false} AfterStep(t: CloseTable, i: nat, k: nat)
    ensures var a := After(t, i, k);
            After(t, i, k + 1) == if a >= |t| || t[a].None? then a else GroupEnd(t, a) + 1
    decreases k
  {
    if k > 0 && i < |t| && t[i].Some? {
      AfterStep(t, GroupEnd(t, i) + 1, k - 1);
    }
  }

  /** The entries of the index: where group `k` starts, or -1 past the last group. */
  ghost predicate Indexes(t: CloseTable, index: seq<int>) {
    && |index| == INDEX_SIZE
    && index[INDEX_SIZE - 1] == -1
    && forall k: nat :: k < INDEX_SIZE - 1 ==> EntryOf(t, k, index[k])
  }

  ghost predicate EntryOf(t: CloseTable, k: nat, entry: int) {
    var a := After(t, 0, k);
    entry == if a < |t| && t[a].Some? then a else -1
  }

  /** htmlInitAutoClose */
  method InitAutoClose(t: CloseTable) returns (index: array<int>)
    requires Terminated(t)
    ensures fresh(index) && Indexes(t, index[..])
  {
    hide EntryOf, After;
    index := new int[INDEX_SIZE](_ => -1);
    var indx, i: nat := 0, 0;
    StartsAtZero(t);
    while t[i].Some? && indx < INDEX_SIZE - 1
      invariant indx < INDEX_SIZE && i < |t| && i == After(t, 0, indx)
      invariant forall k :: indx <= k < INDEX_SIZE ==> index[k] == -1
      invariant forall k: nat :: k < indx ==> EntryOf(t, k, index[k])
    {
      EntryHere(t, indx, i);
      AfterStep(t, 0, indx);
      index[indx] := i;
      indx := indx + 1;
      ghost var end := GroupEnd(t, i);
      while t[i].Some?
        invariant i <= end == GroupEnd(t, i) && end < |t| - 1
        decreases |t| - i
      {
        i := i + 1;
      }
      i := i + 1;
    }
    if t[i].None? {
      forall k: nat | indx <= k < INDEX_SIZE - 1
        ensures EntryOf(t, k, -1)
      {
        NothingAfter(t, indx, k);
      }
    }
  }

  lemma StartsAtZero(t: CloseTable)
    ensures After(t, 0, 0) == 0
  {
  }

  lemma EntryHere(t: CloseTable, k: nat, i: nat)
    requires i == After(t, 0, k) && i < |t| && t[i].Some?
    ensures EntryOf(t, k, i)
  {
    hide After;
  }

  lemma {:induction false} NothingAfter(t: CloseTable, k: nat, m: nat)
    requires k <= m && After(t, 0, k) < |t| && t[After(t, 0, k)].None?
    ensures After(t, 0, m) == After(t, 0, k) && EntryOf(t, m, -1)
    decreases m
  {
    hide After;
    if k < m {
      NothingAfter(t, k, m - 1);
      AfterStep(t, 0, m - 1);
    }
  }

  /** htmlCheckAutoClose: over the index, then over the names of one group. */
  method CheckAutoClose(t: CloseTable, index: array<int>, newtag: string, oldtag: string) returns (r: bool)
    requires Terminated(t) && Indexes(t, index[..])
    ensures r == ClosesWithin(t, 0, INDEX_SIZE - 1, newtag, oldtag)
  {
    hide After, EntryOf;
    var indx := 0;
    var closed := 0;
    StartsAtZero(t);
    while true
      invariant 0 <= indx < INDEX_SIZE
      invariant ClosesWithin(t, After(t, 0, indx), INDEX_SIZE - 1 - indx, newtag, oldtag)
             == ClosesWithin(t, 0, INDEX_SIZE - 1, newtag, oldtag)
      decreases INDEX_SIZE - indx
    {
      closed := index[..][indx];
      if indx < INDEX_SIZE - 1 { ReadEntry(t, indx, closed); }
      if closed == -1 { return false; }
      if t[closed] == Some(newtag) { break; }
      AfterStep(t, 0, indx);
      indx := indx + 1;
    }
    var i: nat := closed + 1;
    while t[i].Some?
      invariant i < |t| && Listed(t, i, oldtag) == Listed(t, closed + 1, oldtag)
      decreases |t| - i
    {
      if t[i].value == oldtag { return true; }
      i := i + 1;
    }
    r := false;
  }

  lemma ReadEntry(t: CloseTable, k: nat, entry: int)
    requires EntryOf(t, k, entry)
    ensures entry != -1 ==> entry == After(t, 0, k) && 0 <= entry < |t| && t[entry].Some?
    ensures entry == -1 ==> After(t, 0, k) >= |t| || t[After(t, 0, k)].None?
  {
    hide After;
  }

  /** How many groups come before the first one for `newtag`. */
  function Ordinal(t: CloseTable, i: nat, newtag: string): nat
    decreases |t| - i
  {
    if i >= |t| || t[i].None? || t[i].value == newtag then 0 else 1 + Ordinal(t, GroupEnd(t, i) + 1, newtag)
  }

  function Groups(t: CloseTable, i: nat): nat
    decreases |t| - i
  {
    if i >= |t| || t[i].None? then 0 else 1 + Groups(t, GroupEnd(t, i) + 1)
  }

  /** The index answers like the plain scan, except for tags whose first group it does not hold. */
  lemma {:induction false} IndexedIff(t: CloseTable, i: nat, k: nat, newtag: string, oldtag: string)
    ensures ClosesWithin(t, i, k, newtag, oldtag) <==> ClosesFrom(t, i, newtag, oldtag) && Ordinal(t, i, newtag) < k
    decreases |t| - i
  {
    if i < |t| && t[i].Some? && t[i].value != newtag && k > 0 {
      IndexedIff(t, GroupEnd(t, i) + 1, k - 1, newtag, oldtag);
    }
  }

  lemma {:induction false} OrdinalBound(t: CloseTable, i: nat, newtag: string, oldtag: string)
    requires ClosesFrom(t, i, newtag, oldtag)
    ensures Ordinal(t, i, newtag) < Groups(t, i)
    decreases |t| - i
  {
    if t[i].value != newtag {
      OrdinalBound(t, GroupEnd(t, i) + 1, newtag, oldtag);
    }
  }

  /** For a table of at most 99 groups the indexed test is the plain scan. */
  lemma IndexedIsScan(cfg: Config, newtag: string, oldtag: string)
    requires Groups(cfg.closes, 0) <= 99
    ensures Closing(cfg, newtag, oldtag) <==> ClosesFrom(cfg.closes, 0, newtag, oldtag)
  {
    IndexedIff(cfg.closes, 0, 99, newtag, oldtag);
    if ClosesFrom(cfg.closes, 0, newtag, oldtag) {
      OrdinalBound(cfg.closes, 0, newtag, oldtag);
    }
  }

  // ----- The parser -----

  class Parser {
    const cfg: Config
    const index: array<int>
    var nameTab: seq<string>
    var nodeTab: seq<string>
    var html: nat
    var depth: nat
    var halted: bool
    var calls: seq<Event>
    /** What is left of the input; a halted parser has none. */
    var items: seq<Item>

    ghost predicate Valid()
      reads this, index
    {
      Terminated(cfg.closes) && Indexes(cfg.closes, index[..]) && (halted ==> items == [])
    }

    ghost function Abs(): State
      reads this
    {
      State(nameTab, nodeTab, html, depth, halted, calls)
    }

    /** The input after an operation that reads none of it: gone if the parser was halted. */
    twostate predicate ItemsKept()
      reads this
    {
      items == if halted then [] else old(items)
    }

    constructor (cfg: Config, items: seq<Item>)
      requires Terminated(cfg.closes)
      ensures Valid() && Abs() == INITIAL && this.items == items && this.cfg == cfg && fresh(index)
    {
      this.cfg := cfg;
      var starts := InitAutoClose(cfg.closes);
      index := starts;
      nameTab, nodeTab, html, depth, halted, calls := [], [], 1, 0, false, [];
      this.items := items;
    }

    /** ctxt->name */
    function Name(): Option<string>
      reads this
    {
      Top(nameTab)
    }

    method NamePush(value: string)
      modifies this`nameTab, this`html
      ensures nameTab == old(nameTab) + [value] && html == Level(old(html), value)
    {
      if html < 3 && value == "head" { html := 3; }
      if html < 10 && value == "body" { html := 10; }
      nameTab := nameTab + [value];
    }

    method NamePop()
      modifies this`nameTab
      ensures nameTab == Below(old(nameTab))
    {
      if nameTab != [] { nameTab := nameTab[..|nameTab| - 1]; }
    }

    /** startElement: the node is pushed unless the stack is too deep, which halts the parser. */
    method StartElement(name: string)
      modifies this`nodeTab, this`halted, this`items, this`calls
      ensures var fits := cfg.huge || |old(nodeTab)| <= cfg.maxDepth;
              && nodeTab == (if fits then old(nodeTab) + [name] else old(nodeTab))
              && halted == (old(halted) || !fits)
              && items == (if fits then old(items) else [])
      ensures calls == old(calls) + [Start(name)]
    {
      calls := calls + [Start(name)];
      if |nodeTab| > cfg.maxDepth && !cfg.huge {
        halted, items := true, [];
      } else {
        nodeTab := nodeTab + [name];
      }
    }

    method EndElement(name: string)
      modifies this`nodeTab, this`calls
      ensures nodeTab == Below(old(nodeTab)) && calls == old(calls) + [End(name)]
    {
      calls := calls + [End(name)];
      if nodeTab != [] { nodeTab := nodeTab[..|nodeTab| - 1]; }
    }

    method OpenElement(name: string)
      requires Valid()
      modifies this
      ensures Valid() && ItemsKept() && Abs() == Push(cfg, old(Abs()), name)
    {
      NamePush(name);
      StartElement(name);
    }

    method CloseElement()
      requires Valid() && nameTab != []
      modifies this
      ensures Valid() && items == old(items) && Abs() == Close(old(Abs()))
    {
      EndElement(nameTab[|nameTab| - 1]);
      NamePop();
    }

    /** htmlAutoClose for a tag */
    method AutoCloseFor(newtag: string)
      requires Valid()
      modifies this
      ensures Valid() && items == old(items) && Abs() == AutoClose(cfg, old(Abs()), newtag)
    {
      hide ClosesWithin;
      while nameTab != []
        invariant Valid() && items == old(items)
        invariant AutoClose(cfg, Abs(), newtag) == AutoClose(cfg, old(Abs()), newtag)
        decreases |nameTab|
      {
        var closes := CheckAutoClose(cfg.closes, index, newtag, nameTab[|nameTab| - 1]);
        if !closes { return; }
        CloseElement();
      }
    }

    /** htmlAutoCloseOnEnd */
    method AutoCloseOnEnd()
      requires Valid()
      modifies this
      ensures Valid() && items == old(items) && Abs() == CloseAll(old(Abs()))
    {
      var i := |nameTab| - 1;
      while i >= 0
        invariant Valid() && items == old(items) && i + 1 == |nameTab|
        invariant CloseAll(Abs()) == CloseAll(old(Abs()))
      {
        CloseElement();
        i := i - 1;
      }
    }

    /** htmlCheckImplied */
    method CheckImplied(newtag: string)
      requires Valid()
      modifies this
      ensures Valid() && ItemsKept() && Abs() == Implied(cfg, old(Abs()), newtag)
    {
      if cfg.noImplied || !cfg.omitted || newtag == "html" { return; }
      if |nameTab| <= 0 {
        OpenElement("html");
      }
      if newtag == "body" || newtag == "head" { return; }
      if |nameTab| <= 1 && newtag in HEAD_TAGS {
        if html >= 3 { return; }
        OpenElement("head");
      } else if newtag !in FRAME_TAGS {
        if html >= 10 { return; }
        for i := 0 to |nameTab|
          invariant "body" !in nameTab[..i] && "head" !in nameTab[..i]
        {
          if nameTab[i] == "body" { return; }
          if nameTab[i] == "head" { return; }
        }
        assert nameTab[..|nameTab|] == nameTab;
        OpenElement("body");
      }
    }

    /** htmlCheckParagraph */
    method CheckParagraph() returns (inserted: bool)
      requires Valid()
      modifies this
      ensures Valid() && ItemsKept() && Abs() == Paragraph(cfg, old(Abs()))
      ensures inserted <==> old(nameTab) == [] || (cfg.omitted && old(Name()).value in {"html", "head"})
    {
      if nameTab == [] {
        InsertParagraph();
        return true;
      }
      if !cfg.omitted { return false; }
      var noContent := ["html", "head"];
      for i := 0 to |noContent|
        invariant nameTab == old(nameTab) && Abs() == old(Abs()) && items == old(items)
        invariant Name().value !in noContent[..i]
      {
        if nameTab[|nameTab| - 1] == noContent[i] {
          InsertParagraph();
          return true;
        }
      }
      assert noContent[..|noContent|] == noContent;
      inserted := false;
    }

    method InsertParagraph()
      requires Valid()
      modifies this
      ensures Valid() && ItemsKept() && Abs() == PushParagraph(cfg, old(Abs()))
    {
      hide Implied, AutoClose;
      AutoCloseFor("p");
      CheckImplied("p");
      OpenElement("p");
    }

    /** The open bodies each make a body tag misplaced. */
    method NoteBodies() returns (found: bool)
      requires Valid()
      modifies this
      ensures Valid() && items == old(items)
      ensures Abs() == old(Abs()).(depth := old(depth) + Count(nameTab, "body"))
              && found == (Count(nameTab, "body") > 0)
    {
      found := false;
      assert nameTab[0..] == nameTab;
      for i := 0 to |nameTab|
        invariant Valid() && items == old(items) && Abs() == old(Abs()).(depth := depth)
        invariant depth + Count(nameTab[i..], "body") == old(depth) + Count(nameTab, "body")
        invariant depth >= old(depth) && found == (depth > old(depth))
      {
        assert nameTab[i..][1..] == nameTab[i + 1..];
        if nameTab[i] == "body" {
          found, depth := true, depth + 1;
        }
      }
      assert nameTab[|nameTab|..] == [];
    }

    /** htmlParseStartTag, given the name of the tag */
    method ParseStartTag(name: string) returns (discarded: bool)
      requires Valid()
      modifies this
      ensures Valid() && ItemsKept() && (Abs(), discarded) == StartTag(cfg, old(Abs()), name)
    {
      hide Implied, AutoClose, Count;
      discarded := false;
      AutoCloseFor(name);
      CheckImplied(name);
      if |nameTab| > 0 && name == "html" {
        discarded, depth := true, depth + 1;
      }
      if |nameTab| != 1 && name == "head" {
        discarded, depth := true, depth + 1;
      }
      if name == "body" {
        discarded := NoteBodies();
      }
      if !discarded {
        OpenElement(name);
      }
    }

    method EndPriority(name: string) returns (p: int)
      ensures p == Priority(cfg, name)
    {
      var i: nat := 0;
      assert cfg.priorities[0..] == cfg.priorities;
      while i < |cfg.priorities| && cfg.priorities[i].0 != name
        invariant i <= |cfg.priorities|
        invariant PriorityIn(cfg.priorities[i..], cfg.otherwise, name) == Priority(cfg, name)
      {
        assert cfg.priorities[i..][1..] == cfg.priorities[i + 1..];
        i := i + 1;
      }
      p := if i < |cfg.priorities| then cfg.priorities[i].1 else cfg.otherwise;
    }

    /** htmlAutoCloseOnClose */
    method AutoCloseOnCloseTag(newtag: string)
      requires Valid()
      modifies this
      ensures Valid() && items == old(items) && Abs() == AutoCloseOnClose(cfg, old(Abs()), newtag)
    {
      hide Priority;
      var priority := EndPriority(newtag);
      var i := |nameTab| - 1;
      assert nameTab[..i + 1] == nameTab;
      while i >= 0 && nameTab[i] != newtag
        invariant Valid() && items == old(items) && Abs() == old(Abs()) && -1 <= i < |nameTab|
        invariant MayClose(cfg, nameTab[..i + 1], newtag) == MayClose(cfg, nameTab, newtag)
      {
        assert Below(nameTab[..i + 1]) == nameTab[..i];
        var p := EndPriority(nameTab[i]);
        if p > priority { return; }
        i := i - 1;
      }
      if i < 0 { return; }
      while nameTab != [] && nameTab[|nameTab| - 1] != newtag
        invariant Valid() && items == old(items)
        invariant CloseTo(Abs(), newtag) == CloseTo(old(Abs()), newtag)
        decreases |nameTab|
      {
        CloseElement();
      }
    }

    method IsOpen(name: string) returns (open: bool)
      ensures open == (name in nameTab)
    {
      var i := |nameTab| - 1;
      while i >= 0 && nameTab[i] != name
        invariant -1 <= i < |nameTab| && name !in nameTab[i + 1..]
      {
        i := i - 1;
      }
      open := i >= 0;
    }

    /** htmlParseEndTag, given the name of the tag */
    method ParseEndTag(name: string) returns (closed: bool)
      requires Valid()
      modifies this
      ensures Valid() && items == old(items) && (Abs(), closed) == EndTag(cfg, old(Abs()), name)
    {
      hide AutoCloseOnClose;
      if depth > 0 && (name == "html" || name == "body" || name == "head") {
        depth := depth - 1;
        return false;
      }
      var open := IsOpen(name);
      if !open { return false; }
      AutoCloseOnCloseTag(name);
      if nameTab != [] && nameTab[|nameTab| - 1] == name {
        CloseElement();
        return true;
      }
      closed := false;
    }

    /** htmlParseElementInternal on a piece of input that was just taken off `items` */
    method ParseElement(item: Item)
      requires Valid() && item.Tag?
      modifies this
      ensures Valid() && ItemsKept() && Abs() == Element(cfg, old(Abs()), item)
    {
      hide StartTag, Paragraph;
      if item.name.None? {
        if item.text {
          var _ := CheckParagraph();
        }
        return;
      }
      var discarded := ParseStartTag(item.name.value);
      if nameTab == [] { return; }
      var name := nameTab[|nameTab| - 1];
      if item.tail == Slash && !halted {
        CloseElement();
        return;
      }
      if item.tail == Neither || halted {
        calls := calls + [Dropped(name)];
        if nodeTab != [] { nodeTab := nodeTab[..|nodeTab| - 1]; }
        NamePop();
        return;
      }
      if name in cfg.empty {
        CloseElement();
      }
    }

    /** The variables of the content loop. */
    ghost function At(currentNode: Option<string>, level: nat, done: bool): Loop
      reads this
    {
      Loop(Abs(), items, currentNode, level, done)
    }

    /** One round of the loop of htmlParseContentInternal. */
    method ContentRound(currentNode: Option<string>, level: nat)
      returns (current: Option<string>, newLevel: nat, done: bool)
      requires Valid()
      modifies this
      ensures Valid() && At(current, newLevel, done) == Round(cfg, old(At(currentNode, level, false)))
      ensures done ==> items == []
    {
      hide EndTag, Element, Paragraph, AutoClose, CloseAll, ClosesWithin;
      current, newLevel, done := currentNode, level, false;
      if halted { return current, newLevel, true; }
      if items != [] && items[0].EndOf? {
        var closing := items[0].closing;
        items := items[1..];
        if closing.Some? {
          var closed := ParseEndTag(closing.value);
          EndTagRuns(cfg, old(Abs()), closing.value);
          if closed && (currentNode.Some? || |nameTab| == 0) {
            current, newLevel := Name(), |nameTab|;
          }
        }
        return;
      }
      if items != [] && items[0].Tag? && items[0].face.Some? && nameTab != [] {
        var closes := CheckAutoClose(cfg.closes, index, items[0].face.value, nameTab[|nameTab| - 1]);
        if closes {
          AutoCloseFor(items[0].face.value);
          return;
        }
      }
      if |nameTab| > 0 && level >= |nameTab| && currentNode != Name() {
        return Name(), |nameTab|, false;
      }
      if items == [] {
        AutoCloseOnEnd();
        return current, newLevel, true;
      }
      var item := items[0];
      items := items[1..];
      if currentNode == Some("script") || currentNode == Some("style") { return; }
      match item
      case Tag(_, _, _, _) =>
        ParseElement(item);
        current, newLevel := Name(), |nameTab|;
      case Chars(paragraph) =>
        if paragraph {
          var _ := CheckParagraph();
        }
      case _ =>
    }

    /** htmlParseContentInternal: ends after finitely many rounds, in a reachable state. */
    method ParseContent() returns (ghost rounds: nat)
      requires Valid()
      modifies this
      ensures Valid() && items == []
      ensures Rounds(cfg, Begin(old(Abs()), old(items)), rounds).s == Abs()
      ensures Rounds(cfg, Begin(old(Abs()), old(items)), rounds).done
    {
      hide Round;
      var current: Option<string>, level: nat, done := Name(), |nameTab|, false;
      ghost var begin := Begin(Abs(), items);
      rounds := 0;
      while !done
        invariant Valid() && (done ==> items == [])
        invariant Rounds(cfg, begin, rounds) == At(current, level, done)
        decreases !done, |items|, |nameTab|, Stale(At(current, level, done))
      {
        ghost var before := At(current, level, done);
        current, level, done := ContentRound(current, level);
        if !done { RoundDecreases(cfg, before); }
        rounds := rounds + 1;
      }
    }

    /** The parse of a document: at its end nothing is open, and the calls are properly nested. */
    method ParseDocument() returns (ghost rounds: nat)
      requires Valid() && Abs() == INITIAL
      modifies this
      ensures Valid() && nameTab == [] && Inv(cfg, Abs())
      ensures Abs() == CloseAll(Rounds(cfg, Begin(INITIAL, old(items)), rounds).s)
      ensures Abs() == CloseAll(HandleAll(cfg, Spot(INITIAL, false), old(items)).s)
    {
      hide Inv, Rounds, CloseAll, HandleAll;
      rounds := ParseContent();
      ghost var k := LoopHandlesAll(cfg, old(items));
      DoneOnce(cfg, Begin(INITIAL, old(items)), rounds, k);
      ClosedOnce(HandleAll(cfg, Spot(INITIAL, false), old(items)).s);
      Reachable(cfg, old(items), rounds);
      CloseAllInv(cfg, Abs());
      AutoCloseOnEnd();
    }
  }

  /** What is closed already stays as it is. */
  lemma ClosedOnce(s: State)
    ensures CloseAll(CloseAll(s)) == CloseAll(s)
  {
    ClosedAll(s);
  }

  /** An end tag never halts the parser. */
  lemma EndTagRuns(cfg: Config, s: State, name: string)
    ensures EndTag(cfg, s, name).0.halted == s.halted
  {
    hide MayClose;
    CloseToRuns(s, name);
  }

  lemma {:induction false} CloseToRuns(s: State, name: string)
    ensures CloseTo(s, name).halted == s.halted
    decreases |s.names|
  {
    if s.names != [] && Top(s.names).value != name {
      CloseToRuns(Close(s), name);
    }
  }
}
