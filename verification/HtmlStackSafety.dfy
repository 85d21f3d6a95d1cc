/**
  What holds of the open-element stack in every state the parser can reach.
 */
module HtmlStackSafety {
  import opened Ordering
  import opened HtmlStack

  // ----- The invariant -----

  /** "html" is only at the bottom, "head" only above it, and "body" is open at most once. */
  ghost predicate WellPlaced(names: seq<string>) {
    && (forall i :: 0 <= i < |names| && names[i] == "html" ==> i == 0)
    && (forall i :: 0 <= i < |names| && names[i] == "head" ==> i == 1)
    && (forall i, j :: 0 <= i < |names| && 0 <= j < |names| && names[i] == "body" && names[j] == "body" ==> i == j)
  }

  /** With implied tags, whatever is open is open inside "html". */
  ghost predicate Rooted(cfg: Config, names: seq<string>) {
    !cfg.noImplied && cfg.omitted && names != [] ==> names[0] == "html"
  }

  /** The level remembers whether a head or a body was ever opened. */
  ghost predicate Remembered(s: State) {
    && (s.html >= 3 <==> Start("head") in s.events || Start("body") in s.events)
    && (s.html >= 10 <==> Start("body") in s.events)
    && ("head" in s.names ==> s.html >= 3)
    && ("body" in s.names ==> s.html >= 10)
  }

  /** The elements a consumer of the calls has open; None if a call closes anything but the innermost. */
  function Replay(events: seq<Event>): Option<seq<string>> {
    if events == [] then Some([])
    else
      match Replay(events[..|events| - 1])
      case None => None
      case Some(open) =>
        match events[|events| - 1]
        case Start(n) => Some(open + [n])
        case End(n) => if Top(open) == Some(n) then Some(Below(open)) else None
        case Dropped(n) => if Top(open) == Some(n) then Some(Below(open)) else None
  }

  /** The largest number of elements that were ever open at once. */
  function MostOpen(events: seq<Event>): nat {
    if events == [] then 0
    else
      var before := events[..|events| - 1];
      var most := MostOpen(before);
      if events[|events| - 1].Start? && Replay(before).Some? && |Replay(before).value| >= most
      then |Replay(before).value| + 1 else most
  }

  /** More elements were open than the node stack takes. */
  predicate WentTooDeep(cfg: Config, events: seq<Event>) {
    !cfg.huge && MostOpen(events) > cfg.maxDepth + 1
  }

  /**
    The whole invariant. The last two lines: the parser has halted exactly if more than
    maxDepth + 1 elements were open at once, and until then the two stacks are the same.
   */
  ghost predicate Inv(cfg: Config, s: State) {
    && WellPlaced(s.names)
    && Rooted(cfg, s.names)
    && Remembered(s)
    && Replay(s.events) == Some(s.names)
    && (s.halted <==> WentTooDeep(cfg, s.events))
    && (!s.halted ==> s.nodes == s.names)
  }

  // ----- Pushing and popping -----

  lemma ReplayLast(events: seq<Event>, e: Event)
    ensures (events + [e])[..|events + [e]| - 1] == events
  {
  }

  /** Where a name may be pushed. */
  ghost predicate MayPush(cfg: Config, names: seq<string>, name: string) {
    && (name == "html" ==> names == [])
    && (name == "head" ==> |names| == 1)
    && (name == "body" ==> "body" !in names)
    && (!cfg.noImplied && cfg.omitted && names == [] ==> name == "html")
  }

  lemma PushPlaced(cfg: Config, names: seq<string>, name: string)
    requires WellPlaced(names) && Rooted(cfg, names) && MayPush(cfg, names, name)
    ensures WellPlaced(names + [name]) && Rooted(cfg, names + [name])
  {
    assert forall i :: 0 <= i < |names| ==> (names + [name])[i] == names[i] && names[i] in names;
  }

  lemma PushInv(cfg: Config, s: State, name: string)
    requires Inv(cfg, s) && MayPush(cfg, s.names, name)
    ensures Inv(cfg, Push(cfg, s, name))
  {
    hide WellPlaced, Rooted, MayPush;
    ReplayLast(s.events, Start(name));
    PushPlaced(cfg, s.names, name);
  }

  lemma BelowInv(cfg: Config, names: seq<string>)
    requires WellPlaced(names) && Rooted(cfg, names)
    ensures WellPlaced(Below(names)) && Rooted(cfg, Below(names))
    ensures forall n :: n in Below(names) ==> n in names
  {
  }

  lemma CloseInv(cfg: Config, s: State)
    requires Inv(cfg, s) && s.names != []
    ensures Inv(cfg, Close(s)) && Inv(cfg, Drop(s))
  {
    hide WellPlaced, Rooted;
    BelowInv(cfg, s.names);
    ReplayLast(s.events, End(Top(s.names).value));
    ReplayLast(s.events, Dropped(Top(s.names).value));
  }

  lemma {:induction false} AutoCloseInv(cfg: Config, s: State, newtag: string)
    requires Inv(cfg, s)
    ensures var r := AutoClose(cfg, s, newtag);
            Inv(cfg, r) && r.html == s.html && r.depth == s.depth && r.halted == s.halted
    decreases |s.names|
  {
    hide Inv, ClosesWithin;
    if s.names != [] && Closing(cfg, newtag, Top(s.names).value) {
      CloseInv(cfg, s);
      AutoCloseInv(cfg, Close(s), newtag);
    }
  }

  lemma {:induction false} CloseAllInv(cfg: Config, s: State)
    requires Inv(cfg, s)
    ensures Inv(cfg, CloseAll(s)) && CloseAll(s).names == []
    decreases |s.names|
  {
    hide Inv;
    if s.names != [] {
      CloseInv(cfg, s);
      CloseAllInv(cfg, Close(s));
    }
  }

  lemma {:induction false} CloseToInv(cfg: Config, s: State, name: string)
    requires Inv(cfg, s)
    ensures Inv(cfg, CloseTo(s, name))
    decreases |s.names|
  {
    hide Inv;
    if s.names != [] && Top(s.names).value != name {
      CloseInv(cfg, s);
      CloseToInv(cfg, Close(s), name);
    }
  }

  // ----- Start tags -----

  /** After the implied tags, a tag other than the three structural ones can be pushed. */
  lemma ImpliedInv(cfg: Config, s: State, newtag: string)
    requires Inv(cfg, s)
    ensures var r := Implied(cfg, s, newtag);
            && Inv(cfg, r)
            && (!cfg.noImplied && cfg.omitted && r.names == [] ==> newtag == "html")
  {
    hide Inv;
    if !cfg.noImplied && cfg.omitted && newtag != "html" {
      RootInv(cfg, s);
      var r := ImpliedRoot(cfg, s);
      if newtag != "body" && newtag != "head" {
        if |r.names| <= 1 && newtag in HEAD_TAGS {
          PushInv(cfg, r, "head");
        } else if "body" !in r.names {
          PushInv(cfg, r, "body");
        }
      }
    }
  }

  lemma RootInv(cfg: Config, s: State)
    requires Inv(cfg, s)
    ensures Inv(cfg, ImpliedRoot(cfg, s)) && ImpliedRoot(cfg, s).names != []
  {
    if s.names == [] { PushInv(cfg, s, "html"); }
  }

  lemma {:induction false} CountPositive(names: seq<string>, name: string)
    ensures Count(names, name) > 0 <==> name in names
  {
    if names != [] { CountPositive(names[1..], name); }
  }

  lemma StartTagInv(cfg: Config, s: State, name: string)
    requires Inv(cfg, s)
    ensures Inv(cfg, StartTag(cfg, s, name).0)
  {
    hide Inv, Implied, AutoClose, Push;
    AutoCloseInv(cfg, s, name);
    var a := AutoClose(cfg, s, name);
    ImpliedInv(cfg, a, name);
    var r := Implied(cfg, a, name);
    CountPositive(r.names, "body");
    if Misplaced(r.names, name) > 0 {
      DepthInv(cfg, r, r.depth + Misplaced(r.names, name));
    } else {
      PushInv(cfg, r, name);
    }
  }

  lemma DepthInv(cfg: Config, s: State, depth: nat)
    requires Inv(cfg, s)
    ensures Inv(cfg, s.(depth := depth))
  {
  }

  lemma ParagraphInv(cfg: Config, s: State)
    requires Inv(cfg, s)
    ensures Inv(cfg, Paragraph(cfg, s))
  {
    hide Inv, Implied, AutoClose, Push;
    AutoCloseInv(cfg, s, "p");
    var a := AutoClose(cfg, s, "p");
    ImpliedInv(cfg, a, "p");
    PushInv(cfg, Implied(cfg, a, "p"), "p");
  }

  // ----- End tags, elements and the loop -----

  lemma EndTagInv(cfg: Config, s: State, name: string)
    requires Inv(cfg, s)
    ensures Inv(cfg, EndTag(cfg, s, name).0)
  {
    hide Inv, CloseTo, MayClose;
    if s.depth > 0 { DepthInv(cfg, s, s.depth - 1); }
    CloseToInv(cfg, s, name);
    var r := AutoCloseOnClose(cfg, s, name);
    if r.names != [] { CloseInv(cfg, r); }
  }

  lemma ElementInv(cfg: Config, s: State, item: Item)
    requires Inv(cfg, s) && item.Tag?
    ensures Inv(cfg, Element(cfg, s, item))
  {
    hide Inv, StartTag, Paragraph;
    ParagraphInv(cfg, s);
    if item.name.Some? {
      StartTagInv(cfg, s, item.name.value);
      var r := StartTag(cfg, s, item.name.value).0;
      if r.names != [] { CloseInv(cfg, r); }
    }
  }

  /** Every round of the content loop keeps the invariant. */
  lemma RoundInv(cfg: Config, l: Loop)
    requires Inv(cfg, l.s)
    ensures Inv(cfg, Round(cfg, l).s)
  {
    hide Inv, Element, Paragraph, EndTag, AutoClose, CloseAll;
    CloseAllInv(cfg, l.s);
    ParagraphInv(cfg, l.s);
    if l.items != [] {
      if l.items[0].EndOf? && l.items[0].closing.Some? { EndTagInv(cfg, l.s, l.items[0].closing.value); }
      if l.items[0].Tag? {
        ElementInv(cfg, l.s, l.items[0]);
        if l.items[0].face.Some? { AutoCloseInv(cfg, l.s, l.items[0].face.value); }
      }
    }
  }

  /** The loop after `n` rounds. */
  function Rounds(cfg: Config, l: Loop, n: nat): Loop {
    if n == 0 then l else Round(cfg, Rounds(cfg, l, n - 1))
  }

  lemma StartInv(cfg: Config)
    ensures Inv(cfg, INITIAL)
  {
    assert Replay([]) == Some([]) && MostOpen([]) == 0;
  }

  /** Every reachable state of every parse, over every input, satisfies the invariant. */
  lemma {:induction false} Reachable(cfg: Config, items: seq<Item>, n: nat)
    ensures Inv(cfg, Rounds(cfg, Begin(INITIAL, items), n).s)
  {
    hide Inv, Round;
    if n == 0 {
      StartInv(cfg);
    } else {
      Reachable(cfg, items, n - 1);
      RoundInv(cfg, Rounds(cfg, Begin(INITIAL, items), n - 1));
    }
  }

  // ----- When the two stacks have the same height -----

  /** Until the halt the stacks are the same; after it the node stack is the lower one until everything is closed. */
  ghost predicate Heights(s: State) {
    if s.halted then |s.nodes| < |s.names| || s.names == s.nodes == [] else s.nodes == s.names
  }

  lemma PushHeights(cfg: Config, s: State, name: string)
    requires Heights(s) && (s.halted ==> s.names != [])
    ensures Heights(Push(cfg, s, name))
  {
  }

  lemma CloseHeights(s: State)
    requires Heights(s) && s.names != []
    ensures Heights(Close(s)) && Heights(Drop(s))
  {
  }

  lemma {:induction false} AutoCloseHeights(cfg: Config, s: State, newtag: string)
    requires Heights(s)
    ensures Heights(AutoClose(cfg, s, newtag)) && AutoClose(cfg, s, newtag).halted == s.halted
    decreases |s.names|
  {
    hide Heights, ClosesWithin;
    if s.names != [] && Closing(cfg, newtag, Top(s.names).value) {
      CloseHeights(s);
      AutoCloseHeights(cfg, Close(s), newtag);
    }
  }

  lemma {:induction false} CloseAllHeights(s: State)
    requires Heights(s)
    ensures Heights(CloseAll(s))
    decreases |s.names|
  {
    hide Heights;
    if s.names != [] {
      CloseHeights(s);
      CloseAllHeights(Close(s));
    }
  }

  lemma {:induction false} CloseToHeights(s: State, name: string)
    requires Heights(s)
    ensures Heights(CloseTo(s, name))
    decreases |s.names|
  {
    hide Heights;
    if s.names != [] && Top(s.names).value != name {
      CloseHeights(s);
      CloseToHeights(Close(s), name);
    }
  }

  /** A tag met before the halt: its implied tags may bring the halt about, but nothing is closed after it. */
  lemma ImpliedHeights(cfg: Config, s: State, newtag: string)
    requires Heights(s) && !s.halted
    ensures var r := Implied(cfg, s, newtag); Heights(r) && (r.halted ==> r.names != [])
  {
    hide Heights;
    if !cfg.noImplied && cfg.omitted && newtag != "html" {
      if s.names == [] { PushHeights(cfg, s, "html"); }
      var r := ImpliedRoot(cfg, s);
      PushHeights(cfg, r, "head");
      PushHeights(cfg, r, "body");
    }
  }

  lemma OpeningHeights(cfg: Config, s: State, name: string)
    requires Heights(s) && !s.halted
    ensures Heights(StartTag(cfg, s, name).0) && Heights(Paragraph(cfg, s))
  {
    hide Heights, Implied, AutoClose, Push;
    AutoCloseHeights(cfg, s, name);
    ImpliedHeights(cfg, AutoClose(cfg, s, name), name);
    PushHeights(cfg, Implied(cfg, AutoClose(cfg, s, name), name), name);
    MisplacedHeights(Implied(cfg, AutoClose(cfg, s, name), name),
                     Misplaced(Implied(cfg, AutoClose(cfg, s, name), name).names, name));
    AutoCloseHeights(cfg, s, "p");
    ImpliedHeights(cfg, AutoClose(cfg, s, "p"), "p");
    PushHeights(cfg, Implied(cfg, AutoClose(cfg, s, "p"), "p"), "p");
  }

  lemma MisplacedHeights(s: State, m: int)
    requires Heights(s) && s.depth + m >= 0
    ensures Heights(s.(depth := s.depth + m))
  {
  }

  lemma RoundHeights(cfg: Config, l: Loop)
    requires Heights(l.s)
    ensures Heights(Round(cfg, l).s)
  {
    hide Heights, StartTag, Paragraph, MayClose, AutoClose, CloseTo, CloseAll;
    CloseAllHeights(l.s);
    if !l.done && !l.s.halted && l.items != [] {
      OpeningHeights(cfg, l.s, "p");
      match l.items[0]
      case EndOf(closing) =>
        if closing.Some? {
          if l.s.depth > 0 { MisplacedHeights(l.s, -1); }
          CloseToHeights(l.s, closing.value);
          var r := AutoCloseOnClose(cfg, l.s, closing.value);
          if r.names != [] { CloseHeights(r); }
        }
      case Tag(face, name, _, _) =>
        if face.Some? { AutoCloseHeights(cfg, l.s, face.value); }
        if name.Some? {
          OpeningHeights(cfg, l.s, name.value);
          var r := StartTag(cfg, l.s, name.value).0;
          if r.names != [] { CloseHeights(r); }
        }
      case _ =>
    }
  }

  lemma {:induction false} ReachableHeights(cfg: Config, items: seq<Item>, n: nat)
    ensures Heights(Rounds(cfg, Begin(INITIAL, items), n).s)
  {
    hide Heights, Round;
    if n == 0 {
      assert Heights(INITIAL) by { SameHeights(INITIAL); }
    } else {
      ReachableHeights(cfg, items, n - 1);
      RoundHeights(cfg, Rounds(cfg, Begin(INITIAL, items), n - 1));
    }
  }

  lemma SameHeights(s: State)
    requires !s.halted && s.nodes == s.names
    ensures Heights(s)
  {
  }

  /**
    In every reachable state the name stack and the node stack are the same if and only if never
    more than maxDepth + 1 elements were open at once, or none is open any more; and they have
    the same height exactly when they are the same.
   */
  lemma SameStacksIff(cfg: Config, items: seq<Item>, n: nat)
    ensures var s := Rounds(cfg, Begin(INITIAL, items), n).s;
            && (s.nodes == s.names <==> !WentTooDeep(cfg, s.events) || s.names == [])
            && (|s.nodes| == |s.names| <==> s.nodes == s.names)
  {
    hide Rounds, WentTooDeep;
    Reachable(cfg, items, n);
    ReachableHeights(cfg, items, n);
  }

  /** Characters at the start of a document, with implied tags and no depth allowed: three names, one node. */
  lemma StacksDiffer(cfg: Config)
    requires cfg == Config([None], [], 100, {}, false, true, 0, false)
    ensures var s := Rounds(cfg, Begin(INITIAL, [Chars(true)]), 1).s;
            s.names == ["html", "body", "p"] && s.nodes == ["html"]
  {
    var l := Begin(INITIAL, [Chars(true)]);
    assert Rounds(cfg, l, 0) == l;
    assert AutoClose(cfg, INITIAL, "p") == INITIAL;
    var implied := Implied(cfg, INITIAL, "p");
    assert implied.names == ["html", "body"] && implied.nodes == ["html"];
  }

  // ----- Single operations -----

  /** The ends of these elements, the innermost first. */
  function Ends(names: seq<string>): seq<Event> {
    if names == [] then [] else [End(names[|names| - 1])] + Ends(names[..|names| - 1])
  }

  lemma EndsStep(events: seq<Event>, names: seq<string>, k: nat)
    requires k < |names|
    ensures events + [End(names[|names| - 1])] + Ends(names[..|names| - 1][k..]) == events + Ends(names[k..])
  {
    assert names[k..][..|names| - k - 1] == names[..|names| - 1][k..];
  }

  /** At the end of the document every element is ended, the innermost first. */
  lemma {:induction false} CloseAllEnds(s: State)
    ensures CloseAll(s).events == s.events + Ends(s.names)
    decreases |s.names|
  {
    if s.names != [] {
      CloseAllEnds(Close(s));
      EndsStep(s.events, s.names, 0);
      assert s.names[0..] == s.names && Below(s.names)[0..] == Below(s.names);
    }
  }

  /** A start tag first closes the longest run of innermost elements that it closes one by one. */
  lemma {:induction false} AutoCloseTruncates(cfg: Config, s: State, newtag: string) returns (k: nat)
    ensures k <= |s.names| && AutoClose(cfg, s, newtag).names == s.names[..k]
    ensures forall i :: k <= i < |s.names| ==> Closing(cfg, newtag, s.names[i])
    ensures k > 0 ==> !Closing(cfg, newtag, s.names[k - 1])
    ensures AutoClose(cfg, s, newtag).events == s.events + Ends(s.names[k..])
    decreases |s.names|
  {
    hide Closing, Ends;
    k := |s.names|;
    NoEnds(s.events, s.names);
    if s.names != [] && Closing(cfg, newtag, Top(s.names).value) {
      k := AutoCloseTruncates(cfg, Close(s), newtag);
      EndsStep(s.events, s.names, k);
    }
  }

  lemma NoEnds(events: seq<Event>, names: seq<string>)
    ensures events + Ends(names[|names|..]) == events
  {
  }

  /** The end tag `name` reaches the element at `i`: it is the innermost of that name, with nothing stronger inside. */
  ghost predicate Reaches(cfg: Config, names: seq<string>, name: string, i: nat) {
    && i < |names| && names[i] == name
    && (forall j :: i < j < |names| ==> names[j] != name && Priority(cfg, names[j]) <= Priority(cfg, name))
  }

  lemma {:induction false} MayCloseIff(cfg: Config, names: seq<string>, name: string)
    ensures MayClose(cfg, names, name) <==> exists i: nat :: Reaches(cfg, names, name, i)
    decreases |names|
  {
    hide Priority;
    if names != [] {
      var b := Below(names);
      MayCloseIff(cfg, b, name);
      if Top(names).value == name {
        assert Reaches(cfg, names, name, |names| - 1);
      } else {
        forall i: nat | Reaches(cfg, names, name, i)
          ensures Reaches(cfg, b, name, i)
        {
          assert names[|names| - 1] == Top(names).value;
        }
        if MayClose(cfg, b, name) && Priority(cfg, Top(names).value) <= Priority(cfg, name) {
          var i: nat :| Reaches(cfg, b, name, i);
          assert Reaches(cfg, names, name, i);
        }
      }
    }
  }

  lemma {:induction false} CloseToReaches(cfg: Config, s: State, name: string, i: nat)
    requires Reaches(cfg, s.names, name, i)
    ensures CloseTo(s, name).names == s.names[..i + 1] && CloseTo(s, name).events == s.events + Ends(s.names[i + 1..])
    decreases |s.names|
  {
    hide Priority, Ends;
    if Top(s.names).value == name {
      assert i == |s.names| - 1;
      NoEnds(s.events, s.names);
    } else {
      assert i < |s.names| - 1;
      assert Reaches(cfg, Close(s).names, name, i);
      CloseToReaches(cfg, Close(s), name, i);
      EndsStep(s.events, s.names, i + 1);
    }
  }

  lemma LastEnd(events: seq<Event>, names: seq<string>, i: nat)
    requires i < |names|
    ensures events + Ends(names[i + 1..]) + [End(names[i])] == events + Ends(names[i..])
    decreases |names|
  {
    if i == |names| - 1 {
      assert names[i..] == [names[i]] && Ends([names[i]]) == [End(names[i])];
    } else {
      var m := names[..|names| - 1];
      LastEnd(events + [End(names[|names| - 1])], m, i);
      EndsStep(events, names, i + 1);
      EndsStep(events, names, i);
    }
  }

  lemma {:induction false} CloseToDepth(s: State, name: string)
    ensures CloseTo(s, name).depth == s.depth
    decreases |s.names|
  {
    if s.names != [] && Top(s.names).value != name { CloseToDepth(Close(s), name); }
  }

  /** An end tag of a structural element makes up for a discarded start tag. */
  predicate Ignored(s: State, name: string) {
    s.depth > 0 && (name == "html" || name == "head" || name == "body")
  }

  lemma EndTagReaches(cfg: Config, s: State, name: string, i: nat)
    requires !Ignored(s, name) && Reaches(cfg, s.names, name, i)
    ensures var (r, closed) := EndTag(cfg, s, name);
            closed && r.names == s.names[..i] && r.events == s.events + Ends(s.names[i..]) && r.depth == s.depth
  {
    hide Priority, MayClose, CloseTo, Ends;
    MayCloseIff(cfg, s.names, name);
    CloseToReaches(cfg, s, name, i);
    CloseToDepth(s, name);
    LastEnd(s.events, s.names, i);
    assert Below(CloseTo(s, name).names) == s.names[..i];
  }

  lemma EndTagMisses(cfg: Config, s: State, name: string)
    requires Ignored(s, name) || !exists i: nat :: Reaches(cfg, s.names, name, i)
    ensures var (r, closed) := EndTag(cfg, s, name);
            && !closed && r.names == s.names && r.nodes == s.nodes && r.events == s.events
            && r.depth == (if Ignored(s, name) then s.depth - 1 else s.depth)
  {
    hide Priority, MayClose, CloseTo;
    MayCloseIff(cfg, s.names, name);
    assert Top(s.names) == Some(name) ==> Reaches(cfg, s.names, name, |s.names| - 1);
  }

  /**
    An end tag closes exactly the elements from the one it reaches, and nothing at all if it
    reaches none or makes up for a discarded start tag.
   */
  lemma EndTagCloses(cfg: Config, s: State, name: string)
    ensures var (r, closed) := EndTag(cfg, s, name);
            && (closed <==> !Ignored(s, name) && exists i: nat :: Reaches(cfg, s.names, name, i))
            && (closed ==> exists i: nat :: Reaches(cfg, s.names, name, i) && r.names == s.names[..i]
                                            && r.events == s.events + Ends(s.names[i..]))
            && (!closed ==> r.names == s.names && r.nodes == s.nodes && r.events == s.events)
            && r.depth == (if Ignored(s, name) then s.depth - 1 else s.depth)
  {
    hide Reaches, EndTag, Ends;
    if !Ignored(s, name) && exists i: nat :: Reaches(cfg, s.names, name, i) {
      var i: nat :| Reaches(cfg, s.names, name, i);
      EndTagReaches(cfg, s, name, i);
    } else {
      EndTagMisses(cfg, s, name);
    }
  }

  /** Tags are implied at all, for this tag. */
  predicate Implies(cfg: Config, newtag: string) {
    !cfg.noImplied && cfg.omitted && newtag != "html"
  }

  /** A tag that belongs into the head, met before anything but html is open. */
  predicate ForHead(s: State, newtag: string) {
    newtag in {"title", "base", "meta", "link", "style", "script"} && |s.names| <= 1
  }

  /** The three tags that stand for themselves, and those that come instead of a body. */
  predicate NeedsNoBody(newtag: string) {
    newtag in {"html", "head", "body"} || newtag in {"frameset", "frame", "noframes"}
  }

  /**
    Which tags are implied: html exactly outside everything, then at most one of head and body:
    head for the first tag that belongs there, body for any other tag outside both unless a body
    was already opened or the tag comes with frames.
   */
  lemma ImpliedAdds(cfg: Config, s: State, newtag: string) returns (added: seq<string>)
    ensures Implied(cfg, s, newtag).names == s.names + added
    ensures added <= ["html", "head"] || added <= ["html", "body"] || added == ["head"] || added == ["body"]
    ensures "html" in added <==> Implies(cfg, newtag) && s.names == []
    ensures "head" in added <==> Implies(cfg, newtag) && ForHead(s, newtag) && s.html < 3
    ensures "body" in added <==>
              && Implies(cfg, newtag) && !NeedsNoBody(newtag) && !ForHead(s, newtag)
              && s.html < 10 && "body" !in s.names && "head" !in s.names
  {
    added := [];
    if Implies(cfg, newtag) {
      var r := ImpliedRoot(cfg, s);
      added := if s.names == [] then ["html"] else [];
      assert r.names == s.names + added && r.html == s.html;
      if newtag !in STRUCTURE {
        if |r.names| <= 1 && newtag in HEAD_TAGS {
          if r.html < 3 { added := added + ["head"]; }
        } else if newtag !in FRAME_TAGS && r.html < 10 && "body" !in r.names && "head" !in r.names {
          added := added + ["body"];
        }
      }
    }
  }

  /** After the check for a paragraph, characters are inside an element, and not directly in html or head. */
  lemma ParagraphHome(cfg: Config, s: State)
    ensures var r := Paragraph(cfg, s);
            && r.names != []
            && (cfg.omitted ==> Top(r.names).value != "html" && Top(r.names).value != "head")
            && (r != s ==> Top(r.names) == Some("p"))
  {
    hide Implied, AutoClose;
  }

  lemma {:induction false} CountOnce(names: seq<string>, k: nat)
    requires k <= |names|
    requires forall i, j :: 0 <= i < |names| && 0 <= j < |names| && names[i] == "body" && names[j] == "body" ==> i == j
    ensures Count(names[k..], "body") <= 1
    decreases |names| - k
  {
    if k < |names| {
      var t := names[k + 1..];
      assert names[k..][1..] == t;
      CountOnce(names, k + 1);
      CountPositive(t, "body");
      assert forall i :: 0 <= i < |t| ==> t[i] == names[k + 1 + i];
    }
  }

  /**
    A start tag either opens its element, or is discarded and counted once; it is discarded
    exactly if html is met inside another element, head not directly in html, or body in body.
   */
  lemma StartTagOpens(cfg: Config, s: State, name: string)
    requires Inv(cfg, s)
    ensures var (r, discarded) := StartTag(cfg, s, name);
            var open := Implied(cfg, AutoClose(cfg, s, name), name).names;
            && (discarded <==>
                (name == "html" && open != []) || (name == "head" && |open| != 1) || (name == "body" && "body" in open))
            && r.names == (if discarded then open else open + [name])
            && r.depth == (if discarded then s.depth + 1 else s.depth)
  {
    hide Implied, AutoClose, Inv;
    AutoCloseInv(cfg, s, name);
    var a := AutoClose(cfg, s, name);
    ImpliedInv(cfg, a, name);
    ImpliedDepth(cfg, a, name);
    var r := Implied(cfg, a, name);
    CountPositive(r.names, "body");
    InvPlaced(cfg, r);
    CountOnce(r.names, 0);
    assert r.names[0..] == r.names;
  }

  lemma InvPlaced(cfg: Config, s: State)
    requires Inv(cfg, s)
    ensures WellPlaced(s.names)
  {
  }

  lemma ImpliedDepth(cfg: Config, s: State, newtag: string)
    ensures Implied(cfg, s, newtag).depth == s.depth
  {
  }

  /** Once the implied tags of a tag are there, asking for them again adds nothing. */
  lemma ImpliedOnce(cfg: Config, s: State, newtag: string)
    ensures var r := Implied(cfg, s, newtag); Implied(cfg, r, newtag) == r
  {
  }

  /** A body is implied at most once in a document, and none after a body tag. */
  lemma NoSecondBody(cfg: Config, s: State, newtag: string)
    requires s.html >= 10
    ensures var r := Implied(cfg, s, newtag);
            r.html == s.html && (r.names == s.names || (s.names == [] && r.names == ["html"]))
  {
  }

  /**
    A discarded start tag still ends like a tag: with "/>", or without ">", it closes the
    element it was found in.
   */
  lemma DiscardedTagCloses(cfg: Config, s: State, name: string, tail: Tail)
    requires StartTag(cfg, s, name).1 && tail != Greater
    ensures var open := Implied(cfg, AutoClose(cfg, s, name), name).names;
            Element(cfg, s, Tag(None, Some(name), tail, false)).names == Below(open)
  {
    hide Implied, AutoClose;
  }

  // ----- Termination -----

  lemma {:induction false} AutoCloseShrinks(cfg: Config, s: State, newtag: string)
    ensures |AutoClose(cfg, s, newtag).names| <= |s.names|
    ensures s.names != [] && Closing(cfg, newtag, Top(s.names).value) ==> |AutoClose(cfg, s, newtag).names| < |s.names|
    decreases |s.names|
  {
    hide Closing;
    if s.names != [] && Closing(cfg, newtag, Top(s.names).value) {
      AutoCloseShrinks(cfg, Close(s), newtag);
    }
  }

  /** A round consumes input, or closes elements, or brings the noted element up to date. */
  lemma RoundDecreases(cfg: Config, l: Loop)
    requires !Round(cfg, l).done
    ensures var r := Round(cfg, l);
            || |r.items| < |l.items|
            || (|r.items| == |l.items| && |r.s.names| < |l.s.names|)
            || (|r.items| == |l.items| && |r.s.names| == |l.s.names| && Stale(l) && !Stale(r))
  {
    hide Element, Paragraph, EndTag, AutoClose, CloseAll, Closing;
    if Preclosed(cfg, l) {
      AutoCloseShrinks(cfg, l.s, l.items[0].face.value);
    }
  }
}
