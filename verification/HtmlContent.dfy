/**
  What the content loop of the HTML parser makes of its input. The loop keeps a note of the
  current element and looks at each piece more than once; all that comes to handling the pieces
  one by one, and a document whose tags are balanced is read as its tree.
 */
module HtmlContent {
  import opened Ordering
  import opened HtmlStack
  import opened HtmlStackSafety

  // ----- One element -----

  /**
    What is open after a start tag and its end: the element itself, unless it was discarded, or
    ended by "/>" or by its kind, or lacks its ">", or was too deep. What is closed there is the
    innermost element, which for a discarded tag is the one it was found in.
   */
  lemma ElementLeaves(cfg: Config, s: State, face: Option<string>, name: string, tail: Tail, text: bool)
    ensures var before := Implied(cfg, AutoClose(cfg, s, name), name);
            var (r, discarded) := StartTag(cfg, s, name);
            var open := if discarded then before.names else before.names + [name];
            var e := Element(cfg, s, Tag(face, Some(name), tail, text));
            && e.halted == r.halted && e.depth == r.depth && e.html == r.html
            && r.events == before.events + (if discarded then [] else [Start(name)])
            && if open == [] then e.names == [] && e.events == r.events
               else
                 var last := open[|open| - 1];
                 if tail == Neither || r.halted then
                   e.names == open[..|open| - 1] && e.events == r.events + [Dropped(last)]
                 else if tail == Slash || last in cfg.empty then
                   e.names == open[..|open| - 1] && e.events == r.events + [End(last)]
                 else e.names == open && e.events == r.events
  {
    hide Implied, AutoClose, StartTag, Finish;
    TagStarts(cfg, s, name);
    FinishLeaves(cfg, StartTag(cfg, s, name).0, tail);
  }

  lemma TagStarts(cfg: Config, s: State, name: string)
    ensures var before := Implied(cfg, AutoClose(cfg, s, name), name);
            var (r, discarded) := StartTag(cfg, s, name);
            && r.names == (if discarded then before.names else before.names + [name])
            && r.events == before.events + (if discarded then [] else [Start(name)])
  {
    hide Implied, AutoClose, Misplaced;
    var before := Implied(cfg, AutoClose(cfg, s, name), name);
    assert before.events + [] == before.events;
  }

  lemma FinishLeaves(cfg: Config, s: State, tail: Tail)
    ensures var e, n := Finish(cfg, s, tail), |s.names|;
            && e.halted == s.halted && e.depth == s.depth && e.html == s.html
            && if n == 0 then e == s
               else
                 var last := s.names[n - 1];
                 if tail == Neither || s.halted then
                   e.names == s.names[..n - 1] && e.events == s.events + [Dropped(last)]
                 else if tail == Slash || last in cfg.empty then
                   e.names == s.names[..n - 1] && e.events == s.events + [End(last)]
                 else e == s
  {
  }

  /** A paragraph is inserted as a start tag of its own would be, and only outside elements or in html and head. */
  lemma ParagraphIsTag(cfg: Config, s: State)
    ensures Paragraph(cfg, s) ==
            if s.names == [] || (cfg.omitted && (Top(s.names) == Some("html") || Top(s.names) == Some("head")))
            then StartTag(cfg, s, "p").0 else s
  {
    hide Implied, AutoClose;
  }

  // ----- Elements without content -----

  ghost predicate NoneEmpty(cfg: Config, names: seq<string>) {
    forall n :: n in names ==> n !in cfg.empty
  }

  /** The elements that are opened without a tag of their own have content. */
  predicate StructureFull(cfg: Config) {
    "html" !in cfg.empty && "head" !in cfg.empty && "body" !in cfg.empty && "p" !in cfg.empty
  }

  lemma NoneEmptyClosed(cfg: Config, s: State)
    requires NoneEmpty(cfg, s.names) && s.names != []
    ensures NoneEmpty(cfg, Close(s).names) && NoneEmpty(cfg, Drop(s).names)
  {
  }

  lemma {:induction false} NoneEmptyAutoClose(cfg: Config, s: State, newtag: string)
    requires NoneEmpty(cfg, s.names)
    ensures NoneEmpty(cfg, AutoClose(cfg, s, newtag).names)
    decreases |s.names|
  {
    hide Closing, NoneEmpty;
    if s.names != [] && Closing(cfg, newtag, Top(s.names).value) {
      NoneEmptyClosed(cfg, s);
      NoneEmptyAutoClose(cfg, Close(s), newtag);
    }
  }

  lemma {:induction false} NoneEmptyCloseTo(cfg: Config, s: State, name: string)
    requires NoneEmpty(cfg, s.names)
    ensures NoneEmpty(cfg, CloseTo(s, name).names)
    decreases |s.names|
  {
    hide NoneEmpty;
    if s.names != [] && Top(s.names).value != name {
      NoneEmptyClosed(cfg, s);
      NoneEmptyCloseTo(cfg, Close(s), name);
    }
  }

  lemma {:induction false} ClosedAll(s: State)
    ensures CloseAll(s).names == []
    decreases |s.names|
  {
    if s.names != [] { ClosedAll(Close(s)); }
  }

  lemma NoneEmptyImplied(cfg: Config, s: State, newtag: string)
    requires StructureFull(cfg) && NoneEmpty(cfg, s.names)
    ensures NoneEmpty(cfg, Implied(cfg, s, newtag).names)
  {
    var added := ImpliedAdds(cfg, s, newtag);
    forall n | n in added ensures n !in cfg.empty {
      assert n in ["html", "head"] || n in ["html", "body"];
    }
  }

  lemma NoneEmptyElement(cfg: Config, s: State, item: Item)
    requires StructureFull(cfg) && NoneEmpty(cfg, s.names) && item.Tag?
    ensures NoneEmpty(cfg, Element(cfg, s, item).names) && NoneEmpty(cfg, Paragraph(cfg, s).names)
  {
    hide Implied, AutoClose;
    NoneEmptyAutoClose(cfg, s, "p");
    NoneEmptyImplied(cfg, AutoClose(cfg, s, "p"), "p");
    if item.name.Some? {
      var name := item.name.value;
      NoneEmptyAutoClose(cfg, s, name);
      NoneEmptyImplied(cfg, AutoClose(cfg, s, name), name);
    }
  }

  lemma NoneEmptyRound(cfg: Config, l: Loop)
    requires StructureFull(cfg) && NoneEmpty(cfg, l.s.names)
    ensures NoneEmpty(cfg, Round(cfg, l).s.names)
  {
    hide Element, Paragraph, AutoClose, CloseAll, CloseTo, MayClose;
    ClosedAll(l.s);
    if l.items != [] {
      match l.items[0]
      case EndOf(closing) =>
        if closing.Some? {
          NoneEmptyCloseTo(cfg, l.s, closing.value);
        }
      case Tag(face, _, _, _) =>
        NoneEmptyElement(cfg, l.s, l.items[0]);
        if face.Some? { NoneEmptyAutoClose(cfg, l.s, face.value); }
      case _ =>
        NoneEmptyElement(cfg, l.s, Tag(None, None, Greater, false));
    }
  }

  /** An element without content is never open when the next piece of input is looked at. */
  lemma {:induction false} NoEmptyOpen(cfg: Config, items: seq<Item>, n: nat)
    requires StructureFull(cfg)
    ensures NoneEmpty(cfg, Rounds(cfg, Begin(INITIAL, items), n).s.names)
  {
    hide NoneEmpty, Round;
    if n == 0 {
      assert NoneEmpty(cfg, []) by { NoneAtStart(cfg); }
    } else {
      NoEmptyOpen(cfg, items, n - 1);
      NoneEmptyRound(cfg, Rounds(cfg, Begin(INITIAL, items), n - 1));
    }
  }

  lemma NoneAtStart(cfg: Config)
    ensures NoneEmpty(cfg, [])
  {
  }

  // ----- Piece by piece -----

  /** The content of scripts and styles is not looked at. */
  predicate Raw(name: Option<string>) {
    name == Some("script") || name == Some("style")
  }

  /**
    The state between two pieces. `stuck`: a start tag has closed everything, down to a script or
    style, and the loop goes on as if that one were still open.
   */
  datatype Spot = Spot(s: State, stuck: bool)

  function Faced(cfg: Config, s: State, face: Option<string>): State {
    if face.Some? then AutoClose(cfg, s, face.value) else s
  }

  /** One piece of input. */
  function Handle(cfg: Config, p: Spot, item: Item): Spot {
    match item
    case EndOf(closing) => if closing.Some? then Spot(EndTag(cfg, p.s, closing.value).0, p.stuck) else p
    case Tag(face, _, _, _) =>
      var t := Faced(cfg, p.s, face);
      var stuck := p.stuck || (Raw(Top(p.s.names)) && t.names == []);
      if stuck || Raw(Top(t.names)) then Spot(t, stuck) else Spot(Element(cfg, t, item), false)
    case Chars(paragraph) =>
      if paragraph && !p.stuck && !Raw(Top(p.s.names)) then Spot(Paragraph(cfg, p.s), false) else p
    case Quiet => p
  }

  /** A tag without a name is text, or nothing. */
  lemma NamelessTag(cfg: Config, p: Spot, tail: Tail, text: bool)
    ensures Handle(cfg, p, Tag(None, None, tail, text)) == Handle(cfg, p, if text then Chars(true) else Quiet)
  {
    hide Paragraph;
  }

  /** All pieces up to the end, or to the halt. */
  function HandleAll(cfg: Config, p: Spot, items: seq<Item>): Spot
    decreases |items|
  {
    if p.s.halted || items == [] then p else HandleAll(cfg, Handle(cfg, p, items[0]), items[1..])
  }

  lemma {:induction false} RoundsAdd(cfg: Config, l: Loop, a: nat, b: nat)
    ensures Rounds(cfg, l, a + b) == Rounds(cfg, Rounds(cfg, l, a), b)
    decreases b
  {
    hide Round;
    if b > 0 { RoundsAdd(cfg, l, a, b - 1); }
  }

  const UNTAGGED := {"html", "head", "body", "p"}

  /** The elements above the noted level were opened without a tag. */
  ghost predicate Above(names: seq<string>, level: nat) {
    forall i :: level <= i < |names| ==> names[i] in UNTAGGED
  }

  /** What the note of the current element is good for. */
  ghost predicate Noted(l: Loop, stuck: bool) {
    && !l.done && Above(l.s.names, l.level)
    && (l.level < |l.s.names| ==> !Raw(l.current))
    && (l.s.names == [] ==> (Raw(l.current) <==> stuck))
    && (l.s.names != [] ==> !stuck)
    && (l.current.None? ==> l.level == 0)
  }

  /** As to scripts and styles, the note agrees with the innermost element. */
  ghost predicate Sound(l: Loop, stuck: bool) {
    Noted(l, stuck) && (l.s.names != [] ==> (Raw(l.current) <==> Raw(Top(l.s.names))))
  }

  lemma NoteSound(l: Loop)
    requires !l.done
    ensures Sound(Note(l), false)
  {
  }

  /** A tag or other piece that closes nothing beforehand: first the note is brought up to date. */
  lemma Settle(cfg: Config, l: Loop, stuck: bool) returns (k: nat)
    requires Noted(l, stuck) && !l.s.halted && !Preclosed(cfg, l) && (l.items != [] ==> !l.items[0].EndOf?)
    ensures var r := Rounds(cfg, l, k);
            Sound(r, stuck) && !Stale(r) && r.s == l.s && r.items == l.items
  {
    assert Rounds(cfg, l, 0) == l;
    if Stale(l) {
      k := 1;
      NoteSound(l);
      assert Rounds(cfg, l, 1) == Round(cfg, l) == Note(l);
    } else {
      k := 0;
      if l.level < |l.s.names| { assert l.s.names[|l.s.names| - 1] in UNTAGGED; }
    }
  }

  /** After a piece: the state is that of Handle, and unless the parser halted the note is sound. */
  ghost predicate Handled(cfg: Config, l: Loop, stuck: bool, r: Loop) {
    l.items != [] &&
    var p := Handle(cfg, Spot(l.s, stuck), l.items[0]);
    && r.s == p.s && !r.done && r.items == (if r.s.halted then [] else l.items[1..])
    && (!r.s.halted ==> Sound(r, p.stuck))
  }

  lemma EndTagKeeps(cfg: Config, s: State, name: string)
    ensures var (r, closed) := EndTag(cfg, s, name);
            && (!closed ==> r.names == s.names)
            && (closed ==> |r.names| < |s.names| && r.names == s.names[..|r.names|])
  {
    EndTagCloses(cfg, s, name);
  }

  lemma EndHandled(cfg: Config, l: Loop, stuck: bool)
    requires Sound(l, stuck) && !l.s.halted && l.items != [] && l.items[0].EndOf?
    ensures Handled(cfg, l, stuck, Round(cfg, l))
  {
    hide EndTag;
    match l.items[0].closing
    case None =>
    case Some(name) =>
      EndTagKeeps(cfg, l.s, name);
      var (s, closed) := EndTag(cfg, l.s, name);
      if closed && (l.current.Some? || s.names == []) {
        NoteSound(Consume(l, s));
      } else if closed {
        assert Above(s.names, 0) && s.names[|s.names| - 1] == l.s.names[|s.names| - 1];
        assert s.names[|s.names| - 1] in UNTAGGED;
      }
  }

  /** What a paragraph adds was opened without a tag. */
  lemma ParagraphAdds(cfg: Config, s: State, level: nat)
    requires Above(s.names, level) && !Raw(Top(s.names))
    ensures var r := Paragraph(cfg, s); Above(r.names, level) && r.names != [] && !Raw(Top(r.names))
  {
    hide Implied, AutoClose;
    var k := AutoCloseTruncates(cfg, s, "p");
    var added := ImpliedAdds(cfg, AutoClose(cfg, s, "p"), "p");
    var r := Paragraph(cfg, s);
    if r != s {
      assert r.names == s.names[..k] + added + ["p"];
      forall i | level <= i < |r.names| ensures r.names[i] in UNTAGGED {
        if k <= i < |r.names| - 1 {
          assert r.names[i] == added[i - k] && added[i - k] in added;
          assert added <= ["html", "head"] || added <= ["html", "body"] || added == ["head"] || added == ["body"];
        } else if i < k {
          assert r.names[i] == s.names[i];
        }
      }
    }
  }

  lemma CharsRound(cfg: Config, l: Loop, stuck: bool)
    requires Sound(l, stuck) && !Stale(l) && !l.s.halted && l.items != [] && (l.items[0].Chars? || l.items[0].Quiet?)
    ensures Handled(cfg, l, stuck, Round(cfg, l))
  {
    hide Paragraph, Above;
    if l.items[0].Chars? && l.items[0].paragraph && !Raw(l.current) && !stuck && !Raw(Top(l.s.names)) {
      ParagraphAdds(cfg, l.s, l.level);
    }
  }

  lemma CharsHandled(cfg: Config, l: Loop, stuck: bool) returns (k: nat)
    requires Sound(l, stuck) && !l.s.halted && l.items != [] && (l.items[0].Chars? || l.items[0].Quiet?)
    ensures Handled(cfg, l, stuck, Rounds(cfg, l, k))
  {
    hide Sound, Round, Rounds, Stale, Handle, Handled;
    var m := SettleChars(cfg, l, stuck);
    var r := Rounds(cfg, l, m);
    k := m + 1;
    RoundOnce(cfg, l, m);
    CharsRound(cfg, r, stuck);
    HandledSame(cfg, l, r, stuck, Round(cfg, r));
  }

  lemma RoundOnce(cfg: Config, l: Loop, k: nat)
    ensures Rounds(cfg, l, k + 1) == Round(cfg, Rounds(cfg, l, k))
  {
  }

  lemma HandledSame(cfg: Config, l: Loop, r: Loop, stuck: bool, q: Loop)
    requires r.s == l.s && r.items == l.items && Handled(cfg, r, stuck, q)
    ensures Handled(cfg, l, stuck, q)
  {
    hide Handle, Sound;
  }

  lemma SettleChars(cfg: Config, l: Loop, stuck: bool) returns (k: nat)
    requires Sound(l, stuck) && !l.s.halted && l.items != [] && (l.items[0].Chars? || l.items[0].Quiet?)
    ensures var r := Rounds(cfg, l, k);
            Sound(r, stuck) && !Stale(r) && r.s == l.s && r.items == l.items
  {
    k := Settle(cfg, l, stuck);
  }

  lemma FacedNames(cfg: Config, s: State, face: Option<string>)
    ensures var t := Faced(cfg, s, face);
            && |t.names| <= |s.names| && t.names == s.names[..|t.names|] && t.halted == s.halted
            && (face.Some? && t.names != [] ==> !Closing(cfg, face.value, Top(t.names).value))
  {
    if face.Some? {
      var k := AutoCloseTruncates(cfg, s, face.value);
      AutoCloseHalts(cfg, s, face.value);
    }
  }

  lemma {:induction false} AutoCloseHalts(cfg: Config, s: State, newtag: string)
    ensures AutoClose(cfg, s, newtag).halted == s.halted
    decreases |s.names|
  {
    if s.names != [] && Closing(cfg, newtag, Top(s.names).value) { AutoCloseHalts(cfg, Close(s), newtag); }
  }

  /** The elements that a start tag read ahead closes are closed in a round of its own. */
  lemma FaceHandled(cfg: Config, l: Loop, stuck: bool) returns (k: nat)
    requires Sound(l, stuck) && !l.s.halted && l.items != [] && l.items[0].Tag?
    ensures var t := Faced(cfg, l.s, l.items[0].face);
            var r := Rounds(cfg, l, k);
            && r.s == t && !t.halted && r.items == l.items && !Preclosed(cfg, r)
            && Noted(r, stuck || (Raw(Top(l.s.names)) && t.names == []))
  {
    hide AutoClose, Closing;
    FacedNames(cfg, l.s, l.items[0].face);
    assert Rounds(cfg, l, 0) == l;
    if Preclosed(cfg, l) {
      k := 1;
      var r := l.(s := AutoClose(cfg, l.s, l.items[0].face.value));
      assert Rounds(cfg, l, 1) == Round(cfg, l) == r;
      assert forall i :: 0 <= i < |r.s.names| ==> r.s.names[i] == l.s.names[i];
    } else {
      k := 0;
      if l.items[0].face.Some? { NotClosed(cfg, l.s, l.items[0].face.value); }
    }
  }

  lemma NotClosed(cfg: Config, s: State, newtag: string)
    requires s.names != [] ==> !Closing(cfg, newtag, Top(s.names).value)
    ensures AutoClose(cfg, s, newtag) == s
  {
  }

  /** Once the note is up to date, a start tag is parsed, or skipped inside a script or style. */
  lemma TagRound(cfg: Config, l: Loop, stuck: bool)
    requires Sound(l, stuck) && !l.s.halted && !Stale(l) && !Preclosed(cfg, l) && l.items != [] && l.items[0].Tag?
    ensures var raw := stuck || Raw(Top(l.s.names));
            var r := Round(cfg, l);
            && r.s == (if raw then l.s else Element(cfg, l.s, l.items[0]))
            && !r.done && r.items == (if r.s.halted then [] else l.items[1..])
            && (!r.s.halted ==> Sound(r, raw && stuck))
  {
    hide Element, Closing, Above, Preclosed;
    assert Raw(l.current) <==> stuck || Raw(Top(l.s.names));
    if !Raw(l.current) { NoteSound(Consume(l, Element(cfg, l.s, l.items[0]))); }
  }

  lemma TagHandled(cfg: Config, l: Loop, stuck: bool) returns (k: nat)
    requires Sound(l, stuck) && !l.s.halted && l.items != [] && l.items[0].Tag?
    ensures Handled(cfg, l, stuck, Rounds(cfg, l, k))
  {
    hide Element, AutoClose, Above, Closing, Sound, Noted, Round, Preclosed, Stale;
    var a := FaceHandled(cfg, l, stuck);
    var l1 := Rounds(cfg, l, a);
    var stuck1 := stuck || (Raw(Top(l.s.names)) && l1.s.names == []);
    var b := Settle(cfg, l1, stuck1);
    var l2 := Rounds(cfg, l1, b);
    RoundsAdd(cfg, l, a, b);
    k := a + b + 1;
    SamePreclosed(cfg, l1, l2);
    TagRound(cfg, l2, stuck1);
    assert Rounds(cfg, l, k) == Round(cfg, l2);
  }

  lemma SamePreclosed(cfg: Config, l: Loop, r: Loop)
    requires r.s == l.s && r.items == l.items
    ensures Preclosed(cfg, r) == Preclosed(cfg, l)
  {
  }

  /** From one piece to the next. */
  lemma OneHandled(cfg: Config, l: Loop, stuck: bool) returns (k: nat)
    requires Sound(l, stuck) && !l.s.halted && l.items != []
    ensures Handled(cfg, l, stuck, Rounds(cfg, l, k))
  {
    hide Sound, Handled, Round;
    if l.items[0].EndOf? {
      k := 1;
      EndHandled(cfg, l, stuck);
      assert Rounds(cfg, l, 0) == l;
    } else if l.items[0].Tag? {
      k := TagHandled(cfg, l, stuck);
    } else {
      k := CharsHandled(cfg, l, stuck);
    }
  }

  /** How the loop ends: everything is closed, unless the parser has halted. */
  function Ended(s: State): State {
    if s.halted then s else CloseAll(s)
  }

  lemma {:induction false} AllHandled(cfg: Config, l: Loop, stuck: bool) returns (k: nat)
    requires !l.done && (l.s.halted ==> l.items == []) && (!l.s.halted ==> Sound(l, stuck))
    ensures var r := Rounds(cfg, l, k);
            r.done && r.s == Ended(HandleAll(cfg, Spot(l.s, stuck), l.items).s)
    decreases |l.items|
  {
    hide Sound, Round, CloseAll;
    assert Rounds(cfg, l, 0) == l;
    if l.s.halted {
      k := 1;
      HaltedRound(cfg, l);
    } else if l.items == [] {
      var m := SettleEnd(cfg, l, stuck);
      k := m + 1;
      LastRound(cfg, Rounds(cfg, l, m));
    } else {
      var a := OneHandled(cfg, l, stuck);
      var p := Handle(cfg, Spot(l.s, stuck), l.items[0]);
      var r := Rounds(cfg, l, a);
      var b := AllHandled(cfg, r, p.stuck);
      RoundsAdd(cfg, l, a, b);
      k := a + b;
      if p.s.halted { assert HandleAll(cfg, p, l.items[1..]) == p; }
    }
  }

  lemma SettleEnd(cfg: Config, l: Loop, stuck: bool) returns (k: nat)
    requires Sound(l, stuck) && !l.s.halted && l.items == []
    ensures var r := Rounds(cfg, l, k);
            !r.done && !Stale(r) && r.s == l.s && r.items == []
  {
    k := Settle(cfg, l, stuck);
  }

  lemma HaltedRound(cfg: Config, l: Loop)
    requires l.s.halted
    ensures Round(cfg, l).done && Round(cfg, l).s == l.s
  {
  }

  lemma LastRound(cfg: Config, l: Loop)
    requires !l.done && !l.s.halted && l.items == [] && !Stale(l)
    ensures Round(cfg, l).done && Round(cfg, l).s == CloseAll(l.s)
  {
    hide CloseAll;
  }

  /**
    The content loop, whatever its note and its repeated looks at a piece: it comes to its end,
    and its result is that of handling the pieces one after the other.
   */
  lemma LoopHandlesAll(cfg: Config, items: seq<Item>) returns (k: nat)
    ensures var r := Rounds(cfg, Begin(INITIAL, items), k);
            r.done && r.s == Ended(HandleAll(cfg, Spot(INITIAL, false), items).s)
  {
    hide Round, HandleAll;
    k := AllHandled(cfg, Begin(INITIAL, items), false);
  }

  lemma {:induction false} DoneStays(cfg: Config, l: Loop, k: nat)
    requires l.done
    ensures Rounds(cfg, l, k) == l
  {
    if k > 0 { DoneStays(cfg, l, k - 1); }
  }

  /** There is only one end. */
  lemma DoneOnce(cfg: Config, l: Loop, a: nat, b: nat)
    requires Rounds(cfg, l, a).done && Rounds(cfg, l, b).done
    ensures Rounds(cfg, l, a) == Rounds(cfg, l, b)
  {
    hide Round;
    var c, d := if a <= b then a else b, if a <= b then b else a;
    RoundsAdd(cfg, l, c, d - c);
    DoneStays(cfg, Rounds(cfg, l, c), d - c);
  }
}
