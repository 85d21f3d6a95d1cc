/**
  The canonicalizer as it runs: one object whose stack of rendered namespaces, output buffer
  and document position are updated in place by mutually recursive methods. Each method is
  proved to do what the function of the same name in C14nSpec says.
 */
module C14nMachine {
  import opened Ordering
  import opened C14nTree
  import opened C14nSpec
  import opened C14nNamespaces
  import opened C14nEscape
  import opened C14nPrint

  // ----- Where the loop over the axis stands -----

  /** The prefixes declared before position j of level i, walking outwards from the element. */
  function Nearer(chain: Chain, i: nat, j: nat): set<string>
    requires i < |chain| && j <= |chain[i].nsDefs|
    decreases i
  {
    (if i == 0 then {} else Nearer(chain, i - 1, |chain[i - 1].nsDefs|)) + Prefixes(chain[i].nsDefs[..j])
  }

  lemma {:induction false} SearchPosIff(chain: Chain, i: nat, j: nat, p: string)
    requires i < |chain| && j <= |chain[i].nsDefs|
    ensures p in Nearer(chain, i, j) <==>
            SearchPos(chain, p).Some? &&
            (SearchPos(chain, p).value.0 < i || (SearchPos(chain, p).value.0 == i && SearchPos(chain, p).value.1 < j))
    decreases i
  {
    if i > 0 { SearchPosIff(chain, i - 1, |chain[i - 1].nsDefs|, p); }
    SearchPosLevel(chain, i, p);
    var defs := chain[i].nsDefs;
    var k := DefIndex(defs, p);
    if k < j {
      assert defs[k] == defs[..j][k] && defs[k] in defs[..j];
    } else {
      forall d | d in defs[..j] ensures d.prefix != p {
        var m :| 0 <= m < j && defs[m] == d;
      }
    }
  }

  /** The nearest declaration is on level i exactly when level i has one and no nearer level has. */
  lemma {:induction false} SearchPosLevel(chain: Chain, i: nat, p: string)
    requires i < |chain|
    ensures var k := DefIndex(chain[i].nsDefs, p);
            var r := SearchPos(chain, p);
            k < |chain[i].nsDefs| ==> r.Some? && r.value.0 <= i && (r.value.0 == i ==> r.value.1 == k)
    ensures SearchPos(chain, p).Some? && SearchPos(chain, p).value.0 == i ==>
            DefIndex(chain[i].nsDefs, p) < |chain[i].nsDefs|
  {
    if i > 0 { SearchPosLevel(chain[1..], i - 1, p); }
  }

  /** The declarations still to be looked at from position j of level i. */
  function Remaining(chain: Chain, i: nat, j: nat, hidden: set<string>): seq<Ns>
    requires i < |chain| && j <= |chain[i].nsDefs|
  {
    var seen := Nearer(chain, i, j);
    Shown(Unshadowed(chain[i].nsDefs[j..], seen) + InScope(chain[i + 1..], seen + Prefixes(chain[i].nsDefs[j..])),
          hidden)
  }

  lemma RemainingStart(chain: Chain, hidden: set<string>)
    requires chain != []
    ensures Remaining(chain, 0, 0, hidden) == Axis(chain, hidden)
  {
    assert chain[0].nsDefs[0..] == chain[0].nsDefs;
    assert Nearer(chain, 0, 0) == {};
  }

  lemma NearerStep(chain: Chain, i: nat, j: nat)
    requires i < |chain| && j < |chain[i].nsDefs|
    ensures Nearer(chain, i, j + 1) == Nearer(chain, i, j) + {chain[i].nsDefs[j].prefix}
    ensures Nearer(chain, i, j) + Prefixes(chain[i].nsDefs[j..])
            == Nearer(chain, i, j + 1) + Prefixes(chain[i].nsDefs[j + 1..])
  {
    var defs := chain[i].nsDefs;
    assert defs[j..] == [defs[j]] + defs[j + 1..];
    assert defs[..j + 1] == defs[..j] + [defs[j]];
    assert Prefixes(defs[..j + 1]) == Prefixes(defs[..j]) + {defs[j].prefix};
    assert Prefixes(defs[j..]) == Prefixes(defs[j + 1..]) + {defs[j].prefix};
  }

  /** xmlSearchNs finds the declaration itself exactly when no nearer declaration shadows it. */
  lemma NearestIff(chain: Chain, i: nat, j: nat)
    requires i < |chain| && j < |chain[i].nsDefs|
    ensures var p := chain[i].nsDefs[j].prefix;
            p !in Nearer(chain, i, j) <==> SearchPos(chain, p) == Some((i, j))
  {
    hide Nearer, SearchPos;
    var p := chain[i].nsDefs[j].prefix;
    SearchPosIff(chain, i, j, p);
    SearchPosLevel(chain, i, p);
  }

  lemma ShownCons(ns: Ns, t: seq<Ns>, hidden: set<string>)
    ensures Shown([ns] + t, hidden) ==
            if ns.prefix != "xml" && ns.prefix !in hidden then [ns] + Shown(t, hidden) else Shown(t, hidden)
  {
    assert ([ns] + t)[1..] == t;
  }

  lemma UnshadowedStep(defs: seq<Ns>, j: nat, seen: set<string>)
    requires j < |defs|
    ensures Unshadowed(defs[j..], seen) ==
            if defs[j].prefix in seen then Unshadowed(defs[j + 1..], seen)
            else [defs[j]] + Unshadowed(defs[j + 1..], seen + {defs[j].prefix})
  {
    assert defs[j..][1..] == defs[j + 1..];
  }

  /** One step of the inner loop: the declaration counts when no nearer one shadows it. */
  lemma RemainingStep(chain: Chain, i: nat, j: nat, hidden: set<string>)
    requires i < |chain| && j < |chain[i].nsDefs|
    ensures var ns := chain[i].nsDefs[j];
            var rest := Remaining(chain, i, j + 1, hidden);
            Remaining(chain, i, j, hidden) ==
            if ns.prefix != "xml" && SearchPos(chain, ns.prefix) == Some((i, j)) && ns.prefix !in hidden
            then [ns] + rest else rest
  {
    hide Nearer, SearchPos, Prefixes, InScope, Unshadowed, Shown;
    var defs := chain[i].nsDefs;
    var ns := defs[j];
    var seen := Nearer(chain, i, j);
    NearerStep(chain, i, j);
    NearestIff(chain, i, j);
    UnshadowedStep(defs, j, seen);
    var u := Unshadowed(defs[j + 1..], seen + {ns.prefix});
    var s := InScope(chain[i + 1..], seen + Prefixes(defs[j..]));
    if ns.prefix in seen {
      assert seen + {ns.prefix} == seen;
    } else {
      assert [ns] + u + s == [ns] + (u + s);
      ShownCons(ns, u + s, hidden);
    }
  }

  /** Moving on to the next ancestor. */
  lemma RemainingNext(chain: Chain, i: nat, hidden: set<string>)
    requires i + 1 < |chain|
    ensures Remaining(chain, i, |chain[i].nsDefs|, hidden) == Remaining(chain, i + 1, 0, hidden)
  {
    var seen := Nearer(chain, i, |chain[i].nsDefs|);
    assert Nearer(chain, i + 1, 0) == seen;
    assert seen + Prefixes([]) == seen;
    assert chain[i + 1..][0] == chain[i + 1] && chain[i + 1..][1..] == chain[i + 2..];
    assert chain[i + 1].nsDefs[0..] == chain[i + 1].nsDefs;
    assert [] + InScope(chain[i + 1..], seen) == InScope(chain[i + 1..], seen);
  }

  lemma RemainingEnd(chain: Chain, hidden: set<string>)
    requires chain != []
    ensures Remaining(chain, |chain| - 1, |chain[|chain| - 1].nsDefs|, hidden) == []
  {
  }

  lemma TopStep(tab: seq<Entry>, lo: nat, i: nat, p: string)
    requires lo <= i < |tab|
    ensures Top(tab[lo..i + 1], p) == if tab[i].ns.prefix == p then Some(tab[i]) else Top(tab[lo..i], p)
  {
    TopPush(tab[lo..i], tab[i], p);
    assert tab[lo..i + 1] == tab[lo..i] + [tab[i]];
  }

  lemma FindIs(st: Stack, ns: Ns, start: nat)
    requires WindowOk(st) && start == if ns == DEFAULT_UNDECLARED then 0 else st.prevStart
    ensures Find(st, ns) ==
            match Top(st.tab[start..], ns.prefix)
            case Some(e) => e.ns.href == ns.href
            case None => ns == DEFAULT_UNDECLARED
  {
    hide Top;
  }

  lemma TopNothing(tab: seq<Entry>, p: string)
    requires tab == []
    ensures Top(tab, p) == None
  {
  }

  lemma DeclTokensCons(ns: Ns, list: seq<Ns>)
    ensures DeclTokens([ns] + list) == DeclTokens([ns]) + DeclTokens(list)
  {
    assert ([ns] + list)[1..] == list;
    assert DeclTokens([ns]) == [Decl(ns)];
  }

  // ----- The running canonicalizer -----

  /** A saved stack position (nsCurEnd, nsPrevStart, nsPrevEnd). */
  datatype Saved = Saved(curEnd: nat, prevStart: nat, prevEnd: nat)

  class Canonicalizer {
    const cfg: Config
    const uriOk: string -> bool   // the URI parses, and is not relative

    var buf: string
    var pos: Position
    var parentIsDoc: bool
    var nsTab: seq<Entry>         // nsTab and nodeTab; what lies at and above nsCurEnd is left over
    var nsCurEnd: nat
    var nsPrevStart: nat
    var nsPrevEnd: nat

    constructor (cfg: Config, uriOk: string -> bool)
      ensures Valid() && Rendered() == EMPTY_STACK && buf == "" && pos == Before && parentIsDoc
      ensures this.cfg == cfg && this.uriOk == uriOk
    {
      this.cfg, this.uriOk := cfg, uriOk;
      buf, pos, parentIsDoc := "", Before, true;
      nsTab, nsCurEnd, nsPrevStart, nsPrevEnd := [], 0, 0, 0;
    }

    ghost predicate Valid()
      reads this
    {
      nsPrevStart <= nsPrevEnd <= nsCurEnd <= |nsTab|
    }

    ghost function Rendered(): (st: Stack)
      requires Valid()
      reads this
      ensures WindowOk(st)
    {
      Stack(nsTab[..nsCurEnd], nsPrevStart, nsPrevEnd)
    }

    /** xmlC14NVisibleNsStackAdd */
    method StackAdd(ns: Ns, hidden: set<string>)
      requires Valid()
      modifies this`nsTab, this`nsCurEnd
      ensures Valid() && Rendered() == Push(old(Rendered()), ns, hidden)
    {
      var e := Entry(ns, hidden);
      nsTab := if nsCurEnd < |nsTab| then nsTab[nsCurEnd := e] else nsTab + [e];
      nsCurEnd := nsCurEnd + 1;
    }

    method StackSave() returns (state: Saved)
      ensures state == Saved(nsCurEnd, nsPrevStart, nsPrevEnd)
    {
      state := Saved(nsCurEnd, nsPrevStart, nsPrevEnd);
    }

    method StackRestore(state: Saved)
      modifies this`nsCurEnd, this`nsPrevStart, this`nsPrevEnd
      ensures nsCurEnd == state.curEnd && nsPrevStart == state.prevStart && nsPrevEnd == state.prevEnd
    {
      nsCurEnd := state.curEnd;
      nsPrevStart := state.prevStart;
      nsPrevEnd := state.prevEnd;
    }

    method StackShift()
      requires Valid()
      modifies this`nsPrevStart, this`nsPrevEnd
      ensures Valid() && Rendered() == Shift(old(Rendered()))
    {
      nsPrevStart := nsPrevEnd;
      nsPrevEnd := nsCurEnd;
    }

    /** xmlC14NVisibleNsStackFind */
    method StackFind(ns: Ns) returns (found: bool)
      requires Valid()
      ensures found == Find(Rendered(), ns)
    {
      var hasEmpty := ns.prefix == "" && ns.href == "";
      var start := if hasEmpty then 0 else nsPrevStart;
      var i := nsCurEnd;
      hide Top, Find;
      FindIs(Rendered(), ns, start);
      assert nsTab[..nsCurEnd][start..] == nsTab[start..nsCurEnd];
      while i > start
        invariant start <= i <= nsCurEnd
        invariant Top(nsTab[start..nsCurEnd], ns.prefix) == Top(nsTab[start..i], ns.prefix)
      {
        i := i - 1;
        TopStep(nsTab, start, i, ns.prefix);
        if nsTab[i].ns.prefix == ns.prefix {
          return nsTab[i].ns.href == ns.href;
        }
      }
      TopNothing(nsTab[start..i], ns.prefix);
      found := hasEmpty;
    }

    /** xmlExcC14NVisibleNsStackFind */
    method StackFindExc(ns: Ns) returns (found: bool)
      requires Valid()
      ensures found == ExcFind(Rendered(), ns)
    {
      var i: nat := nsCurEnd;
      ghost var all := nsTab[..nsCurEnd];
      assert all[..|all|] == all;
      while i > 0
        invariant i <= nsCurEnd
        invariant Top(all, ns.prefix) == Top(all[..i], ns.prefix)
      {
        i := i - 1;
        assert all[..i + 1][..i] == all[..i];
        if nsTab[i].ns.prefix == ns.prefix {
          return nsTab[i].ns.href == ns.href && ns.prefix !in nsTab[i].hidden;
        }
      }
      found := ns.prefix == "" && ns.href == "";
    }

    /** xmlListWalk over the declarations, with xmlC14NPrintNamespaces */
    method PrintNamespaces(list: seq<Ns>)
      modifies this`buf
      ensures buf == old(buf) + PrintAll(DeclTokens(list))
    {
      var k := 0;
      assert list[0..] == list;
      while k < |list|
        invariant k <= |list|
        invariant buf + PrintAll(DeclTokens(list[k..])) == old(buf) + PrintAll(DeclTokens(list))
      {
        PrintDecl(list, k);
        Reassociate(buf, Print(Decl(list[k])), PrintAll(DeclTokens(list[k + 1..])));
        buf := buf + Print(Decl(list[k]));
        k := k + 1;
      }
      assert buf + "" == buf;
    }

    lemma PrintDecl(list: seq<Ns>, k: nat)
      requires k < |list|
      ensures PrintAll(DeclTokens(list[k..])) == Print(Decl(list[k])) + PrintAll(DeclTokens(list[k + 1..]))
    {
      assert list[k..][1..] == list[k + 1..];
      assert DeclTokens(list[k..])[1..] == DeclTokens(list[k + 1..]);
    }

    ghost function Rest(chain: Chain, i: nat, hidden: set<string>): seq<Ns>
      requires i <= |chain|
    {
      if i < |chain| then Remaining(chain, i, 0, hidden) else []
    }

    lemma RestNext(chain: Chain, i: nat, hidden: set<string>)
      requires i < |chain|
      ensures Remaining(chain, i, |chain[i].nsDefs|, hidden) == Rest(chain, i + 1, hidden)
    {
      if i + 1 < |chain| { RemainingNext(chain, i, hidden); } else { RemainingEnd(chain, hidden); }
    }

    /** The loop has come to `rest`, with what it did so far in `out`. */
    ghost predicate Underway(axis: seq<Ns>, start: AxisOut, rest: seq<Ns>, out: AxisOut, hasEmpty: bool,
                             hidden: set<string>, visible: bool) {
      && WindowOk(start.st) && WindowOk(out.st)
      && Render(rest, out, hidden, visible) == Render(axis, start, hidden, visible)
      && (hasEmpty || HasDefault(rest) <==> HasDefault(axis))
    }

    lemma UnderwayStep(axis: seq<Ns>, start: AxisOut, ns: Ns, rest: seq<Ns>, out: AxisOut, hasEmpty: bool,
                       hidden: set<string>, visible: bool)
      requires Underway(axis, start, [ns] + rest, out, hasEmpty, hidden, visible)
      ensures Underway(axis, start, rest, RenderOne(ns, out, hidden, visible), hasEmpty || ns.prefix == "", hidden,
                       visible)
    {
      assert ([ns] + rest)[1..] == rest;
      assert ns in [ns] + rest;
    }

    /** Looks a namespace up, pushes it when the element is visible, and lists it when it was not found. */
    method RenderNs(ns: Ns, hidden: set<string>, visible: bool, list: seq<Ns>) returns (list': seq<Ns>)
      requires Valid()
      modifies this`nsTab, this`nsCurEnd
      ensures Valid() && AxisOut(Rendered(), list') == RenderOne(ns, AxisOut(old(Rendered()), list), hidden, visible)
    {
      var alreadyRendered := StackFind(ns);
      list' := list;
      if visible { StackAdd(ns, hidden); }
      if !alreadyRendered { list' := Insert(list, ns, NsBefore); }
    }

    /** The body of the loops: declaration j of ancestor i counts when xmlSearchNs finds it and not another. */
    method ProcessDeclaration(chain: Chain, i: nat, j: nat, hidden: set<string>, visible: bool, list: seq<Ns>,
                              hasEmpty: bool,
                              ghost axis: seq<Ns>, ghost start: AxisOut)
      returns (list': seq<Ns>, hasEmpty': bool)
      requires Valid() && i < |chain| && j < |chain[i].nsDefs|
      requires Underway(axis, start, Remaining(chain, i, j, hidden), AxisOut(Rendered(), list), hasEmpty, hidden,
                        visible)
      modifies this`nsTab, this`nsCurEnd
      ensures Valid()
      ensures Underway(axis, start, Remaining(chain, i, j + 1, hidden), AxisOut(Rendered(), list'), hasEmpty', hidden,
                       visible)
    {
      var ns := chain[i].nsDefs[j];
      var tmp := if ns.prefix == "xml" then None else SearchPos(chain, ns.prefix);
      list', hasEmpty' := list, hasEmpty;
      RemainingStep(chain, i, j, hidden);
      if tmp == Some((i, j)) && !IsXmlNs(ns) && ns.prefix !in hidden {
        UnderwayStep(axis, start, ns, Remaining(chain, i, j + 1, hidden), AxisOut(Rendered(), list), hasEmpty, hidden,
                     visible);
        list' := RenderNs(ns, hidden, visible, list);
        if ns.prefix == "" { hasEmpty' := true; }
      }
    }

    /** Writes xmlns="" if asked to, then the list. */
    method PrintAxis(undeclare: bool, list: seq<Ns>)
      modifies this`buf
      ensures buf == old(buf) + PrintAll(DeclTokens((if undeclare then [DEFAULT_UNDECLARED] else []) + list))
    {
      hide PrintAll, DeclTokens;
      if undeclare {
        PrintNamespaces([DEFAULT_UNDECLARED]);
        DeclTokensCons(DEFAULT_UNDECLARED, list);
        PrintAppend(DeclTokens([DEFAULT_UNDECLARED]), DeclTokens(list));
      }
      assert [] + list == list;
      PrintNamespaces(list);
    }

    /** The loops of xmlC14NProcessNamespacesAxis over the element and its ancestors. */
    method CollectAxis(chain: Chain, hidden: set<string>, visible: bool) returns (list: seq<Ns>, hasEmpty: bool)
      requires Valid() && chain != []
      modifies this`nsTab, this`nsCurEnd
      ensures Valid() && hasEmpty == HasDefault(Axis(chain, hidden))
      ensures AxisOut(Rendered(), list) == Render(Axis(chain, hidden), AxisOut(old(Rendered()), []), hidden, visible)
    {
      list, hasEmpty := [], false;
      ghost var axis := Axis(chain, hidden);
      ghost var start := AxisOut(Rendered(), []);
      RemainingStart(chain, hidden);
      var i := 0;
      while i < |chain|
        invariant i <= |chain| && Valid()
        invariant Underway(axis, start, Rest(chain, i, hidden), AxisOut(Rendered(), list), hasEmpty, hidden, visible)
      {
        var j := 0;
        while j < |chain[i].nsDefs|
          invariant j <= |chain[i].nsDefs| && Valid()
          invariant Underway(axis, start, Remaining(chain, i, j, hidden), AxisOut(Rendered(), list), hasEmpty, hidden,
                             visible)
        {
          list, hasEmpty := ProcessDeclaration(chain, i, j, hidden, visible, list, hasEmpty, axis, start);
          j := j + 1;
        }
        RestNext(chain, i, hidden);
        i := i + 1;
      }
    }

    /** xmlC14NProcessNamespacesAxis */
    method ProcessNamespacesAxis(chain: Chain, hidden: set<string>, visible: bool)
      requires Valid() && chain != []
      modifies this`buf, this`nsTab, this`nsCurEnd
      ensures Valid()
      ensures var out := InclusiveAxis(old(Rendered()), chain, hidden, visible);
              Rendered() == out.st && buf == old(buf) + PrintAll(DeclTokens(out.list))
    {
      var list, hasEmpty := CollectAxis(chain, hidden, visible);
      var undeclare := false;
      if visible && !hasEmpty {
        var alreadyRendered := StackFind(DEFAULT_UNDECLARED);
        undeclare := !alreadyRendered;
      }
      PrintAxis(undeclare, list);
    }

    // ----- Exclusive mode -----

    /** The listed prefixes, handled as in inclusive mode. */
    method CollectListed(chain: Chain, hidden: set<string>, visible: bool) returns (list: seq<Ns>, hasEmpty: bool)
      requires Valid()
      modifies this`nsTab, this`nsCurEnd
      ensures Valid() && hasEmpty == HasDefault(ListedNs(chain, cfg.inclusivePrefixes, hidden))
      ensures AxisOut(Rendered(), list) ==
              Render(ListedNs(chain, cfg.inclusivePrefixes, hidden), AxisOut(old(Rendered()), []), hidden, visible)
    {
      list, hasEmpty := [], false;
      ghost var axis := ListedNs(chain, cfg.inclusivePrefixes, hidden);
      ghost var start := AxisOut(Rendered(), []);
      assert cfg.inclusivePrefixes[0..] == cfg.inclusivePrefixes;
      var i := 0;
      while i < |cfg.inclusivePrefixes|
        invariant i <= |cfg.inclusivePrefixes| && Valid()
        invariant Underway(axis, start, ListedNs(chain, cfg.inclusivePrefixes[i..], hidden), AxisOut(Rendered(), list),
                           hasEmpty, hidden, visible)
      {
        list, hasEmpty := ProcessListed(chain, i, hidden, visible, list, hasEmpty, axis, start);
        i := i + 1;
      }
    }

    method ProcessListed(chain: Chain, i: nat, hidden: set<string>, visible: bool, list: seq<Ns>, hasEmpty: bool,
                         ghost axis: seq<Ns>, ghost start: AxisOut)
      returns (list': seq<Ns>, hasEmpty': bool)
      requires Valid() && i < |cfg.inclusivePrefixes|
      requires Underway(axis, start, ListedNs(chain, cfg.inclusivePrefixes[i..], hidden), AxisOut(Rendered(), list),
                        hasEmpty, hidden, visible)
      modifies this`nsTab, this`nsCurEnd
      ensures Valid()
      ensures Underway(axis, start, ListedNs(chain, cfg.inclusivePrefixes[i + 1..], hidden),
                       AxisOut(Rendered(), list'), hasEmpty', hidden, visible)
    {
      var ns := Search(chain, InclusiveName(cfg.inclusivePrefixes[i]));
      list', hasEmpty' := list, hasEmpty;
      ghost var rest := ListedNs(chain, cfg.inclusivePrefixes[i + 1..], hidden);
      assert cfg.inclusivePrefixes[i..][1..] == cfg.inclusivePrefixes[i + 1..];
      assert [] + rest == rest;
      if ns.Some? && !IsXmlNs(ns.value) && ns.value.prefix !in hidden {
        UnderwayStep(axis, start, ns.value, rest, AxisOut(Rendered(), list), hasEmpty, hidden, visible);
        list' := RenderNs(ns.value, hidden, visible, list);
        if ns.value.prefix == "" { hasEmpty' := true; }
      }
    }

    /** The binding of the element's own name. */
    method ProcessName(name: Option<Ns>, hidden: set<string>, visible: bool, list: seq<Ns>)
      returns (list': seq<Ns>, hasEmpty: bool)
      requires Valid()
      modifies this`nsTab, this`nsCurEnd
      ensures Valid() && AxisOut(Rendered(), list') == RenderName(name, AxisOut(old(Rendered()), list), hidden, visible)
      ensures hasEmpty == (name.Some? && name.value.prefix == "")
    {
      list', hasEmpty := list, false;
      if name.Some? && !IsXmlNs(name.value) {
        var ns := name.value;
        if visible && ns.prefix !in hidden {
          var found := StackFindExc(ns);
          if !found { list' := Insert(list, ns, NsBefore); }
        }
        if visible { StackAdd(ns, hidden); }
        if ns.prefix == "" { hasEmpty := true; }
      }
    }

    method ProcessAttr(a: Attr, hidden: set<string>, visible: bool, list: seq<Ns>) returns (list': seq<Ns>)
      requires Valid() && UsesNs(a)
      modifies this`nsTab, this`nsCurEnd
      ensures Valid() && AxisOut(Rendered(), list') == RenderAttr(a, AxisOut(old(Rendered()), list), hidden, visible)
    {
      list' := list;
      var alreadyRendered := StackFindExc(a.ns.value);
      StackAdd(a.ns.value, hidden);
      if !alreadyRendered && visible { list' := Insert(list, a.ns.value, NsBefore); }
    }

    /** The loop over the attributes. */
    method CollectAttrs(attrs: seq<Attr>, hidden: set<string>, visible: bool, list: seq<Ns>)
      returns (list': seq<Ns>, hasEmpty: bool, utilized: bool)
      requires Valid()
      modifies this`nsTab, this`nsCurEnd
      ensures Valid() && AxisOut(Rendered(), list')
              == RenderAttrs(attrs, AxisOut(old(Rendered()), list), hidden, visible)
      ensures hasEmpty == UsesDefaultAttr(attrs) && utilized == UtilizesEmptyAttr(attrs)
    {
      list', hasEmpty, utilized := list, false, false;
      ghost var start := AxisOut(Rendered(), list);
      assert attrs[0..] == attrs;
      var k := 0;
      while k < |attrs|
        invariant k <= |attrs| && Valid()
        invariant RenderAttrs(attrs[k..], AxisOut(Rendered(), list'), hidden, visible)
                  == RenderAttrs(attrs, start, hidden, visible)
        invariant hasEmpty <==> exists m :: 0 <= m < k && UsesNs(attrs[m]) && attrs[m].ns.value.prefix == ""
        invariant utilized <==> exists m :: 0 <= m < k && !UsesNs(attrs[m]) && attrs[m].ns == Some(DEFAULT_UNDECLARED)
      {
        var a := attrs[k];
        assert attrs[k..][1..] == attrs[k + 1..];
        if UsesNs(a) {
          list' := ProcessAttr(a, hidden, visible, list');
          if a.ns.value.prefix == "" { hasEmpty := true; }
        } else if a.ns == Some(DEFAULT_UNDECLARED) {
          utilized := true;
        }
        k := k + 1;
      }
    }

    /** xmlExcC14NProcessNamespacesAxis */
    method ExcProcessNamespacesAxis(chain: Chain, e: Node)
      requires Valid() && e.Element?
      modifies this`buf, this`nsTab, this`nsCurEnd
      ensures Valid()
      ensures var out := ExclusiveAxis(old(Rendered()), chain, cfg.inclusivePrefixes, e.ns, e.attrs, e.hidden,
                                       e.visible);
              Rendered() == out.st && buf == old(buf) + PrintAll(DeclTokens(out.list))
    {
      var list, hasEmpty := CollectListed(chain, e.hidden, e.visible);
      var listsDefault := exists p :: p in cfg.inclusivePrefixes && IsDefaultToken(p);
      var name := NameNs(chain, e.ns);
      var nameEmpty, attrEmpty, utilized;
      list, nameEmpty := ProcessName(name, e.hidden, e.visible, list);
      list, attrEmpty, utilized := CollectAttrs(e.attrs, e.hidden, e.visible, list);
      hasEmpty := hasEmpty || nameEmpty || attrEmpty;
      utilized := utilized || e.ns.None?;
      var undeclare := false;
      if e.visible && utilized && !hasEmpty && !listsDefault {
        var alreadyRendered := StackFindExc(DEFAULT_UNDECLARED);
        undeclare := !alreadyRendered;
      } else if e.visible && !hasEmpty && listsDefault {
        var alreadyRendered := StackFind(DEFAULT_UNDECLARED);
        undeclare := !alreadyRendered;
      }
      PrintAxis(undeclare, list);
    }

    // ----- Attributes -----

    /** Inserts the shown attributes of an element, in order. */
    method CollectVisible(attrs: seq<Attr>) returns (list: seq<Attr>)
      ensures list == InsertVisible([], attrs)
    {
      list := [];
      assert attrs[0..] == attrs;
      var k := 0;
      while k < |attrs|
        invariant k <= |attrs| && InsertVisible(list, attrs[k..]) == InsertVisible([], attrs)
      {
        assert attrs[k..][1..] == attrs[k + 1..];
        if attrs[k].visible { list := Insert(list, attrs[k], AttrBefore); }
        k := k + 1;
      }
    }

    method ImportAttrs(attrs: seq<Attr>, list: seq<Attr>) returns (list': seq<Attr>)
      ensures list' == ImportFrame(list, attrs)
    {
      list' := list;
      assert attrs[0..] == attrs;
      var k := 0;
      while k < |attrs|
        invariant k <= |attrs| && ImportFrame(list', attrs[k..]) == ImportFrame(list, attrs)
      {
        assert attrs[k..][1..] == attrs[k + 1..];
        if IsXmlAttr(attrs[k]) && !Listed(list', attrs[k]) { list' := Insert(list', attrs[k], AttrBefore); }
        k := k + 1;
      }
    }

    /** xmlC14NProcessAttrsAxis, modes 1.0 and exclusive */
    method ProcessAttrsAxis(attrs: seq<Attr>, parents: Chain, visible: bool)
      modifies this`buf
      ensures buf == old(buf) + PrintAll(AttrTokens(AttrsAxis(cfg, attrs, parents, visible)))
    {
      var list := CollectVisible(attrs);
      if !cfg.exclusive && visible && parents != [] && !parents[0].visible {
        ghost var own := list;
        assert parents[0..] == parents;
        var i := 0;
        while i < |parents|
          invariant i <= |parents| && buf == old(buf) && ImportXml(list, parents[i..]) == ImportXml(own, parents)
        {
          assert parents[i..][1..] == parents[i + 1..];
          list := ImportAttrs(parents[i].attrs, list);
          i := i + 1;
        }
        assert parents[i..] == [];
      }
      PrintAttrs(list);
    }

    /** xmlC14NPrintAttrs */
    method PrintAttr(a: Attr)
      modifies this`buf
      ensures buf == old(buf) + Print(Attribute(NsPrefix(a.ns), a.name, a.value))
    {
      var value, n := NormalizeString(a.value, AttrMode);
      buf := buf + (" " + QName(NsPrefix(a.ns), a.name) + "=\"" + value[..n] + "\"");
    }

    /** xmlListWalk over the attributes */
    method PrintAttrs(list: seq<Attr>)
      modifies this`buf
      ensures buf == old(buf) + PrintAll(AttrTokens(list))
    {
      var k := 0;
      assert list[0..] == list;
      while k < |list|
        invariant k <= |list|
        invariant buf + PrintAll(AttrTokens(list[k..])) == old(buf) + PrintAll(AttrTokens(list))
      {
        PrintAttrFirst(list, k);
        Reassociate(buf, Print(Attribute(NsPrefix(list[k].ns), list[k].name, list[k].value)),
                    PrintAll(AttrTokens(list[k + 1..])));
        PrintAttr(list[k]);
        k := k + 1;
      }
      assert buf + "" == buf;
    }

    lemma Reassociate(a: string, b: string, c: string)
      ensures a + (b + c) == a + b + c
    {
    }

    lemma PrintAttrFirst(list: seq<Attr>, k: nat)
      requires k < |list|
      ensures PrintAll(AttrTokens(list[k..])) ==
              Print(Attribute(NsPrefix(list[k].ns), list[k].name, list[k].value)) + PrintAll(AttrTokens(list[k + 1..]))
    {
      assert list[k..][1..] == list[k + 1..];
      assert AttrTokens(list[k..])[1..] == AttrTokens(list[k + 1..]);
    }

    // ----- Nodes -----

    /** xmlC14NCheckForRelativeNamespaces */
    method CheckForRelativeNamespaces(defs: seq<Ns>) returns (ok: bool)
      ensures ok == UrisOk(defs, uriOk)
    {
      var k := 0;
      while k < |defs|
        invariant k <= |defs| && forall m :: 0 <= m < k && defs[m].href != "" ==> uriOk(defs[m].href)
      {
        if defs[k].href != "" && !uriOk(defs[k].href) {
          assert defs[k] in defs;
          return false;
        }
        k := k + 1;
      }
      ok := true;
    }

    /** Namespace axis in either mode. */
    method ProcessAxis(chain: Chain, e: Node)
      requires Valid() && chain != [] && e.Element?
      modifies this`buf, this`nsTab, this`nsCurEnd
      ensures Valid()
      ensures var out := NamespaceAxis(cfg, old(Rendered()), chain, e);
              Rendered() == out.st && buf == old(buf) + PrintAll(DeclTokens(out.list))
    {
      if !cfg.exclusive {
        ProcessNamespacesAxis(chain, e.hidden, e.visible);
      } else {
        ExcProcessNamespacesAxis(chain, e);
      }
    }

    /** The start tag: name, declarations, attributes; leaves the stack as the children see it. */
    method ProcessStartTag(chain: Chain, e: Node)
      requires Valid() && chain != [] && e.Element?
      modifies this`buf, this`nsTab, this`nsCurEnd, this`nsPrevStart, this`nsPrevEnd
      ensures Valid() && Rendered() == StackBelow(cfg, old(Rendered()), chain, e)
      ensures buf == old(buf) + PrintAll(StartTag(cfg, old(Rendered()), chain, e))
    {
      ghost var st, b0 := Rendered(), buf;
      if e.visible { buf := buf + ("<" + QName(NsPrefix(e.ns), e.name)); }
      ProcessAxis(chain, e);
      if e.visible { StackShift(); }
      ProcessAttrsAxis(e.attrs, chain[1..], e.visible);
      if e.visible { buf := buf + ">"; }
      PrintStartTag(st, chain, e, b0);
    }

    lemma PrintStartTag(st: Stack, chain: Chain, e: Node, done: string)
      requires e.Element? && chain != [] && WindowOk(st)
      ensures var a := if e.visible then done + Print(Open(NsPrefix(e.ns), e.name)) else done;
              var b := a + PrintAll(DeclTokens(NamespaceAxis(cfg, st, chain, e).list));
              var c := b + PrintAll(AttrTokens(AttrsAxis(cfg, e.attrs, chain[1..], e.visible)));
              (if e.visible then c + ">" else c) == done + PrintAll(StartTag(cfg, st, chain, e))
    {
      var o := Optional(e.visible, Open(NsPrefix(e.ns), e.name));
      var d := DeclTokens(NamespaceAxis(cfg, st, chain, e).list);
      var t := AttrTokens(AttrsAxis(cfg, e.attrs, chain[1..], e.visible));
      var g := Optional(e.visible, Gt);
      PrintAppend(o + d + t, g);
      PrintAppend(o + d, t);
      PrintAppend(o, d);
      PrintOptional(e.visible, Open(NsPrefix(e.ns), e.name));
      PrintOptional(e.visible, Gt);
      Reassociate4(done, PrintAll(o), PrintAll(d), PrintAll(t), PrintAll(g));
    }

    lemma PrintOptional(b: bool, t: Token)
      ensures PrintAll(Optional(b, t)) == if b then Print(t) else ""
    {
      if b { PrintOne(t); }
    }

    lemma Reassociate4(a: string, b: string, c: string, d: string, e: string)
      ensures a + b + c + d + e == a + (b + c + d + e)
      ensures b == "" && e == "" ==> a + c + d == a + (b + c + d + e)
    {
    }

    /** What lies below the saved position is still there. */
    lemma AxisKeeps(st: Stack, chain: Chain, e: Node)
      requires e.Element? && WindowOk(st)
      ensures st.tab <= StackBelow(cfg, st, chain, e).tab
    {
      if cfg.exclusive {
        var out1 := Render(ListedNs(chain, cfg.inclusivePrefixes, e.hidden), AxisOut(st, []), e.hidden, e.visible);
        RenderKeeps(ListedNs(chain, cfg.inclusivePrefixes, e.hidden), AxisOut(st, []), e.hidden, e.visible);
        var out2 := RenderName(NameNs(chain, e.ns), out1, e.hidden, e.visible);
        AttrsKeep(e.attrs, out2, e.hidden, e.visible);
      } else {
        RenderKeeps(Axis(chain, e.hidden), AxisOut(st, []), e.hidden, e.visible);
      }
    }

    lemma {:induction false} RenderKeeps(axis: seq<Ns>, out: AxisOut, hidden: set<string>, visible: bool)
      requires WindowOk(out.st)
      ensures out.st.tab <= Render(axis, out, hidden, visible).st.tab
      decreases axis
    {
      if axis != [] { RenderKeeps(axis[1..], RenderOne(axis[0], out, hidden, visible), hidden, visible); }
    }

    lemma {:induction false} AttrsKeep(attrs: seq<Attr>, out: AxisOut, hidden: set<string>, visible: bool)
      requires WindowOk(out.st)
      ensures out.st.tab <= RenderAttrs(attrs, out, hidden, visible).st.tab
      decreases attrs
    {
      if attrs != [] { AttrsKeep(attrs[1..], RenderAttr(attrs[0], out, hidden, visible), hidden, visible); }
    }

    /** The state after a successful run of a routine that writes what `out` says and restores the stack. */
    twostate predicate Wrote(out: Out)
      requires Valid() && old(Valid())
      reads this
    {
      && buf == old(buf) + PrintAll(out.tokens) && pos == out.pos
      && Rendered() == old(Rendered()) && parentIsDoc == old(parentIsDoc)
    }

    /** xmlC14NProcessElementNode between saving and restoring the stack. */
    method ProcessElementContent(e: Node, parents: Chain) returns (ok: bool)
      requires Valid() && e.Element?
      modifies this
      ensures Valid() && ok == AcceptedList(e.children, uriOk)
      ensures ok ==>
                && (var out := Canon(cfg, e, parents, old(Rendered()), old(pos), old(parentIsDoc));
                    buf == old(buf) + PrintAll(out.tokens) && pos == out.pos)
                && parentIsDoc == old(parentIsDoc) && old(Rendered()).tab <= nsTab[..nsCurEnd]
      decreases e, 0
    {
      ghost var st, b0 := Rendered(), buf;
      var chain := [FrameOf(e)] + parents;
      var wasDoc := EnterElement(e);
      ghost var pos1 := pos;
      ProcessStartTag(chain, e);
      AxisKeeps(st, chain, e);
      ghost var below := Rendered();
      ghost var body := CanonList(cfg, e.children, chain, below, pos1, parentIsDoc);
      ok := ProcessNodeList(e.children, chain);
      if ok {
        LeaveElement(e, wasDoc);
        PrintElement(st, chain, e, body, b0);
      }
    }

    method EnterElement(e: Node) returns (wasDoc: bool)
      requires e.Element?
      modifies this`pos, this`parentIsDoc
      ensures wasDoc == (e.visible && old(parentIsDoc)) && parentIsDoc == (old(parentIsDoc) && !e.visible)
      ensures pos == if wasDoc then Inside else old(pos)
    {
      wasDoc := false;
      if e.visible && parentIsDoc {
        wasDoc := true;
        parentIsDoc := false;
        pos := Inside;
      }
    }

    method LeaveElement(e: Node, wasDoc: bool)
      requires e.Element? && (wasDoc ==> e.visible)
      modifies this`buf, this`pos, this`parentIsDoc
      ensures buf == if e.visible then old(buf) + Print(Close(NsPrefix(e.ns), e.name)) else old(buf)
      ensures parentIsDoc == (old(parentIsDoc) || wasDoc) && pos == if wasDoc then After else old(pos)
    {
      if e.visible {
        buf := buf + ("</" + QName(NsPrefix(e.ns), e.name) + ">");
        if wasDoc {
          parentIsDoc := true;
          pos := After;
        }
      }
    }

    /** xmlC14NProcessElementNode */
    method ProcessElementNode(e: Node, parents: Chain) returns (ok: bool)
      requires Valid() && e.Element?
      modifies this
      ensures Valid() && ok == Accepted(e, uriOk)
      ensures ok ==> Wrote(Canon(cfg, e, parents, old(Rendered()), old(pos), old(parentIsDoc)))
      decreases e, 1
    {
      ok := CheckForRelativeNamespaces(e.nsDefs);
      if ok {
        var state := StackSave();
        ok := ProcessElementContent(e, parents);
        if ok {
          assert nsTab[..nsCurEnd][..state.curEnd] == nsTab[..state.curEnd];
          StackRestore(state);
        }
      }
    }

    lemma PrintElement(st: Stack, chain: Chain, e: Node, body: Out, done: string)
      requires e.Element? && chain != [] && WindowOk(st)
      ensures var b := done + PrintAll(StartTag(cfg, st, chain, e)) + PrintAll(body.tokens);
              (if e.visible then b + Print(Close(NsPrefix(e.ns), e.name)) else b) ==
              done + PrintAll(StartTag(cfg, st, chain, e) + body.tokens
                              + Optional(e.visible, Close(NsPrefix(e.ns), e.name)))
    {
      var a := StartTag(cfg, st, chain, e);
      var c := Optional(e.visible, Close(NsPrefix(e.ns), e.name));
      PrintAppend(a + body.tokens, c);
      PrintAppend(a, body.tokens);
      PrintOptional(e.visible, Close(NsPrefix(e.ns), e.name));
      Reassociate3(done, PrintAll(a), PrintAll(body.tokens), PrintAll(c));
    }

    lemma Reassociate3(a: string, b: string, c: string, d: string)
      ensures a + b + c + d == a + (b + c + d)
      ensures d == "" ==> a + b + c == a + (b + c + d)
    {
    }

    method WriteText(content: string)
      modifies this`buf
      ensures buf == old(buf) + Print(Chars(content))
    {
      var t, k := NormalizeString(content, TextMode);
      buf := buf + t[..k];
    }

    method WritePI(target: string, content: string)
      modifies this`buf
      ensures buf == old(buf) + Print(PITok(pos == After, target, content, pos == Before))
    {
      var rest := "";
      if content != "" {
        var t, k := NormalizeString(content, PIMode);
        rest := " " + t[..k];
      }
      buf := buf + ((if pos == After then "\n" else "") + "<?" + target + rest + "?>"
                    + (if pos == Before then "\n" else ""));
    }

    method WriteComment(content: string)
      modifies this`buf
      ensures buf == old(buf) + Print(CommentTok(pos == After, content, pos == Before))
    {
      var t, k := NormalizeString(content, CommentMode);
      buf := buf + ((if pos == After then "\n" else "") + "<!--" + t[..k] + "-->"
                    + (if pos == Before then "\n" else ""));
    }

    /** xmlC14NProcessNode */
    method ProcessNode(n: Node, parents: Chain) returns (ok: bool)
      requires Valid()
      modifies this
      ensures Valid() && ok == Accepted(n, uriOk)
      ensures ok ==> Wrote(Canon(cfg, n, parents, old(Rendered()), old(pos), old(parentIsDoc)))
      decreases n, 2
    {
      ok := true;
      match n
      case Element(_, _, _, _, _, _, _) =>
        ok := ProcessElementNode(n, parents);
      case Text(content, visible) =>
        PrintOptional(visible, Chars(content));
        if visible { WriteText(content); }
      case PI(target, content, visible) =>
        PrintOptional(visible, PITok(pos == After, target, content, pos == Before));
        if visible { WritePI(target, content); }
      case Comment(content, visible) =>
        PrintOptional(visible && cfg.withComments, CommentTok(pos == After, content, pos == Before));
        if visible && cfg.withComments { WriteComment(content); }
      case Declaration =>
      case Unexpected =>
        ok := false;
    }

    /** xmlC14NProcessNodeList */
    method ProcessNodeList(l: NodeList, parents: Chain) returns (ok: bool)
      requires Valid()
      modifies this
      ensures Valid() && ok == AcceptedList(l, uriOk)
      ensures ok ==> Wrote(CanonList(cfg, l, parents, old(Rendered()), old(pos), old(parentIsDoc)))
      decreases l, 3
    {
      var cur := l;
      ok := true;
      ghost var st := Rendered();
      ghost var total := CanonList(cfg, l, parents, st, pos, parentIsDoc);
      while cur.Cons? && ok
        invariant (cur == l || cur < l) && Valid()
        invariant AcceptedList(l, uriOk) <==> ok && AcceptedList(cur, uriOk)
        invariant ok ==> Rendered() == st && parentIsDoc == old(parentIsDoc)
        invariant ok ==> ToCome(CanonList(cfg, cur, parents, st, pos, parentIsDoc), total, old(buf))
        decreases cur
      {
        ghost var b, first := buf, Canon(cfg, cur.head, parents, st, pos, parentIsDoc);
        ghost var rest := CanonList(cfg, cur.tail, parents, st, first.pos, parentIsDoc);
        PrintAppend(first.tokens, rest.tokens);
        Reassociate(b, PrintAll(first.tokens), PrintAll(rest.tokens));
        ok := ProcessNode(cur.head, parents);
        cur := cur.tail;
      }
      assert buf + "" == buf;
    }

    /** Writing `rest` completes what was started with `before` written. */
    ghost predicate ToCome(rest: Out, total: Out, before: string)
      reads this
    {
      buf + PrintAll(rest.tokens) == before + PrintAll(total.tokens) && rest.pos == total.pos
    }
  }

  /** xmlC14NExecute: fails exactly on a document with a relative namespace URI or an unexpected node. */
  method Execute(cfg: Config, uriOk: string -> bool, doc: NodeList) returns (ok: bool, output: string)
    ensures ok == AcceptedList(doc, uriOk)
    ensures ok ==> output == PrintAll(CanonDocument(cfg, doc))
  {
    var ctx := new Canonicalizer(cfg, uriOk);
    ok := ctx.ProcessNodeList(doc, []);
    output := ctx.buf;
    assert ok ==> output == "" + PrintAll(CanonDocument(cfg, doc));
  }
}
