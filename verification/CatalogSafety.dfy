/**
  What follows for lookups: when the search is cut off and whether the cut lasts, and whether
  the recursion counters end where they started.
 */
module CatalogSafety {
  import opened Ordering
  import opened CatalogNames
  import opened CatalogSpec

  // ----- The cut -----

  /**
    The cut: once a system delegate of the first catalog applies (and no system entry or rewrite
    rule does), the search answers something; neither the public identifier, nor nextCatalog
    entries, nor the later catalogs of the list play any part.
   */
  lemma DelegationCutsOff(files: Files, st: State, cats: seq<string>, f: nat, p: Option<string>, q: Option<string>,
                          sys: string)
    requires |st.depth| == |files| && f < |files| && st.depth[f] <= MAX_CATAL_DEPTH
    requires cats != [] && FileOf(files, cats[0]) == Some(f)
    requires FirstExact(files, Enter(st, f), f, 0, System, sys).None?
    requires BestRewrite(files, Enter(st, f), f, |files[f].entries|, sys).None?
    requires HasDelegate(files, Enter(st, f), f, true, sys)
    ensures Catalogs(files, st, cats, p, Some(sys)).answer != NotFound
    ensures Catalogs(files, st, cats, p, Some(sys)) == Catalogs(files, st, [cats[0]], q, Some(sys))
  {
    assert Resolve(files, st, f, p, Some(sys)) == Resolve(files, st, f, q, Some(sys));
  }

  /** An applicable delegate entry whose target can be fetched. */
  ghost predicate Fetchable(files: Files, st: State, f: nat, system: bool, id: string)
    requires f < |files|
  {
    exists i ::
      0 <= i < |files[f].entries| &&
      Delegates(files, st, f, i, system, id) && FileOf(files, files[f].entries[i].url).Some?
  }

  /** A delegate that can be fetched stays what it is: no lookup marks it broken. */
  lemma FetchableStays(files: Files, st: State, st': State, f: nat, system: bool, id: string)
    requires f < |files| && Marks(files, st.broken, st'.broken)
    ensures Fetchable(files, st, f, system, id) <==> Fetchable(files, st', f, system, id)
  {
    forall i | 0 <= i < |files[f].entries| && FileOf(files, files[f].entries[i].url).Some?
      ensures Delegates(files, st, f, i, system, id) <==> Delegates(files, st', f, i, system, id)
    {
      assert (f, i) in st'.broken ==> (f, i) in st.broken;
    }
  }

  /**
    From position `i` on, an applicable delegate has a URL that is already in the table of fifty
    when it is reached.
   */
  ghost predicate Repeats(files: Files, st: State, f: nat, i: nat, system: bool, id: string, table: seq<string>)
    requires f < |files|
    decreases |files[f].entries| - i
  {
    i < |files[f].entries| &&
    var url := files[f].entries[i].url;
    if !Delegates(files, st, f, i, system, id) then Repeats(files, st, f, i + 1, system, id, table)
    else url in table || Repeats(files, st, f, i + 1, system, id,
                                 if |table| < 50 then table + [url] else table)
  }

  ghost predicate DelegateFrom(files: Files, st: State, f: nat, i: nat, system: bool, id: string)
    requires f < |files|
  {
    exists k :: i <= k < |files[f].entries| && Delegates(files, st, f, k, system, id)
  }

  /** Entries before position `i` are as they were. */
  ghost predicate SameBefore(st: State, st': State, f: nat, i: nat) {
    forall k: nat :: k < i ==> ((f, k) in st.broken <==> (f, k) in st'.broken)
  }

  lemma {:induction false} RepeatsLater(files: Files, st: State, st': State, f: nat, i: nat, system: bool, id: string,
                                        table: seq<string>)
    requires f < |files| && forall k: nat :: k >= i ==> ((f, k) in st.broken <==> (f, k) in st'.broken)
    ensures Repeats(files, st, f, i, system, id, table) <==> Repeats(files, st', f, i, system, id, table)
    decreases |files[f].entries| - i
  {
    if i < |files[f].entries| {
      var url := files[f].entries[i].url;
      RepeatsLater(files, st, st', f, i + 1, system, id, table);
      RepeatsLater(files, st, st', f, i + 1, system, id, if |table| < MAX_DELEGATE then table + [url] else table);
    }
  }

  lemma DelegateFromStep(files: Files, st: State, f: nat, i: nat, system: bool, id: string)
    requires f < |files| && i < |files[f].entries|
    ensures DelegateFrom(files, st, f, i, system, id) <==>
            Delegates(files, st, f, i, system, id) || DelegateFrom(files, st, f, i + 1, system, id)
  {
  }

  /** When no delegate can be fetched, the search ends in the cut and marks all but those it skips. */
  lemma {:induction false} MarkedUnless(files: Files, st: State, f: nat, i: nat, system: bool, id: string,
                                        table: seq<string>)
    requires |st.depth| == |files| && f < |files| && i <= |files[f].entries| && !Fetchable(files, st, f, system, id)
    ensures var o := TryDelegates(files, st, f, i, system, id, table);
            && o.answer == Break && o.st.depth == st.depth && SameBefore(st, o.st, f, i)
            && (DelegateFrom(files, o.st, f, i, system, id) <==> Repeats(files, st, f, i, system, id, table))
    decreases |files[f].entries| - i
  {
    hide Marks, Fetchable;
    if i < |files[f].entries| {
      var url := files[f].entries[i].url;
      var o := TryDelegates(files, st, f, i, system, id, table);
      DelegateFromStep(files, o.st, f, i, system, id);
      if !Delegates(files, st, f, i, system, id) || url in table {
        MarkedUnless(files, st, f, i + 1, system, id, table);
        assert (f, i) in st.broken <==> (f, i) in o.st.broken;
      } else {
        var st1 := MarkBroken(st, f, i);
        var table' := if |table| < MAX_DELEGATE then table + [url] else table;
        NotFetchable(files, st, f, i, system, id);
        MarksEntry(files, st, f, i);
        FetchableStays(files, st, st1, f, system, id);
        MarkedUnless(files, st1, f, i + 1, system, id, table');
        RepeatsLater(files, st, st1, f, i + 1, system, id, table');
        assert (f, i) in st1.broken && (f, i) in o.st.broken;
      }
    }
  }

  lemma NotFetchable(files: Files, st: State, f: nat, i: nat, system: bool, id: string)
    requires f < |files| && i < |files[f].entries| && !Fetchable(files, st, f, system, id)
             && Delegates(files, st, f, i, system, id)
    ensures FileOf(files, files[f].entries[i].url).None?
  {
  }

  /**
    Whether the cut lasts: after a search among the delegates of a file for an identifier, the
    file cuts later searches for it off if and only if one of these delegates can be fetched, or
    one was skipped because its URL was already in the table of fifty. If none can be fetched the
    search itself ends in the cut; if none was skipped either, afterwards the file is searched as
    if it had no delegates.
   */
  lemma CutLastsIff(files: Files, st: State, f: nat, system: bool, id: string)
    requires |st.depth| == |files| && f < |files|
    ensures var o := TryDelegates(files, st, f, 0, system, id, []);
            && (HasDelegate(files, o.st, f, system, id) <==>
                Fetchable(files, st, f, system, id) || Repeats(files, st, f, 0, system, id, []))
            && (!Fetchable(files, st, f, system, id) ==> o.answer == Break)
  {
    hide TryDelegates, Marks, Repeats;
    var o := TryDelegates(files, st, f, 0, system, id, []);
    FetchableStays(files, st, o.st, f, system, id);
    if !Fetchable(files, st, f, system, id) {
      MarkedUnless(files, st, f, 0, system, id, []);
    }
  }

  /** Two delegates with one URL that cannot be fetched: the cut lasts one lookup longer. */
  lemma RepeatedDelegateCutsAgain(url: string, missing: string, sys: string)
    requires url != missing
    ensures var e := Entry(DelegateSystem, "", missing, true);
            var files := [File(url, [e, e])];
            var first := TryDelegates(files, State([0], {}), 0, 0, true, sys, []);
            var second := TryDelegates(files, first.st, 0, 0, true, sys, []);
            && !Fetchable(files, State([0], {}), 0, true, sys)
            && HasDelegate(files, first.st, 0, true, sys) && !HasDelegate(files, second.st, 0, true, sys)
  {
    var files := [File(url, [Entry(DelegateSystem, "", missing, true), Entry(DelegateSystem, "", missing, true)])];
    var st := State([0], {});
    MissingFile(url, missing, files[0].entries);
    var first := TryDelegates(files, st, 0, 0, true, sys, []);
    assert [] + [missing] == [missing];
    assert first.st == MarkBroken(st, 0, 0) by {
      var st1 := MarkBroken(st, 0, 0);
      assert TryDelegates(files, st1, 0, 2, true, sys, [missing]) == Outcome(Break, st1, false);
      assert TryDelegates(files, st1, 0, 1, true, sys, [missing]) == Outcome(Break, st1, false);
      assert Delegates(files, st, 0, 0, true, sys);
    }
    assert Delegates(files, first.st, 0, 1, true, sys);
    hide TryDelegates;
    CutLastsIff(files, first.st, 0, true, sys);
    assert !Delegates(files, first.st, 0, 0, true, sys);
    assert !Repeats(files, first.st, 0, 2, true, sys, [missing]);
    assert !Repeats(files, first.st, 0, 1, true, sys, []);
    assert !Repeats(files, first.st, 0, 0, true, sys, []);
  }

  /** A system delegate that cannot be fetched, and a public entry: cut off at first, and found the second time. */
  lemma SecondLookupFinds(url: string, missing: string, sys: string, pub: string, uri: string)
    requires url != missing
    ensures var files := [File(url, [Entry(DelegateSystem, "", missing, true), Entry(Public, pub, uri, true)])];
            var first := Resolve(files, State([0], {}), 0, Some(pub), Some(sys));
            first.answer == Break && Resolve(files, first.st, 0, Some(pub), Some(sys)).answer == Found(uri)
  {
    var files := [File(url, [Entry(DelegateSystem, "", missing, true), Entry(Public, pub, uri, true)])];
    var st1 := Enter(State([0], {}), 0);
    var marked := MarkBroken(st1, 0, 0);
    MissingFile(url, missing, files[0].entries);
    NoSystem(files, st1, sys);
    assert Delegates(files, st1, 0, 0, true, sys) && HasDelegate(files, st1, 0, true, sys);
    assert (0, 1) !in marked.broken && KindAt(files, marked, 0, 1) == Public;
    assert TryDelegates(files, marked, 0, 2, true, sys, [missing]) == Outcome(Break, marked, false);
    assert TryDelegates(files, marked, 0, 1, true, sys, [missing]) == Outcome(Break, marked, false);
    assert TryDelegates(files, st1, 0, 0, true, sys, []) == Outcome(Break, marked, false) by {
      assert [] + [missing] == [missing];
    }
    var st2 := State([0], {(0, 0)});
    assert Resolve(files, State([0], {}), 0, Some(pub), Some(sys)) == Outcome(Break, st2, false);
    NoSystem(files, Enter(st2, 0), sys);
    assert KindAt(files, Enter(st2, 0), 0, 0) == Other && KindAt(files, Enter(st2, 0), 0, 1) == Public;
    assert FirstExact(files, Enter(st2, 0), 0, 0, Public, pub) == Some(1);
  }

  lemma MissingFile(url: string, missing: string, entries: seq<Entry>)
    requires url != missing
    ensures FileOf([File(url, entries)], missing).None?
  {
    assert [File(url, entries)][1..] == [];
  }

  lemma NoSystem(files: Files, st: State, sys: string)
    requires files != [] && forall i ::
             0 <= i < |files[0].entries| ==> files[0].entries[i].kind !in {System, RewriteSystem}
    ensures FirstExact(files, st, 0, 0, System, sys).None? && BestRewrite(files, st, 0, |files[0].entries|, sys).None?
  {
  }

  // ----- Counters that end where they started -----

  /**
    Ranks that never go up along a delegate and go down along every nextCatalog entry. Files can
    be ranked like this if no cycle of references passes through a nextCatalog entry.
   */
  ghost predicate Ranked(files: Files, rank: seq<nat>) {
    && |rank| == |files|
    && forall f, i :: 0 <= f < |files| && 0 <= i < |files[f].entries| ==> Descends(files, rank, f, files[f].entries[i])
  }

  ghost predicate Descends(files: Files, rank: seq<nat>, f: nat, e: Entry)
    requires |rank| == |files| && f < |files|
  {
    var g := FileOf(files, e.url);
    g.Some? ==>
      && (e.kind == NextCatalog ==> rank[g.value] < rank[f])
      && (e.kind == DelegateSystem || e.kind == DelegatePublic ==> rank[g.value] <= rank[f])
  }

  /** Identifiers as the inner search gets them: normalized, and not written as URNs. */
  ghost predicate Plain(pub: Option<string>, sys: Option<string>) {
    Effective(pub) == pub && (pub.Some? ==> !IsUrn(pub.value)) && (sys.Some? ==> !IsUrn(sys.value))
  }

  /** A search for a single identifier that the file will certainly cut off, however often it gets there. */
  ghost predicate Cutting(files: Files, st: State, g: nat, pub: Option<string>, sys: Option<string>)
    requires g < |files|
  {
    && Plain(pub, sys)
    && ((pub.None? && sys.Some? && Fetchable(files, st, g, true, sys.value))
        || (sys.None? && pub.Some? && Fetchable(files, st, g, false, pub.value)))
  }

  ghost predicate HasRoom(files: Files, st: State, g: nat, pub: Option<string>, sys: Option<string>)
    requires |st.depth| == |files| && g < |files|
  {
    st.depth[g] < MAX_CATAL_DEPTH || Cutting(files, st, g, pub, sys)
  }

  /** The files ranked below `bound` are under the limit, or cut the search off. */
  ghost predicate Room(files: Files, rank: seq<nat>, st: State, bound: nat, pub: Option<string>, sys: Option<string>)
    requires |rank| == |files| == |st.depth|
  {
    forall g :: 0 <= g < |files| && rank[g] < bound ==> HasRoom(files, st, g, pub, sys)
  }

  ghost predicate Below(files: Files, rank: seq<nat>, cats: seq<string>, bound: nat)
    requires |rank| == |files|
  {
    forall k :: 0 <= k < |cats| && FileOf(files, cats[k]).Some? ==> rank[FileOf(files, cats[k]).value] < bound
  }

  /** A run that leaks nothing leaves the room there was. */
  lemma RoomKept(files: Files, rank: seq<nat>, st: State, st': State, bound: nat, pub: Option<string>,
                 sys: Option<string>)
    requires |rank| == |files| == |st.depth| && st'.depth == st.depth && Marks(files, st.broken, st'.broken)
    requires Room(files, rank, st, bound, pub, sys)
    ensures Room(files, rank, st', bound, pub, sys)
  {
    hide Fetchable, Marks, Plain;
    forall g | 0 <= g < |files| && rank[g] < bound ensures HasRoom(files, st', g, pub, sys) {
      assert HasRoom(files, st, g, pub, sys);
      if pub.Some? { FetchableStays(files, st, st', g, false, pub.value); }
      if sys.Some? { FetchableStays(files, st, st', g, true, sys.value); }
    }
  }

  /**
    Another form of the identifiers has the same room: either they were plain already, or nothing
    could count on the cut.
   */
  lemma RoomRewritten(files: Files, rank: seq<nat>, st: State, bound: nat, pub: Option<string>, sys: Option<string>,
                      p: Option<string>, q: Option<string>)
    requires |rank| == |files| == |st.depth| && Room(files, rank, st, bound, pub, sys)
    requires !Plain(pub, sys) || (p == pub && q == sys)
    ensures Room(files, rank, st, bound, p, q)
  {
    hide Fetchable, Plain;
    forall g | 0 <= g < |files| && rank[g] < bound ensures HasRoom(files, st, g, p, q) {
      assert HasRoom(files, st, g, pub, sys);
    }
  }

  lemma {:induction false} ListRestores(files: Files, rank: seq<nat>, bound: nat, st: State, cats: seq<string>,
                                        pub: Option<string>, sys: Option<string>)
    requires |st.depth| == |files| && Ranked(files, rank) && Room(files, rank, st, bound, pub, sys)
             && Below(files, rank, cats, bound)
    ensures !ResolveList(files, st, cats, pub, sys).leaked
    decreases Budget(st.depth), PubWeight(pub) + SysWeight(sys), 3, 0
  {
    assert |rank| == |files|;
    hide Ranked, Room, Below, Catalogs, Settled, Marks;
    if cats != [] && (pub.Some? || sys.Some?) {
      var pub' := Effective(pub);
      if pub'.Some? && IsUrn(pub'.value) {
        UnwrapLighter(pub'.value);
        RoomRewritten(files, rank, st, bound, pub, sys, Unwrap(pub'.value), sys);
        ListRestores(files, rank, bound, st, cats, Unwrap(pub'.value), sys);
      } else if sys.Some? && IsUrn(sys.value) {
        UnwrapLighter(sys.value);
        var urn := Unwrap(sys.value);
        var p := if pub'.None? then urn else pub';
        var q := if pub'.None? || pub' == urn then None else urn;
        RoomRewritten(files, rank, st, bound, pub, sys, p, q);
        ListRestores(files, rank, bound, st, cats, p, q);
      } else {
        EffectiveTwice(pub);
        RoomRewritten(files, rank, st, bound, pub, sys, pub', sys);
        CatalogsRestore(files, rank, bound, st, cats, pub', sys);
      }
    }
  }

  lemma EffectiveTwice(pub: Option<string>)
    ensures Effective(Effective(pub)) == Effective(pub)
  {
    if pub.Some? { NormalizeFixed(pub.value); }
  }

  lemma {:induction false} CatalogsRestore(files: Files, rank: seq<nat>, bound: nat, st: State, cats: seq<string>,
                                           pub: Option<string>, sys: Option<string>)
    requires |st.depth| == |files| && Ranked(files, rank) && Room(files, rank, st, bound, pub, sys)
             && Below(files, rank, cats, bound)
    requires Plain(pub, sys)
    ensures !Catalogs(files, st, cats, pub, sys).leaked
    decreases Budget(st.depth), 0, 2, |cats|
  {
    assert |rank| == |files|;
    hide Ranked, Resolve, Plain, Marks, HasRoom;
    if cats != [] {
      var f := FileOf(files, cats[0]);
      if f.None? || files[f.value].entries == [] {
        CatalogsRestore(files, rank, bound, st, cats[1..], pub, sys);
      } else {
        FileRestores(files, rank, bound, st, f.value, pub, sys);
        var o := Resolve(files, st, f.value, pub, sys);
        RoomKept(files, rank, st, o.st, bound, pub, sys);
        CatalogsRestore(files, rank, bound, o.st, cats[1..], pub, sys);
      }
    }
  }

  /** Inside a file that delegates, the search goes on for one identifier; the file itself will cut it off. */
  lemma RoomInside(files: Files, rank: seq<nat>, bound: nat, st: State, f: nat, i: nat, system: bool, id: string,
                   pub: Option<string>, sys: Option<string>)
    requires |rank| == |files| == |st.depth| && f < |files| && i < |files[f].entries| && rank[f] < bound
    requires forall g :: 0 <= g < |files| && rank[g] < bound && g != f ==> HasRoom(files, st, g, pub, sys)
    requires Plain(pub, sys) && (if system then sys == Some(id) else pub == Some(id))
    requires Delegates(files, st, f, i, system, id) && FileOf(files, files[f].entries[i].url).Some?
    ensures Room(files, rank, st, bound, if system then None else Some(id), if system then Some(id) else None)
  {
    var p, q := if system then None else Some(id), if system then Some(id) else None;
    assert Fetchable(files, st, f, system, id);
    assert Plain(p, q);
    forall g | 0 <= g < |files| && rank[g] < bound ensures HasRoom(files, st, g, p, q) {
      if g != f { assert HasRoom(files, st, g, pub, sys); }
    }
  }

  lemma {:induction false} FileRestores(files: Files, rank: seq<nat>, bound: nat, st: State, f: nat,
                                        pub: Option<string>, sys: Option<string>)
    requires |st.depth| == |files| && Ranked(files, rank) && f < |files| && rank[f] < bound
    requires Room(files, rank, st, bound, pub, sys) && Plain(pub, sys)
    ensures !Resolve(files, st, f, pub, sys).leaked
    decreases Budget(st.depth), 0, 1, 0
  {
    assert |rank| == |files|;
    hide Ranked, Plain, Marks, Settled, FirstExact, BestRewrite, TryDelegates, TryNext;
    if st.depth[f] <= MAX_CATAL_DEPTH {
      var st1 := Enter(st, f);
      BudgetEnter(st.depth, f);
      RoomEntered(files, rank, bound, st, f, pub, sys);
      if sys.Some? && HasDelegate(files, st1, f, true, sys.value) {
        DelegatesRestore(files, rank, bound, st1, f, 0, true, sys.value, [], pub, sys);
      }
      if pub.Some? && HasDelegate(files, st1, f, false, pub.value) {
        DelegatesRestore(files, rank, bound, st1, f, 0, false, pub.value, [], pub, sys);
      }
      if !(sys.Some? && HasDelegate(files, st1, f, true, sys.value))
          && !(pub.Some? && HasDelegate(files, st1, f, false, pub.value)) {
        NextRestores(files, rank, bound, st1, f, 0, pub, sys);
      }
    }
  }

  /**
    Entering a file takes room from no other file; without an applicable delegate the file itself
    was under the limit.
   */
  lemma RoomEntered(files: Files, rank: seq<nat>, bound: nat, st: State, f: nat, pub: Option<string>,
                    sys: Option<string>)
    requires |rank| == |files| == |st.depth| && f < |files| && rank[f] < bound && Room(files, rank, st, bound, pub, sys)
    ensures var st1 := Enter(st, f);
            && (forall g :: 0 <= g < |files| && rank[g] < bound && g != f ==> HasRoom(files, st1, g, pub, sys))
            && (!(sys.Some? && HasDelegate(files, st1, f, true, sys.value))
                && !(pub.Some? && HasDelegate(files, st1, f, false, pub.value)) ==>
                  st.depth[f] < MAX_CATAL_DEPTH)
  {
    hide Plain, Fetchable, HasDelegate;
    var st1 := Enter(st, f);
    forall g | 0 <= g < |files| && rank[g] < bound
      ensures HasRoom(files, st, g, pub, sys) && (Cutting(files, st, g, pub, sys) ==> Cutting(files, st1, g, pub, sys))
    {
      if pub.Some? { FetchableStays(files, st, st1, g, false, pub.value); }
      if sys.Some? { FetchableStays(files, st, st1, g, true, sys.value); }
    }
    if pub.Some? { FetchableDelegates(files, st1, f, false, pub.value); }
    if sys.Some? { FetchableDelegates(files, st1, f, true, sys.value); }
  }

  lemma FetchableDelegates(files: Files, st: State, f: nat, system: bool, id: string)
    requires f < |files|
    ensures Fetchable(files, st, f, system, id) ==> HasDelegate(files, st, f, system, id)
  {
  }

  lemma {:induction false} DelegatesRestore(files: Files, rank: seq<nat>, bound: nat, st: State, f: nat, i: nat,
                                            system: bool, id: string,
                                            seen: seq<string>, pub: Option<string>, sys: Option<string>)
    requires |st.depth| == |files| && Ranked(files, rank) && f < |files| && i <= |files[f].entries| && rank[f] < bound
    requires forall g :: 0 <= g < |files| && rank[g] < bound && g != f ==> HasRoom(files, st, g, pub, sys)
    requires Plain(pub, sys) && (if system then sys == Some(id) else pub == Some(id))
    ensures !TryDelegates(files, st, f, i, system, id, seen).leaked
    decreases Budget(st.depth), PubWeight(if system then None else Some(id))
              + SysWeight(if system then Some(id) else None), 4,
              |files[f].entries| - i
  {
    hide Plain, Marks, HasRoom, Room, ResolveList;
    if i < |files[f].entries| {
      var url := files[f].entries[i].url;
      if !Delegates(files, st, f, i, system, id) || url in seen {
        DelegatesRestore(files, rank, bound, st, f, i + 1, system, id, seen, pub, sys);
      } else {
        var seen' := if |seen| < MAX_DELEGATE then seen + [url] else seen;
        if FileOf(files, url).None? {
          MarksEntry(files, st, f, i);
          OthersKept(files, rank, bound, st, MarkBroken(st, f, i), f, pub, sys);
          DelegatesRestore(files, rank, bound, MarkBroken(st, f, i), f, i + 1, system, id, seen', pub, sys);
        } else {
          var p, s := if system then None else Some(id), if system then Some(id) else None;
          assert Descends(files, rank, f, files[f].entries[i]);
          RoomInside(files, rank, bound, st, f, i, system, id, pub, sys);
          ListRestores(files, rank, bound, st, [url], p, s);
          var o := ResolveList(files, st, [url], p, s);
          OthersKept(files, rank, bound, st, o.st, f, pub, sys);
          DelegatesRestore(files, rank, bound, o.st, f, i + 1, system, id, seen', pub, sys);
        }
      }
    }
  }

  lemma OthersKept(files: Files, rank: seq<nat>, bound: nat, st: State, st': State, f: nat, pub: Option<string>,
                   sys: Option<string>)
    requires |rank| == |files| == |st.depth| && st'.depth == st.depth && Marks(files, st.broken, st'.broken)
    requires forall g :: 0 <= g < |files| && rank[g] < bound && g != f ==> HasRoom(files, st, g, pub, sys)
    ensures forall g :: 0 <= g < |files| && rank[g] < bound && g != f ==> HasRoom(files, st', g, pub, sys)
  {
    hide Fetchable, Marks, Plain;
    forall g | 0 <= g < |files| && rank[g] < bound && g != f ensures HasRoom(files, st', g, pub, sys) {
      assert HasRoom(files, st, g, pub, sys);
      if pub.Some? { FetchableStays(files, st, st', g, false, pub.value); }
      if sys.Some? { FetchableStays(files, st, st', g, true, sys.value); }
    }
  }

  lemma {:induction false} NextRestores(files: Files, rank: seq<nat>, bound: nat, st: State, f: nat, i: nat,
                                        pub: Option<string>, sys: Option<string>)
    requires |st.depth| == |files| && Ranked(files, rank) && f < |files| && i <= |files[f].entries| && rank[f] < bound
    requires forall g :: 0 <= g < |files| && rank[g] < bound && g != f ==> HasRoom(files, st, g, pub, sys)
    requires 0 < st.depth[f] <= MAX_CATAL_DEPTH
    ensures !TryNext(files, st, f, i, pub, sys).leaked
    decreases Budget(st.depth), PubWeight(pub) + SysWeight(sys), 4, |files[f].entries| - i
  {
    hide Marks, HasRoom, ResolveList;
    if i < |files[f].entries| {
      var url := files[f].entries[i].url;
      if KindAt(files, st, f, i) != NextCatalog {
        NextRestores(files, rank, bound, st, f, i + 1, pub, sys);
      } else if FileOf(files, url).None? {
        MarksEntry(files, st, f, i);
        OthersKept(files, rank, bound, st, MarkBroken(st, f, i), f, pub, sys);
        NextRestores(files, rank, bound, MarkBroken(st, f, i), f, i + 1, pub, sys);
      } else {
        assert Descends(files, rank, f, files[f].entries[i]);
        ListRestores(files, rank, rank[f], st, [url], pub, sys);
        var o := ResolveList(files, st, [url], pub, sys);
        OthersKept(files, rank, bound, st, o.st, f, pub, sys);
        NextRestores(files, rank, bound, o.st, f, i + 1, pub, sys);
      }
    }
  }

  /**
    Where no cycle of references passes through a nextCatalog entry, every counter ends where it
    started, whatever is looked up: files may delegate to each other in cycles.
   */
  lemma CountersRestored(files: Files, rank: seq<nat>, st: State, cats: seq<string>, pub: Option<string>,
                         sys: Option<string>)
    requires |st.depth| == |files| && Ranked(files, rank)
    requires forall f :: 0 <= f < |files| ==> st.depth[f] < MAX_CATAL_DEPTH
    ensures ResolveList(files, st, cats, pub, sys).st.depth == st.depth
  {
    hide Descends, Marks, ResolveList;
    var bound := Highest(rank) + 1;
    forall k | 0 <= k < |rank| ensures rank[k] < bound { HighestAt(rank, k); }
    ListRestores(files, rank, bound, st, cats, pub, sys);
  }

  function Highest(rank: seq<nat>): nat {
    if rank == [] then 0
    else if rank[0] > Highest(rank[1..]) then rank[0] else Highest(rank[1..])
  }

  lemma {:induction false} HighestAt(rank: seq<nat>, k: nat)
    requires k < |rank|
    ensures rank[k] <= Highest(rank)
    decreases rank
  {
    if k > 0 { HighestAt(rank[1..], k - 1); }
  }

  // ----- Counters that do not -----

  /** The file has nothing for these identifiers: no entry of its own, no rule, no delegate. */
  ghost predicate Misses(files: Files, st: State, f: nat, pub: Option<string>, sys: Option<string>)
    requires f < |files|
  {
    && (sys.Some? ==>
        FirstExact(files, st, f, 0, System, sys.value).None?
          && BestRewrite(files, st, f, |files[f].entries|, sys.value).None?
                      && !HasDelegate(files, st, f, true, sys.value))
    && (pub.Some? ==>
        FirstExact(files, st, f, 0, Public, pub.value).None? && !HasDelegate(files, st, f, false, pub.value))
  }

  ghost predicate AllMiss(files: Files, st: State, pub: Option<string>, sys: Option<string>) {
    forall f :: 0 <= f < |files| ==> Misses(files, st, f, pub, sys)
  }

  /** File `f` names file `g` in a nextCatalog entry that is not marked broken. */
  ghost predicate Names(files: Files, st: State, f: nat, g: nat) {
    f < |files|
    && exists i ::
         0 <= i < |files[f].entries| &&
         KindAt(files, st, f, i) == NextCatalog && FileOf(files, files[f].entries[i].url) == Some(g)
  }

  ghost predicate NamesOne(files: Files, st: State, c: set<nat>, f: nat) {
    exists g :: g in c && Names(files, st, f, g)
  }

  /**
    Every file of `c` names a file of `c`, and none has passed the limit: a cycle of nextCatalog
    entries, with what leads into it.
   */
  ghost predicate Trapped(files: Files, st: State, c: set<nat>) {
    && |st.depth| == |files|
    && forall f :: f in c ==> f < |files| && st.depth[f] <= MAX_CATAL_DEPTH && NamesOne(files, st, c, f)
  }

  /** A file of `c` that is past its limit. */
  ghost predicate SomeDead(st: State, c: set<nat>) {
    exists g :: g in c && g < |st.depth| && st.depth[g] > MAX_CATAL_DEPTH
  }

  /** Marking entries that cannot be fetched changes neither what misses nor what names what. */
  lemma MissStays(files: Files, st: State, st': State, pub: Option<string>, sys: Option<string>)
    requires AllMiss(files, st, pub, sys) && Marks(files, st.broken, st'.broken)
    ensures AllMiss(files, st', pub, sys)
  {
    assert st.broken <= st'.broken;
    hide Marks, BestRewrite, FirstExact, HasDelegate;
    forall f | 0 <= f < |files| ensures Misses(files, st', f, pub, sys) {
      assert Misses(files, st, f, pub, sys);
      MissKept(files, st, st', f, pub, sys);
    }
  }

  lemma MissKept(files: Files, st: State, st': State, f: nat, pub: Option<string>, sys: Option<string>)
    requires f < |files| && Misses(files, st, f, pub, sys) && st.broken <= st'.broken
    ensures Misses(files, st', f, pub, sys)
  {
    hide FirstExact, BestRewrite;
    if sys.Some? {
      NoExact(files, st, st', f, System, sys.value);
      NoRule(files, st, st', f, sys.value);
      NoDelegate(files, st, st', f, true, sys.value);
    }
    if pub.Some? {
      NoExact(files, st, st', f, Public, pub.value);
      NoDelegate(files, st, st', f, false, pub.value);
    }
  }

  lemma NoExact(files: Files, st: State, st': State, f: nat, kind: Kind, id: string)
    requires f < |files| && st.broken <= st'.broken && kind != Other && FirstExact(files, st, f, 0, kind, id).None?
    ensures FirstExact(files, st', f, 0, kind, id).None?
  {
    hide FirstExact;
    var r := FirstExact(files, st', f, 0, kind, id);
    assert forall k :: 0 <= k < |files[f].entries| && KindAt(files, st', f, k) == kind ==>
           KindAt(files, st, f, k) == kind;
  }

  lemma NoRule(files: Files, st: State, st': State, f: nat, id: string)
    requires f < |files| && st.broken <= st'.broken && BestRewrite(files, st, f, |files[f].entries|, id).None?
    ensures BestRewrite(files, st', f, |files[f].entries|, id).None?
  {
    hide BestRewrite;
    var r := BestRewrite(files, st', f, |files[f].entries|, id);
    assert forall k :: 0 <= k < |files[f].entries| && Rewrites(files, st', f, k, id) ==> Rewrites(files, st, f, k, id);
  }

  lemma NoDelegate(files: Files, st: State, st': State, f: nat, system: bool, id: string)
    requires f < |files| && st.broken <= st'.broken && !HasDelegate(files, st, f, system, id)
    ensures !HasDelegate(files, st', f, system, id)
  {
    if i :| 0 <= i < |files[f].entries| && Delegates(files, st', f, i, system, id) {
      assert Delegates(files, st, f, i, system, id);
    }
  }

  lemma NamesStay(files: Files, st: State, st': State, f: nat, g: nat)
    requires Names(files, st, f, g) && Marks(files, st.broken, st'.broken)
    ensures Names(files, st', f, g)
  {
    var i :| 0 <= i < |files[f].entries| && KindAt(files, st, f, i) == NextCatalog
        && FileOf(files, files[f].entries[i].url) == Some(g);
    assert (f, i) !in st'.broken;
    assert KindAt(files, st', f, i) == NextCatalog;
  }

  lemma OneNamed(files: Files, st: State, st': State, c: set<nat>, f: nat)
    requires NamesOne(files, st, c, f) && Marks(files, st.broken, st'.broken)
    ensures NamesOne(files, st', c, f)
  {
    hide Names, Marks;
    var g :| g in c && Names(files, st, f, g);
    NamesStay(files, st, st', f, g);
  }

  lemma TrapStays(files: Files, st: State, st': State, c: set<nat>)
    requires Trapped(files, st, c) && |st'.depth| == |files| && Marks(files, st.broken, st'.broken)
    ensures Trapped(files, st', c) || SomeDead(st', c)
  {
    hide NamesOne, Marks;
    if !SomeDead(st', c) {
      forall f | f in c ensures st'.depth[f] <= MAX_CATAL_DEPTH && NamesOne(files, st', c, f) {
        OneNamed(files, st, st', c, f);
      }
    }
  }

  /** A list of one catalog, searched for plain identifiers, is that catalog. */
  lemma OneCatalog(files: Files, st: State, url: string, pub: Option<string>, sys: Option<string>)
    requires |st.depth| == |files| && Plain(pub, sys) && (pub.Some? || sys.Some?)
    ensures ResolveList(files, st, [url], pub, sys) ==
            var g := FileOf(files, url);
            if g.None? || files[g.value].entries == [] then Outcome(NotFound, st, false)
            else Resolve(files, st, g.value, pub, sys)
  {
    hide Resolve, ResolveList, Catalogs, Marks, Plain;
    PlainList(files, st, [url], pub, sys);
    OneRound(files, st, url, pub, sys);
  }

  lemma PlainList(files: Files, st: State, cats: seq<string>, pub: Option<string>, sys: Option<string>)
    requires |st.depth| == |files| && Plain(pub, sys) && (pub.Some? || sys.Some?) && cats != []
    ensures ResolveList(files, st, cats, pub, sys) == Catalogs(files, st, cats, pub, sys)
  {
    hide Catalogs, Marks, Settled;
  }

  lemma OneRound(files: Files, st: State, url: string, pub: Option<string>, sys: Option<string>)
    requires |st.depth| == |files|
    ensures Catalogs(files, st, [url], pub, sys) ==
            var g := FileOf(files, url);
            if g.None? || files[g.value].entries == [] then Outcome(NotFound, st, false)
            else Resolve(files, st, g.value, pub, sys)
  {
    hide Resolve, Marks;
    assert [url][1..] == [];
  }

  /** The search for identifiers that nothing matches. */
  ghost predicate Missing(files: Files, st: State, pub: Option<string>, sys: Option<string>) {
    |st.depth| == |files| && Plain(pub, sys) && (pub.Some? || sys.Some?) && AllMiss(files, st, pub, sys)
  }

  lemma {:induction false} MissFindsNothing(files: Files, st: State, f: nat, pub: Option<string>, sys: Option<string>)
    requires Missing(files, st, pub, sys) && f < |files|
    ensures Resolve(files, st, f, pub, sys).answer == NotFound
    decreases Budget(st.depth), 0, 0
  {
    hide Plain, AllMiss, TryNext, TryDelegates, Marks, Settled;
    if st.depth[f] <= MAX_CATAL_DEPTH {
      var st1 := Enter(st, f);
      BudgetEnter(st.depth, f);
      MissEntered(files, st, f, pub, sys);
      NextFindsNothing(files, st1, f, 0, pub, sys);
    }
  }

  lemma MissEntered(files: Files, st: State, f: nat, pub: Option<string>, sys: Option<string>)
    requires Missing(files, st, pub, sys) && f < |files|
    ensures Missing(files, Enter(st, f), pub, sys) && Misses(files, Enter(st, f), f, pub, sys)
  {
    hide Misses, Plain;
    MissStays(files, st, Enter(st, f), pub, sys);
  }

  lemma {:induction false} NextFindsNothing(files: Files, st: State, f: nat, i: nat, pub: Option<string>,
                                            sys: Option<string>)
    requires Missing(files, st, pub, sys) && f < |files| && i <= |files[f].entries| && st.depth[f] > 0
    ensures TryNext(files, st, f, i, pub, sys).answer == NotFound
    decreases Budget(st.depth), 1, |files[f].entries| - i
  {
    hide Plain, AllMiss, Resolve, ResolveList, Marks;
    if i < |files[f].entries| {
      var url := files[f].entries[i].url;
      if KindAt(files, st, f, i) != NextCatalog {
        NextFindsNothing(files, st, f, i + 1, pub, sys);
      } else if FileOf(files, url).None? {
        MarksEntry(files, st, f, i);
        MissStays(files, st, MarkBroken(st, f, i), pub, sys);
        NextFindsNothing(files, MarkBroken(st, f, i), f, i + 1, pub, sys);
      } else {
        OneCatalog(files, st, url, pub, sys);
        MissFindsNothing(files, st, FileOf(files, url).value, pub, sys);
        var o := ResolveList(files, st, [url], pub, sys);
        BudgetGrown(st.depth, o.st.depth);
        MissStays(files, st, o.st, pub, sys);
        if o.st.depth[f] <= MAX_CATAL_DEPTH { NextFindsNothing(files, o.st, f, i + 1, pub, sys); }
      }
    }
  }

  /**
    At a file of `c` with its counter at the limit, the first nextCatalog entry that can be fetched
    ends the search there.
   */
  lemma {:induction false} FileExhausts(files: Files, st: State, c: set<nat>, f: nat, pub: Option<string>,
                                        sys: Option<string>)
    requires Missing(files, st, pub, sys) && Trapped(files, st, c) && f in c
    ensures SomeDead(Resolve(files, st, f, pub, sys).st, c)
    decreases Budget(st.depth), 0, 0
  {
    hide Plain, AllMiss, TryNext, TryDelegates, Marks, Names, NamesOne, SomeDead, Trapped, FirstExact, BestRewrite;
    TrappedIn(files, st, c, f);
    var st1 := Enter(st, f);
    BudgetEnter(st.depth, f);
    MissEntered(files, st, f, pub, sys);
    var g := NextNamed(files, st, st1, c, f);
    var j: nat :| NamesAt(files, st1, f, j, g);
    if st1.depth[f] <= MAX_CATAL_DEPTH { TrapEntered(files, st, c, f); }
    NextExhausts(files, st1, c, f, 0, j, g, pub, sys);
  }

  lemma NextNamed(files: Files, st: State, st1: State, c: set<nat>, f: nat) returns (g: nat)
    requires NamesOne(files, st, c, f) && st1.broken == st.broken
    ensures g in c && f < |files| && HasNext(files, st1, f) && exists j: nat :: NamesAt(files, st1, f, j, g)
  {
    hide Names;
    g :| g in c && Names(files, st, f, g);
    NamesStay(files, st, st1, f, g);
    NamesNext(files, st1, f, g);
  }

  lemma NamesNext(files: Files, st: State, f: nat, g: nat)
    requires Names(files, st, f, g)
    ensures f < |files| && HasNext(files, st, f) && exists j: nat :: NamesAt(files, st, f, j, g)
  {
    var j :| 0 <= j < |files[f].entries| && KindAt(files, st, f, j) == NextCatalog
        && FileOf(files, files[f].entries[j].url) == Some(g);
    assert NamesAt(files, st, f, j, g);
  }

  lemma TrapEntered(files: Files, st: State, c: set<nat>, f: nat)
    requires Trapped(files, st, c) && f in c && st.depth[f] < MAX_CATAL_DEPTH
    ensures Trapped(files, Enter(st, f), c)
  {
    hide NamesOne;
    TrapStays(files, st, Enter(st, f), c);
  }

  /** Entry `j` of the file is a nextCatalog entry that names `g`. */
  ghost predicate NamesAt(files: Files, st: State, f: nat, j: nat, g: nat)
    requires f < |files|
  {
    j < |files[f].entries| && KindAt(files, st, f, j) == NextCatalog
      && FileOf(files, files[f].entries[j].url) == Some(g)
  }

  lemma NamesAtStays(files: Files, st: State, st': State, f: nat, j: nat, g: nat)
    requires f < |files| && NamesAt(files, st, f, j, g) && Marks(files, st.broken, st'.broken)
    ensures NamesAt(files, st', f, j, g)
  {
    assert (f, j) !in st'.broken;
  }

  /** A file past its limit stays there while another file goes through its entries. */
  lemma DeadStays(files: Files, st: State, c: set<nat>, f: nat, i: nat, pub: Option<string>, sys: Option<string>)
    requires |st.depth| == |files| && f < |files| && i <= |files[f].entries| && 0 < st.depth[f] <= MAX_CATAL_DEPTH
             && SomeDead(st, c)
    ensures SomeDead(TryNext(files, st, f, i, pub, sys).st, c)
  {
    hide TryNext, Marks;
    var g :| g in c && g < |st.depth| && st.depth[g] > MAX_CATAL_DEPTH;
    assert TryNext(files, st, f, i, pub, sys).st.depth[g] >= st.depth[f := st.depth[f] - 1][g];
  }

  lemma NoneDead(files: Files, st: State, c: set<nat>)
    requires Trapped(files, st, c)
    ensures !SomeDead(st, c)
  {
    hide NamesOne;
  }

  lemma TrappedEntries(files: Files, st: State, c: set<nat>, g: nat)
    requires Trapped(files, st, c) && g in c
    ensures g < |files| && files[g].entries != []
  {
    hide Trapped, NamesOne;
    TrappedIn(files, st, c, g);
    EntryNamed(files, st, c, g);
  }

  lemma TrappedIn(files: Files, st: State, c: set<nat>, g: nat)
    requires Trapped(files, st, c) && g in c
    ensures g < |files| && |st.depth| == |files| && st.depth[g] <= MAX_CATAL_DEPTH && NamesOne(files, st, c, g)
  {
    hide NamesOne;
  }

  lemma EntryNamed(files: Files, st: State, c: set<nat>, g: nat)
    requires NamesOne(files, st, c, g)
    ensures g < |files| && files[g].entries != []
  {
  }

  /** The state in which the loop over the nextCatalog entries ends, one round at a time. */
  lemma NextUnfolds(files: Files, st: State, f: nat, i: nat, pub: Option<string>, sys: Option<string>)
    requires |st.depth| == |files| && f < |files| && i < |files[f].entries| && st.depth[f] > 0
    ensures var url := files[f].entries[i].url;
            var end := TryNext(files, st, f, i, pub, sys).st;
            if KindAt(files, st, f, i) != NextCatalog then end == TryNext(files, st, f, i + 1, pub, sys).st
            else if FileOf(files, url).None? then end == TryNext(files, MarkBroken(st, f, i), f, i + 1, pub, sys).st
            else
              var o := ResolveList(files, st, [url], pub, sys);
              && Grown(st.depth, o.st.depth) && Marks(files, st.broken, o.st.broken)
              && (o.answer == NotFound ==>
                  end == if o.st.depth[f] > MAX_CATAL_DEPTH then o.st else TryNext(files, o.st, f, i + 1, pub, sys).st)
  {
    hide ResolveList, Marks;
  }

  lemma {:induction false} NextExhausts(files: Files, st: State, c: set<nat>, f: nat, i: nat, j: nat, g: nat,
                                        pub: Option<string>, sys: Option<string>)
    requires Missing(files, st, pub, sys) && f in c && f < |files| && g in c && i <= j && NamesAt(files, st, f, j, g)
    requires st.depth[f] > 0 && (Trapped(files, st, c) || st.depth[f] > MAX_CATAL_DEPTH)
    ensures SomeDead(TryNext(files, st, f, i, pub, sys).st, c)
    decreases Budget(st.depth), 1, |files[f].entries| - i
  {
    hide Plain, AllMiss, Resolve, ResolveList, TryNext, Marks, Trapped, SomeDead, Names, NamesOne;
    NextUnfolds(files, st, f, i, pub, sys);
    var url := files[f].entries[i].url;
    if KindAt(files, st, f, i) != NextCatalog {
      NextExhausts(files, st, c, f, i + 1, j, g, pub, sys);
    } else if FileOf(files, url).None? {
      var st1 := MarkBroken(st, f, i);
      MarksEntry(files, st, f, i);
      MissStays(files, st, st1, pub, sys);
      NamesAtStays(files, st, st1, f, j, g);
      if Trapped(files, st, c) {
        TrapStays(files, st, st1, c);
        NoneDead(files, st, c);
        SameDead(st, st1, c);
      }
      NextExhausts(files, st1, c, f, i + 1, j, g, pub, sys);
    } else {
      OneCatalog(files, st, url, pub, sys);
      MissFindsNothing(files, st, FileOf(files, url).value, pub, sys);
      var o := ResolveList(files, st, [url], pub, sys);
      BudgetGrown(st.depth, o.st.depth);
      if o.st.depth[f] > MAX_CATAL_DEPTH {
        OneDead(o.st, c, f);
      } else {
        if i == j {
          TrappedEntries(files, st, c, g);
          FileExhausts(files, st, c, g, pub, sys);
        } else {
          TrapStays(files, st, o.st, c);
        }
        if SomeDead(o.st, c) {
          DeadStays(files, o.st, c, f, i + 1, pub, sys);
        } else {
          MissStays(files, st, o.st, pub, sys);
          NamesAtStays(files, st, o.st, f, j, g);
          NextExhausts(files, o.st, c, f, i + 1, j, g, pub, sys);
        }
      }
    }
  }

  lemma OneDead(st: State, c: set<nat>, f: nat)
    requires f in c && f < |st.depth| && st.depth[f] > MAX_CATAL_DEPTH
    ensures SomeDead(st, c)
  {
  }

  lemma SameDead(st: State, st': State, c: set<nat>)
    requires st'.depth == st.depth
    ensures SomeDead(st, c) == SomeDead(st', c)
  {
  }

  /**
    Where files refer to each other by nextCatalog in a cycle, one lookup of identifiers that
    nothing matches, started on the cycle or on the way to it, leaves some file of the cycle past
    its limit; from then on that file answers nothing to anybody.
   */
  lemma MissDisablesFile(files: Files, st: State, c: set<nat>, f: nat, pub: Option<string>, sys: Option<string>)
    returns (dead: nat)
    requires Missing(files, st, pub, sys) && Trapped(files, st, c) && f in c
    ensures var o := Resolve(files, st, f, pub, sys);
            && o.answer == NotFound && o.leaked
            && dead in c && dead < |files| && o.st.depth[dead] > MAX_CATAL_DEPTH
            && forall p, q :: Resolve(files, o.st, dead, p, q) == Outcome(NotFound, o.st, false)
  {
    hide Plain, AllMiss;
    FileExhausts(files, st, c, f, pub, sys);
    MissFindsNothing(files, st, f, pub, sys);
    var o := Resolve(files, st, f, pub, sys);
    dead :| dead in c && dead < |o.st.depth| && o.st.depth[dead] > MAX_CATAL_DEPTH;
  }

  /** A catalog file with one system entry and a nextCatalog entry that names the file itself. */
  function SelfReferring(url: string, name: string, uri: string): Files {
    [File(url, [Entry(System, name, uri, true), Entry(NextCatalog, "", url, true)])]
  }

  lemma SelfReferring1(url: string, name: string, uri: string, sys: string)
    requires sys != name && !IsUrn(sys)
    ensures var files := SelfReferring(url, name, uri);
            Missing(files, State([0], {}), None, Some(sys)) && Trapped(files, State([0], {}), {0})
  {
    var files := SelfReferring(url, name, uri);
    var st := State([0], {});
    assert FirstExact(files, st, 0, 0, System, sys).None?;
    assert BestRewrite(files, st, 0, 1, sys).None?;
    assert BestRewrite(files, st, 0, 2, sys).None?;
    assert KindAt(files, st, 0, 1) == NextCatalog;
  }

  /**
    Such a file with itself as nextCatalog: after one miss it no longer answers even for
    identifiers it lists.
   */
  lemma OneMissDisablesCatalog(url: string, name: string, uri: string, sys: string)
    requires sys != name && !IsUrn(sys)
    ensures var files := SelfReferring(url, name, uri);
            var start := State([0], {});
            && Resolve(files, start, 0, None, Some(name)).answer == Found(uri)
            && Resolve(files, Resolve(files, start, 0, None, Some(sys)).st, 0, None, Some(name)).answer == NotFound
  {
    var files := SelfReferring(url, name, uri);
    var start := State([0], {});
    assert KindAt(files, Enter(start, 0), 0, 0) == System;
    assert FirstExact(files, Enter(start, 0), 0, 0, System, name) == Some(0);
    assert Resolve(files, start, 0, None, Some(name)).answer == Found(uri);
    hide Resolve, Missing, Trapped;
    SelfReferring1(url, name, uri, sys);
    var dead := MissDisablesFile(files, start, {0}, 0, None, Some(sys));
  }

  // ----- Cycles of both kinds of reference -----

  const NEXT_G := Entry(NextCatalog, "", "g", true)
  const NEXT_H := Entry(NextCatalog, "", "h", true)
  const DELEGATE_F := Entry(DelegateSystem, "", "f", true)

  /** File f names g as nextCatalog, and g delegates everything back to f. */
  const ROUND: Files := [File("f", [NEXT_G]), File("g", [DELEGATE_F]), File("h", [Entry(Other, "", "", true)])]

  /** The same, but f first names a file that has nothing. */
  const DETOUR: Files := [File("f", [NEXT_H, NEXT_G]), File("g", [DELEGATE_F]), File("h", [Entry(Other, "", "", true)])]

  function Depths(f: nat, g: nat): State {
    State([f, g, 0], {})
  }

  ghost predicate Mixed(files: Files, st: State, sys: string) {
    (files == ROUND || files == DETOUR) && !IsUrn(sys) && |st.depth| == 3 && st.broken == {}
  }

  lemma MixedFiles(files: Files)
    requires files == ROUND || files == DETOUR
    ensures FileOf(files, "f") == Some(0) && FileOf(files, "g") == Some(1) && FileOf(files, "h") == Some(2)
  {
    assert files[1..][0] == files[1] && files[1..][1..] == files[2..] && files[2..][0] == files[2];
  }

  lemma NothingFor(files: Files, st: State, f: nat, sys: string)
    requires f < |files| && forall i ::
             0 <= i < |files[f].entries| ==> files[f].entries[i].kind !in {System, RewriteSystem}
    ensures FirstExact(files, st, f, 0, System, sys).None? && BestRewrite(files, st, f, |files[f].entries|, sys).None?
  {
  }

  lemma PlainSystem(sys: string)
    requires !IsUrn(sys)
    ensures Plain(None, Some(sys))
  {
  }

  /** File g hands the search to f; when f has no answer, or is cut off itself, g cuts it off. */
  lemma DelegateStep(files: Files, st: State, sys: string)
    requires Mixed(files, st, sys) && st.depth[1] <= MAX_CATAL_DEPTH
    ensures var o := Resolve(files, Enter(st, 1), 0, None, Some(sys));
            (o.answer == NotFound || o.answer == Break) && o.st.broken == {} ==>
              Resolve(files, st, 1, None, Some(sys)) == Outcome(Break, Leave(o.st, 1), o.leaked)
  {
    hide FirstExact, BestRewrite, ResolveList, Marks, FileOf, Plain;
    var st1 := Enter(st, 1);
    MixedFiles(files);
    NothingFor(files, st1, 1, sys);
    PlainSystem(sys);
    assert Delegates(files, st1, 1, 0, true, sys) && HasDelegate(files, st1, 1, true, sys);
    OneCatalog(files, st1, "f", None, Some(sys));
    var o := Resolve(files, st1, 0, None, Some(sys));
    if (o.answer == NotFound || o.answer == Break) && o.st.broken == {} {
      assert TryDelegates(files, o.st, 1, 1, true, sys, ["f"]) == Outcome(Break, o.st, false);
      assert [] + ["f"] == ["f"];
      assert TryDelegates(files, st1, 1, 0, true, sys, []) == Outcome(Break, o.st, o.leaked);
    }
  }

  lemma NextToG(files: Files, st: State, sys: string, i: nat)
    requires Mixed(files, st, sys) && st.depth[0] > 0 && i < |files[0].entries| && files[0].entries[i] == NEXT_G
    ensures var o := Resolve(files, st, 1, None, Some(sys));
            o.answer == Break ==> TryNext(files, st, 0, i, None, Some(sys)) == Outcome(Break, Leave(o.st, 0), o.leaked)
  {
    hide Resolve, ResolveList, Marks, FileOf, Plain;
    MixedFiles(files);
    PlainSystem(sys);
    OneCatalog(files, st, "g", None, Some(sys));
  }

  lemma NoDelegateInF(files: Files, st: State, sys: string)
    requires Mixed(files, st, sys)
    ensures !HasDelegate(files, st, 0, true, sys) && HasNext(files, st, 0)
  {
    assert KindAt(files, st, 0, 0) == NextCatalog;
  }

  lemma RoundStep(st: State, sys: string)
    requires Mixed(ROUND, st, sys) && st.depth[0] <= MAX_CATAL_DEPTH
    ensures var o := Resolve(ROUND, Enter(st, 0), 1, None, Some(sys));
            o.answer == Break ==> Resolve(ROUND, st, 0, None, Some(sys)) == Outcome(Break, Leave(o.st, 0), o.leaked)
  {
    hide FirstExact, BestRewrite, TryNext, Marks;
    NothingFor(ROUND, Enter(st, 0), 0, sys);
    NoDelegateInF(ROUND, Enter(st, 0), sys);
    NextToG(ROUND, Enter(st, 0), sys, 0);
  }

  /**
    A cycle of one nextCatalog entry and a delegate: a lookup that nothing matches runs the
    counters up to the limit, is cut off there, and restores them.
   */
  lemma {:induction false} RoundRestores(d: nat, sys: string)
    requires d <= MAX_CATAL_DEPTH && !IsUrn(sys)
    ensures Resolve(ROUND, Depths(d, d), 0, None, Some(sys)) == Outcome(Break, Depths(d, d), false)
    decreases MAX_CATAL_DEPTH - d
  {
    hide Resolve, FileOf, Marks, Settled;
    var inner := Depths(d + 1, d);
    assert Enter(Depths(d, d), 0) == inner && Enter(inner, 1) == Depths(d + 1, d + 1);
    if d < MAX_CATAL_DEPTH { RoundRestores(d + 1, sys); } else { AtLimit(ROUND, Depths(d + 1, d + 1), sys); }
    DelegateStep(ROUND, inner, sys);
    RoundStep(Depths(d, d), sys);
    assert Leave(Depths(d + 1, d + 1), 1) == inner && Leave(inner, 0) == Depths(d, d);
  }

  lemma AtLimit(files: Files, st: State, sys: string)
    requires Mixed(files, st, sys) && st.depth[0] > MAX_CATAL_DEPTH
    ensures Resolve(files, st, 0, None, Some(sys)) == Outcome(NotFound, st, false)
  {
  }

  lemma DeadEnd(st: State, sys: string)
    requires Mixed(DETOUR, st, sys) && st.depth[2] == 0
    ensures Resolve(DETOUR, st, 2, None, Some(sys)) == Outcome(NotFound, st, false)
  {
    hide FirstExact, BestRewrite, TryNext, TryDelegates, Marks;
    NothingFor(DETOUR, Enter(st, 2), 2, sys);
    assert KindAt(DETOUR, Enter(st, 2), 2, 0) == Other;
  }

  lemma DetourStep(st: State, sys: string)
    requires Mixed(DETOUR, st, sys) && st.depth[0] <= MAX_CATAL_DEPTH && st.depth[2] == 0
    ensures var o := Resolve(DETOUR, Enter(st, 0), 1, None, Some(sys));
            && (st.depth[0] == MAX_CATAL_DEPTH ==>
                Resolve(DETOUR, st, 0, None, Some(sys)) == Outcome(NotFound, Enter(st, 0), true))
            && (st.depth[0] < MAX_CATAL_DEPTH && o.answer == Break ==>
                  Resolve(DETOUR, st, 0, None, Some(sys)) == Outcome(Break, Leave(o.st, 0), o.leaked))
  {
    hide FirstExact, BestRewrite, ResolveList, Marks, FileOf, Plain, TryDelegates;
    var st1 := Enter(st, 0);
    MixedFiles(DETOUR);
    PlainSystem(sys);
    NothingFor(DETOUR, st1, 0, sys);
    NoDelegateInF(DETOUR, st1, sys);
    OneCatalog(DETOUR, st1, "h", None, Some(sys));
    DeadEnd(st1, sys);
    NextToG(DETOUR, st1, sys, 1);
    FirstNextMisses(st1, sys);
  }

  lemma FirstNextMisses(st: State, sys: string)
    requires Mixed(DETOUR, st, sys) && st.depth[0] > 0
             && ResolveList(DETOUR, st, ["h"], None, Some(sys)) == Outcome(NotFound, st, false)
    ensures var r := TryNext(DETOUR, st, 0, 0, None, Some(sys));
            var rest := TryNext(DETOUR, st, 0, 1, None, Some(sys));
            if st.depth[0] > MAX_CATAL_DEPTH then r == Outcome(NotFound, st, true) else r == rest
  {
    hide ResolveList, Resolve, Marks, FileOf;
    MixedFiles(DETOUR);
    assert KindAt(DETOUR, st, 0, 0) == NextCatalog;
  }

  /**
    The same cycle with a nextCatalog entry in front that misses: every such lookup leaves the
    counter of f one higher than it was, until f is past its limit.
   */
  lemma {:induction false} DetourLeaks(d: nat, e: nat, sys: string)
    requires d <= MAX_CATAL_DEPTH && e + (MAX_CATAL_DEPTH - d) <= MAX_CATAL_DEPTH + 1 && !IsUrn(sys)
    ensures Resolve(DETOUR, Depths(d, e), 0, None, Some(sys)) ==
            Outcome(if d < MAX_CATAL_DEPTH then Break else NotFound, Depths(d + 1, e), true)
    decreases MAX_CATAL_DEPTH - d
  {
    hide Resolve, FileOf, Marks, Settled;
    var inner := Depths(d + 1, e);
    assert Enter(Depths(d, e), 0) == inner;
    DetourStep(Depths(d, e), sys);
    if d < MAX_CATAL_DEPTH {
      assert Enter(inner, 1) == Depths(d + 1, e + 1);
      DetourLeaks(d + 1, e + 1, sys);
      DelegateStep(DETOUR, inner, sys);
      assert Leave(Depths(d + 2, e + 1), 1) == Depths(d + 2, e) && Leave(Depths(d + 2, e), 0) == Depths(d + 1, e);
    }
  }
}
