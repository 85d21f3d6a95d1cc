/**
  The catalog resolver as it runs: recursion counters and broken marks are updated in place by
  mutually recursive methods that scan entry lists in single passes. Each is proved to give the
  answer, and leave the state, of the function in CatalogSpec.
 */
module Catalog {
  import opened Ordering
  import opened CatalogNames
  import opened CatalogSpec

  /** What one pass over a file finds for an identifier. */
  datatype Scan = Scan(exact: Option<nat>, rewrite: Option<nat>, haveDelegate: bool, haveNext: bool)

  class Resolver {
    const files: Files
    var depth: seq<nat>
    var broken: set<(nat, nat)>

    constructor (files: Files)
      ensures this.files == files && |depth| == |files| && (forall f :: 0 <= f < |files| ==> depth[f] == 0)
              && broken == {}
    {
      this.files := files;
      depth := seq(|files|, _ => 0);
      broken := {};
    }

    ghost predicate Valid()
      reads this
    {
      |depth| == |files|
    }

    function St(): State
      reads this
    {
      State(depth, broken)
    }

    /** Same answer and same state. */
    ghost predicate Reached(answer: Answer, o: Outcome)
      reads this
    {
      answer == o.answer && St() == o.st
    }

    /** What is still to be done leads to the same answer and state. */
    ghost predicate Ahead(rest: Outcome, total: Outcome) {
      rest.answer == total.answer && rest.st == total.st
    }

    /** xmlCatalogListXMLResolve */
    method ListResolve(cats: seq<string>, pub: Option<string>, sys: Option<string>) returns (answer: Answer)
      requires Valid()
      modifies this
      ensures Valid() && Reached(answer, ResolveList(files, old(St()), cats, pub, sys))
      decreases Budget(depth), PubWeight(pub) + SysWeight(sys), 3, 0
    {
      if cats == [] { return NotFound; }
      if pub.None? && sys.None? { return NotFound; }
      var pub' := pub;
      if pub.Some? {
        var normid := NormalizePublic(pub.value);
        if normid.Some? { pub' := if normid.value != "" then normid else None; }
        NormalizeFixed(pub.value);
      }
      assert pub' == Effective(pub);
      if pub'.Some? && IsUrn(pub'.value) {
        UnwrapLighter(pub'.value);
        var urnId := UnWrapURN(pub'.value);
        answer := ListResolve(cats, urnId, sys);
        return;
      }
      if sys.Some? && IsUrn(sys.value) {
        UnwrapLighter(sys.value);
        var urnId := UnWrapURN(sys.value);
        if pub'.None? {
          answer := ListResolve(cats, urnId, None);
        } else if pub' == urnId {
          answer := ListResolve(cats, pub', None);
        } else {
          answer := ListResolve(cats, pub', urnId);
        }
        return;
      }
      answer := CatalogLoop(cats, pub', sys);
    }

    /** The loop of xmlCatalogListXMLResolve. */
    method CatalogLoop(cats: seq<string>, pub: Option<string>, sys: Option<string>) returns (answer: Answer)
      requires Valid()
      modifies this
      ensures Valid() && Reached(answer, Catalogs(files, old(St()), cats, pub, sys))
      decreases Budget(depth), 0, 2, 0
    {
      ghost var total := Catalogs(files, St(), cats, pub, sys);
      var k := 0;
      answer := NotFound;
      assert cats[0..] == cats;
      while k < |cats|
        invariant k <= |cats| && Valid() && answer == NotFound && Grown(old(depth), depth)
        invariant Ahead(Catalogs(files, St(), cats[k..], pub, sys), total)
      {
        assert cats[k..][1..] == cats[k + 1..] && cats[k..][0] == cats[k];
        BudgetGrown(old(depth), depth);
        var f := FileOf(files, cats[k]);
        if f.Some? && files[f.value].entries != [] {
          answer := XmlResolve(f.value, pub, sys);
          if answer != NotFound { return; }
          if depth[f.value] > MAX_CATAL_DEPTH { return; }
        }
        k := k + 1;
      }
    }

    ghost predicate DelegatesBefore(st: State, f: nat, n: nat, system: bool, id: string)
      requires f < |files| && n <= |files[f].entries|
    {
      exists i :: 0 <= i < n && Delegates(files, st, f, i, system, id)
    }

    ghost predicate NextBefore(st: State, f: nat, n: nat)
      requires f < |files| && n <= |files[f].entries|
    {
      exists i :: 0 <= i < n && KindAt(files, st, f, i) == NextCatalog
    }

    lemma BeforeStep(st: State, f: nat, n: nat, system: bool, id: string)
      requires f < |files| && n < |files[f].entries|
      ensures DelegatesBefore(st, f, n + 1, system, id) <==>
              DelegatesBefore(st, f, n, system, id) || Delegates(files, st, f, n, system, id)
      ensures NextBefore(st, f, n + 1) <==> NextBefore(st, f, n) || KindAt(files, st, f, n) == NextCatalog
    {
    }

    /** The first pass of xmlCatalogXMLResolve, for a system identifier. */
    method ScanSystem(f: nat, sys: string) returns (r: Scan)
      requires Valid() && f < |files|
      ensures r.exact == FirstExact(files, St(), f, 0, System, sys)
      ensures r.exact.None? ==>
                && r.rewrite == BestRewrite(files, St(), f, |files[f].entries|, sys)
                && r.haveDelegate == HasDelegate(files, St(), f, true, sys) && r.haveNext == HasNext(files, St(), f)
    {
      var rewrite: Option<nat>, lenRewrite, haveDelegate, haveNext := None, 0, false, false;
      var cur := 0;
      while cur < |files[f].entries|
        invariant cur <= |files[f].entries|
        invariant FirstExact(files, St(), f, 0, System, sys) == FirstExact(files, St(), f, cur, System, sys)
        invariant rewrite == BestRewrite(files, St(), f, cur, sys)
        invariant lenRewrite == if rewrite.Some? then |files[f].entries[rewrite.value].name| else 0
        invariant haveDelegate == DelegatesBefore(St(), f, cur, true, sys) && haveNext == NextBefore(St(), f, cur)
      {
        var e := files[f].entries[cur];
        var kind := KindAt(files, St(), f, cur);
        BeforeStep(St(), f, cur, true, sys);
        if kind == System {
          if e.name == sys { return Scan(Some(cur), None, false, false); }
        } else if kind == RewriteSystem {
          if |e.name| > lenRewrite && e.name <= sys {
            lenRewrite := |e.name|;
            rewrite := Some(cur);
          }
        } else if kind == DelegateSystem {
          if e.name <= sys { haveDelegate := true; }
        } else if kind == NextCatalog {
          haveNext := true;
        }
        cur := cur + 1;
      }
      r := Scan(None, rewrite, haveDelegate, haveNext);
    }

    /** The second pass, for a public identifier. */
    method ScanPublic(f: nat, pub: string) returns (r: Scan)
      requires Valid() && f < |files|
      ensures r.exact == FirstExact(files, St(), f, 0, Public, pub)
      ensures r.exact.None? ==>
              r.haveDelegate == HasDelegate(files, St(), f, false, pub) && r.haveNext == HasNext(files, St(), f)
    {
      var haveDelegate, haveNext, cur := false, false, 0;
      while cur < |files[f].entries|
        invariant cur <= |files[f].entries|
        invariant FirstExact(files, St(), f, 0, Public, pub) == FirstExact(files, St(), f, cur, Public, pub)
        invariant haveDelegate == DelegatesBefore(St(), f, cur, false, pub) && haveNext == NextBefore(St(), f, cur)
      {
        var e := files[f].entries[cur];
        var kind := KindAt(files, St(), f, cur);
        BeforeStep(St(), f, cur, false, pub);
        if kind == Public {
          if e.name == pub { return Scan(Some(cur), None, false, false); }
        } else if kind == DelegatePublic {
          if e.name <= pub && e.preferPublic { haveDelegate := true; }
        } else if kind == NextCatalog {
          haveNext := true;
        }
        cur := cur + 1;
      }
      r := Scan(None, None, haveDelegate, haveNext);
    }

    /** catal->depth++ */
    method EnterFile(f: nat)
      requires Valid() && f < |files|
      modifies this`depth
      ensures Valid() && St() == Enter(old(St()), f)
    {
      depth := depth[f := depth[f] + 1];
    }

    /** catal->depth-- */
    method LeaveFile(f: nat)
      requires Valid() && f < |files| && depth[f] > 0
      modifies this`depth
      ensures Valid() && St() == Leave(old(St()), f)
    {
      depth := depth[f := depth[f] - 1];
    }

    /** xmlCatalogXMLResolve */
    method XmlResolve(f: nat, pub: Option<string>, sys: Option<string>) returns (answer: Answer)
      requires Valid() && f < |files|
      modifies this
      ensures Valid() && Reached(answer, Resolve(files, old(St()), f, pub, sys))
      decreases Budget(depth), 0, 1, 0
    {
      if depth[f] > MAX_CATAL_DEPTH { return NotFound; }
      BudgetEnter(depth, f);
      EnterFile(f);
      assert Leave(St(), f) == old(St());
      var haveNext := false;
      if sys.Some? {
        var scan := ScanSystem(f, sys.value);
        if scan.exact.Some? {
          LeaveFile(f);
          return Found(files[f].entries[scan.exact.value].url);
        }
        haveNext := scan.haveNext;
        if scan.rewrite.Some? {
          var e := files[f].entries[scan.rewrite.value];
          LeaveFile(f);
          return Found(e.url + sys.value[|e.name|..]);
        }
        if scan.haveDelegate {
          answer := DelegateLoop(f, true, sys.value);
          LeaveFile(f);
          return;
        }
      }
      if pub.Some? {
        var scan := ScanPublic(f, pub.value);
        if scan.exact.Some? {
          LeaveFile(f);
          return Found(files[f].entries[scan.exact.value].url);
        }
        if sys.None? { haveNext := scan.haveNext; }
        if scan.haveDelegate {
          answer := DelegateLoop(f, false, pub.value);
          LeaveFile(f);
          return;
        }
      }
      if haveNext {
        answer := NextLoop(f, pub, sys);
        return;
      }
      LeaveFile(f);
      answer := NotFound;
    }

    /** The loop over the delegates; it ends with the cut. */
    method DelegateLoop(f: nat, system: bool, id: string) returns (answer: Answer)
      requires Valid() && f < |files|
      modifies this
      ensures Valid() && Reached(answer, TryDelegates(files, old(St()), f, 0, system, id, []))
      decreases Budget(depth), PubWeight(if system then None else Some(id))
                + SysWeight(if system then Some(id) else None), 4, 0
    {
      ghost var total := TryDelegates(files, St(), f, 0, system, id, []);
      var seen: seq<string>, cur := [], 0;
      while cur < |files[f].entries|
        invariant cur <= |files[f].entries| && Valid() && Grown(old(depth), depth)
        invariant Ahead(TryDelegates(files, St(), f, cur, system, id, seen), total)
      {
        BudgetGrown(old(depth), depth);
        var url := files[f].entries[cur].url;
        if Delegates(files, St(), f, cur, system, id) && url !in seen {
          if |seen| < MAX_DELEGATE { seen := seen + [url]; }
          if FileOf(files, url).None? {
            broken := broken + {(f, cur)};
          } else {
            answer := ListResolve([url], if system then None else Some(id), if system then Some(id) else None);
            if answer != NotFound { return; }
          }
        }
        cur := cur + 1;
      }
      answer := Break;
    }

    /** The loop over the nextCatalog entries, with the return that skips the decrement. */
    method NextLoop(f: nat, pub: Option<string>, sys: Option<string>) returns (answer: Answer)
      requires Valid() && f < |files| && depth[f] > 0
      modifies this
      ensures Valid() && Reached(answer, TryNext(files, old(St()), f, 0, pub, sys))
      decreases Budget(depth), PubWeight(pub) + SysWeight(sys), 4, 0
    {
      ghost var total := TryNext(files, St(), f, 0, pub, sys);
      var cur := 0;
      while cur < |files[f].entries|
        invariant cur <= |files[f].entries| && Valid() && Grown(old(depth), depth)
        invariant Ahead(TryNext(files, St(), f, cur, pub, sys), total)
      {
        BudgetGrown(old(depth), depth);
        var url := files[f].entries[cur].url;
        if KindAt(files, St(), f, cur) == NextCatalog {
          if FileOf(files, url).None? {
            broken := broken + {(f, cur)};
          } else {
            answer := ListResolve([url], pub, sys);
            if answer != NotFound {
              LeaveFile(f);
              return;
            } else if depth[f] > MAX_CATAL_DEPTH {
              return;
            }
          }
        }
        cur := cur + 1;
      }
      LeaveFile(f);
      answer := NotFound;
    }
  }
}
