/**
  External identifier resolution as section 7.1 of OASIS XML Catalogs describes it, by a search
  without counters, marks and tables, and where the resolver computes that.
 */
module CatalogReference {
  import opened Ordering
  import opened CatalogNames
  import opened CatalogSpec
  import opened CatalogSafety

  // ----- What a match answers -----

  /** Entry `k` is the first of its kind for the identifier. */
  ghost predicate IsFirst(files: Files, st: State, f: nat, kind: Kind, id: string, k: nat)
    requires f < |files|
  {
    && k < |files[f].entries| && KindAt(files, st, f, k) == kind && files[f].entries[k].name == id
    && forall j :: 0 <= j < k ==> !(KindAt(files, st, f, j) == kind && files[f].entries[j].name == id)
  }

  ghost predicate NoneFor(files: Files, st: State, f: nat, kind: Kind, id: string)
    requires f < |files|
  {
    forall j :: 0 <= j < |files[f].entries| ==> !(KindAt(files, st, f, j) == kind && files[f].entries[j].name == id)
  }

  /** Entering a file changes no entry. */
  lemma EnterKeeps(files: Files, st: State, f: nat, id: string)
    requires f < |st.depth| && f < |files|
    ensures var st1, n := Enter(st, f), |files[f].entries|;
            && (forall k :: 0 <= k < n ==> KindAt(files, st1, f, k) == KindAt(files, st, f, k))
            && (forall k :: 0 <= k < n ==> Rewrites(files, st1, f, k, id) == Rewrites(files, st, f, k, id))
            && HasDelegate(files, st1, f, true, id) == HasDelegate(files, st, f, true, id)
            && HasDelegate(files, st1, f, false, id) == HasDelegate(files, st, f, false, id)
            && HasNext(files, st1, f) == HasNext(files, st, f)
  {
    var st1 := Enter(st, f);
    assert forall k :: 0 <= k < |files[f].entries| ==>
        Delegates(files, st1, f, k, true, id) == Delegates(files, st, f, k, true, id)
        && Delegates(files, st1, f, k, false, id) == Delegates(files, st, f, k, false, id);
  }

  lemma FirstFound(files: Files, st: State, f: nat, kind: Kind, id: string)
    requires |st.depth| == |files| && f < |files|
    ensures forall k: nat :: IsFirst(files, st, f, kind, id, k) ==>
              FirstExact(files, Enter(st, f), f, 0, kind, id) == Some(k)
    ensures NoneFor(files, st, f, kind, id) ==> FirstExact(files, Enter(st, f), f, 0, kind, id) == None
  {
    EnterKeeps(files, st, f, id);
    var r := FirstExact(files, Enter(st, f), f, 0, kind, id);
    forall k: nat | IsFirst(files, st, f, kind, id, k) ensures r == Some(k) {
      assert KindAt(files, Enter(st, f), f, k) == kind;
      assert r.Some? ==> KindAt(files, st, f, r.value) == kind;
    }
  }

  /** The first system entry for the identifier answers, whatever else the file has. */
  lemma SystemAnswers(files: Files, st: State, f: nat, pub: Option<string>, id: string, k: nat)
    requires |st.depth| == |files| && f < |files| && st.depth[f] <= 50
    requires IsFirst(files, st, f, System, id, k)
    ensures Resolve(files, st, f, pub, Some(id)) == Outcome(Found(files[f].entries[k].url), st, false)
  {
    hide FirstExact, BestRewrite, HasDelegate, HasNext, IsFirst, Marks, Settled;
    FirstFound(files, st, f, System, id);
  }

  /** Otherwise the longest rewrite rule: its start string is replaced, and the rest is kept. */
  lemma RewriteAnswers(files: Files, st: State, f: nat, pub: Option<string>, b: nat, rest: string)
    requires |st.depth| == |files| && f < |files| && st.depth[f] <= 50 && b < |files[f].entries|
    requires var id := files[f].entries[b].name + rest;
             NoneFor(files, st, f, System, id) && IsBestRewrite(files, st, f, |files[f].entries|, id, Some(b))
    ensures Resolve(files, st, f, pub, Some(files[f].entries[b].name + rest)) ==
            Outcome(Found(files[f].entries[b].url + rest), st, false)
  {
    hide FirstExact, BestRewrite, HasDelegate, HasNext, Marks, Settled;
    var id := files[f].entries[b].name + rest;
    FirstFound(files, st, f, System, id);
    EnterKeeps(files, st, f, id);
    BestRewriteUnique(files, Enter(st, f), f, |files[f].entries|, id,
                      BestRewrite(files, Enter(st, f), f, |files[f].entries|, id), Some(b));
    assert id[|files[f].entries[b].name|..] == rest;
  }

  /** Nothing in the file is for this system identifier. */
  ghost predicate NothingForSystem(files: Files, st: State, f: nat, sys: Option<string>)
    requires f < |files|
  {
    sys.Some? ==>
      && NoneFor(files, st, f, System, sys.value)
      && IsBestRewrite(files, st, f, |files[f].entries|, sys.value, None)
      && !HasDelegate(files, st, f, true, sys.value)
  }

  lemma NoSystemMatch(files: Files, st: State, f: nat, sys: string)
    requires |st.depth| == |files| && f < |files| && NothingForSystem(files, st, f, Some(sys))
    ensures var st1 := Enter(st, f);
            && FirstExact(files, st1, f, 0, System, sys).None?
            && BestRewrite(files, st1, f, |files[f].entries|, sys).None? && !HasDelegate(files, st1, f, true, sys)
  {
    hide FirstExact, BestRewrite, HasDelegate;
    FirstFound(files, st, f, System, sys);
    EnterKeeps(files, st, f, sys);
    BestRewriteUnique(files, Enter(st, f), f, |files[f].entries|, sys,
                      BestRewrite(files, Enter(st, f), f, |files[f].entries|, sys), None);
  }

  /** Otherwise the first public entry. */
  lemma PublicAnswers(files: Files, st: State, f: nat, id: string, sys: Option<string>, k: nat)
    requires |st.depth| == |files| && f < |files| && st.depth[f] <= 50
    requires NothingForSystem(files, st, f, sys) && IsFirst(files, st, f, Public, id, k)
    ensures Resolve(files, st, f, Some(id), sys) == Outcome(Found(files[f].entries[k].url), st, false)
  {
    hide FirstExact, BestRewrite, HasDelegate, HasNext, IsFirst, NothingForSystem, Marks, Settled;
    FirstFound(files, st, f, Public, id);
    if sys.Some? { NoSystemMatch(files, st, f, sys.value); }
  }

  /** A file that was entered more than 50 times at once answers nothing. */
  lemma LimitSilent(files: Files, st: State, f: nat, pub: Option<string>, sys: Option<string>)
    requires |st.depth| == |files| && f < |files| && st.depth[f] > 50
    ensures Resolve(files, st, f, pub, sys) == Outcome(NotFound, st, false)
  {
    hide FirstExact, BestRewrite, HasDelegate, HasNext, Marks, Settled;
  }

  // ----- The identifiers -----

  /** A public identifier counts by its words; one without any is none. */
  lemma EffectiveIs(p: string)
    ensures Effective(Some(p)).None? <==> Words("", p) == []
    ensures Effective(Some(p)).Some? ==>
              IsNormalized(Effective(Some(p)).value) && Words("", Effective(Some(p)).value) == Words("", p)
  {
    NormalizeCorrect(p);
    WordsSome(Normalize(p));
  }

  lemma WordsSome(p: string)
    requires p == "" || IsNormalized(p)
    ensures Words("", p) == [] <==> p == ""
  {
    if p != "" {
      assert !IsSpace(p[0]);
      assert "" + [p[0]] == [p[0]];
      WordsPending([p[0]], p[1..]);
    }
  }

  lemma {:induction false} WordsPending(w: string, p: string)
    requires w != ""
    ensures Words(w, p) != []
    decreases p
  {
    if p != "" && !IsSpace(p[0]) { WordsPending(w + [p[0]], p[1..]); }
  }

  /** A public identifier normalized and unwrapped until it is no URN. */
  function Core(pub: Option<string>): (r: Option<string>)
    ensures Effective(r) == r && (r.Some? ==> !IsUrn(r.value)) && PubWeight(r) <= PubWeight(pub)
    decreases PubWeight(pub)
  {
    var p := Effective(pub);
    if p.Some? && IsUrn(p.value) then
      UnwrapLighter(p.value);
      Core(Unwrap(p.value))
    else
      EffectiveTwice(pub);
      p
  }

  lemma EffectiveTwice(pub: Option<string>)
    ensures Effective(Effective(pub)) == Effective(pub)
  {
    if pub.Some? { NormalizeFixed(pub.value); }
  }

  /**
    What becomes of the system identifier: a URN is the public identifier of an entity that has
    none, says nothing new where it is that identifier, and is otherwise unwrapped.
   */
  function Settle(core: Option<string>, sys: Option<string>): (Option<string>, Option<string>)
    decreases SysWeight(sys)
  {
    if sys.Some? && IsUrn(sys.value) then
      UnwrapLighter(sys.value);
      var urn := Unwrap(sys.value);
      if core.None? then (Core(urn), None)
      else if core == urn then (core, None)
      else Settle(core, urn)
    else (core, sys)
  }

  lemma CorePlain(pub: Option<string>)
    requires Effective(pub) == pub && (pub.Some? ==> !IsUrn(pub.value))
    ensures Core(pub) == pub
  {
  }

  lemma {:induction false} SettlePlain(core: Option<string>, sys: Option<string>)
    requires Plain(core, None)
    ensures var (p, s) := Settle(core, sys); Plain(p, s)
    decreases SysWeight(sys)
  {
    if sys.Some? && IsUrn(sys.value) && core.Some? && core != Unwrap(sys.value) {
      UnwrapLighter(sys.value);
      SettlePlain(core, Unwrap(sys.value));
    }
  }

  /** Before any catalog is looked at, the identifiers are normalized and freed from URNs. */
  lemma {:induction false} IdentifiersSettled(files: Files, st: State, cats: seq<string>, pub: Option<string>,
                                              sys: Option<string>)
    requires |st.depth| == |files| && cats != [] && (pub.Some? || sys.Some?)
    ensures var (p, s) := Settle(Core(pub), sys);
            ResolveList(files, st, cats, pub, sys) == Catalogs(files, st, cats, p, s)
    decreases PubWeight(pub) + SysWeight(sys)
  {
    hide Catalogs, Effective, UnwrapFrom, Marks;
    var p := Effective(pub);
    if p.Some? && IsUrn(p.value) {
      UnwrapLighter(p.value);
      IdentifiersSettled(files, st, cats, Unwrap(p.value), sys);
    } else if sys.Some? && IsUrn(sys.value) {
      UnwrapLighter(sys.value);
      var urn := Unwrap(sys.value);
      EffectiveTwice(pub);
      if p.Some? { CorePlain(p); }
      if p.None? {
        IdentifiersSettled(files, st, cats, urn, None);
      } else if p == urn {
        IdentifiersSettled(files, st, cats, p, None);
      } else {
        IdentifiersSettled(files, st, cats, p, urn);
      }
    }
  }

  /** What the first catalog of a list finds is what the lookup answers, for identifiers that settle on these. */
  lemma FirstCatalogAnswers(files: Files, st: State, cats: seq<string>, f: nat, pub: Option<string>,
                            sys: Option<string>)
    requires |st.depth| == |files| && f < |files| && files[f].entries != []
    requires cats != [] && FileOf(files, cats[0]) == Some(f) && (pub.Some? || sys.Some?)
    ensures var (p, s) := Settle(Core(pub), sys);
            var o := Resolve(files, st, f, p, s);
            o.answer != NotFound ==> ResolveList(files, st, cats, pub, sys) == o
  {
    hide Resolve, Settle, Core, Marks, Settled, ResolveList;
    IdentifiersSettled(files, st, cats, pub, sys);
  }

  /** A catalog past its limit hides all that come after it, and one that answers nothing below its limit does not. */
  lemma LimitHidesRest(files: Files, st: State, cats: seq<string>, f: nat, pub: Option<string>, sys: Option<string>)
    requires |st.depth| == |files| && f < |files| && files[f].entries != []
    requires cats != [] && FileOf(files, cats[0]) == Some(f) && (pub.Some? || sys.Some?)
    ensures st.depth[f] > 50 ==> ResolveList(files, st, cats, pub, sys) == Outcome(NotFound, st, false)
    ensures var (p, s) := Settle(Core(pub), sys);
            var o := Resolve(files, st, f, p, s);
            o.answer == NotFound && o.st.depth[f] <= 50 ==>
              var rest := Catalogs(files, o.st, cats[1..], p, s);
              var r := ResolveList(files, st, cats, pub, sys);
              r.answer == rest.answer && r.st == rest.st
  {
    hide Resolve, Settle, Core, Marks, Settled, ResolveList, Effective;
    IdentifiersSettled(files, st, cats, pub, sys);
    var (p, s) := Settle(Core(pub), sys);
    if st.depth[f] > 50 { LimitSilent(files, st, f, p, s); }
  }

  // ----- Resolution without a state -----

  /** The URL of the first entry of a kind for an identifier. */
  function FirstUrl(es: seq<Entry>, kind: Kind, id: string): Option<string> {
    if es == [] then None
    else if es[0].kind == kind && es[0].name == id then Some(es[0].url)
    else FirstUrl(es[1..], kind, id)
  }

  /** The rewrite rule with the longest start string, the earliest of these. */
  function Longest(es: seq<Entry>, id: string): (r: Option<Entry>)
    ensures r.Some? ==> r.value.name <= id
  {
    if es == [] then None
    else
      var later := Longest(es[1..], id);
      if es[0].kind == RewriteSystem && es[0].name != "" && es[0].name <= id
         && (later.None? || |es[0].name| >= |later.value.name|)
      then Some(es[0]) else later
  }

  /** The catalogs to which searches for an identifier are delegated; public ones only where public is preferred. */
  function DelegateUrls(es: seq<Entry>, system: bool, id: string): seq<string> {
    if es == [] then []
    else
      (if es[0].name <= id && (if system then es[0].kind == DelegateSystem
                               else es[0].kind == DelegatePublic && es[0].preferPublic)
       then [es[0].url] else [])
      + DelegateUrls(es[1..], system, id)
  }

  function NextUrls(es: seq<Entry>): seq<string> {
    if es == [] then [] else (if es[0].kind == NextCatalog then [es[0].url] else []) + NextUrls(es[1..])
  }

  /** A search that may not go on elsewhere. */
  function CutOff(a: Answer): Answer {
    if a == NotFound then Break else a
  }

  /** Section 7.1.2 on one file; `rank` goes down along references. */
  function Look(files: Files, rank: seq<nat>, f: nat, pub: Option<string>, sys: Option<string>): Answer
    requires f < |files| && |rank| == |files|
    decreases rank[f], 1, 0
  {
    var es := files[f].entries;
    if sys.Some? && FirstUrl(es, System, sys.value).Some? then Found(FirstUrl(es, System, sys.value).value)
    else if sys.Some? && Longest(es, sys.value).Some? then
      var rule := Longest(es, sys.value).value;
      Found(rule.url + sys.value[|rule.name|..])
    else if sys.Some? && DelegateUrls(es, true, sys.value) != [] then
      CutOff(FirstAnswer(files, rank, rank[f], DelegateUrls(es, true, sys.value), None, sys))
    else if pub.Some? && FirstUrl(es, Public, pub.value).Some? then Found(FirstUrl(es, Public, pub.value).value)
    else if pub.Some? && DelegateUrls(es, false, pub.value) != [] then
      CutOff(FirstAnswer(files, rank, rank[f], DelegateUrls(es, false, pub.value), pub, None))
    else FirstAnswer(files, rank, rank[f], NextUrls(es), pub, sys)
  }

  /** The first of several catalogs that answers, found or not. */
  function FirstAnswer(files: Files, rank: seq<nat>, bound: nat, urls: seq<string>, pub: Option<string>,
                       sys: Option<string>): Answer
    requires |rank| == |files|
    decreases bound, 0, |urls|
  {
    if urls == [] then NotFound
    else
      var a := LookAt(files, rank, bound, urls[0], pub, sys);
      if a != NotFound then a else FirstAnswer(files, rank, bound, urls[1..], pub, sys)
  }

  function LookAt(files: Files, rank: seq<nat>, bound: nat, url: string, pub: Option<string>,
                  sys: Option<string>): Answer
    requires |rank| == |files|
    decreases bound, 0, 0
  {
    match FileOf(files, url)
    case None => NotFound
    case Some(g) => if rank[g] < bound then Look(files, rank, g, pub, sys) else NotFound
  }

  // ----- Where the resolver computes that -----

  predicate IsReference(e: Entry) {
    e.kind == DelegateSystem || e.kind == DelegatePublic || e.kind == NextCatalog
  }

  /** No chain of references comes back, and those that delegate can be fetched. */
  ghost predicate Acyclic(files: Files, rank: seq<nat>) {
    && |rank| == |files|
    && forall f, e :: 0 <= f < |files| && e in files[f].entries && IsReference(e) ==>
         match FileOf(files, e.url)
         case None => e.kind == NextCatalog
         case Some(g) => rank[g] < rank[f]
  }

  /** What is marked is nextCatalog entries whose catalog cannot be fetched. */
  ghost predicate OnlyNexts(files: Files, broken: set<(nat, nat)>) {
    forall f, i :: (f, i) in broken ==>
      f < |files| && i < |files[f].entries|
      && files[f].entries[i].kind == NextCatalog && FileOf(files, files[f].entries[i].url).None?
  }

  /** No counter below the bound has reached the limit, and nothing else is marked. */
  ghost predicate Calm(files: Files, rank: seq<nat>, st: State, bound: nat) {
    && |st.depth| == |files| == |rank| && OnlyNexts(files, st.broken)
    && forall g :: 0 <= g < |files| && rank[g] < bound ==> st.depth[g] < MAX_CATAL_DEPTH
  }

  /** The answer is this one, the counters are what they were, and no more is marked than that. */
  ghost predicate Comes(files: Files, st: State, o: Outcome, a: Answer) {
    o.answer == a && !o.leaked && o.st.depth == st.depth && OnlyNexts(files, o.st.broken)
  }

  lemma ComesCalm(files: Files, rank: seq<nat>, st: State, bound: nat, o: Outcome, a: Answer)
    requires Calm(files, rank, st, bound) && Comes(files, st, o, a)
    ensures Calm(files, rank, o.st, bound)
  {
    hide OnlyNexts;
  }

  /** Only nextCatalog entries are read differently for the marks. */
  lemma KindKept(files: Files, st: State, f: nat, k: nat)
    requires f < |files| && k < |files[f].entries| && OnlyNexts(files, st.broken)
    ensures files[f].entries[k].kind != NextCatalog ==> KindAt(files, st, f, k) == files[f].entries[k].kind
    ensures files[f].entries[k].kind == NextCatalog ==>
              KindAt(files, st, f, k) == NextCatalog
              || (KindAt(files, st, f, k) == Other && FileOf(files, files[f].entries[k].url).None?)
  {
  }

  lemma {:induction false} FirstUrlIs(files: Files, st: State, f: nat, i: nat, kind: Kind, id: string)
    requires f < |files| && i <= |files[f].entries| && OnlyNexts(files, st.broken)
    requires kind == System || kind == Public
    ensures var es := files[f].entries;
            FirstUrl(es[i..], kind, id) ==
            match FirstExact(files, st, f, i, kind, id)
            case None => None
            case Some(k) => Some(es[k].url)
    decreases |files[f].entries| - i
  {
    hide OnlyNexts, KindAt;
    var es := files[f].entries;
    if i < |es| {
      assert es[i..][0] == es[i] && es[i..][1..] == es[i + 1..];
      KindKept(files, st, f, i);
      FirstUrlIs(files, st, f, i + 1, kind, id);
    }
  }

  /** Where the longest rule stands. */
  lemma {:induction false} LongestAt(files: Files, st: State, f: nat, i: nat, id: string) returns (r: Option<nat>)
    requires f < |files| && i <= |files[f].entries| && OnlyNexts(files, st.broken)
    ensures var es := files[f].entries;
            && (r.Some? <==> Longest(es[i..], id).Some?)
            && (r.None? ==> forall k :: i <= k < |es| ==> !Rewrites(files, st, f, k, id))
            && (r.Some? ==>
                  && i <= r.value < |es| && es[r.value] == Longest(es[i..], id).value
                  && Rewrites(files, st, f, r.value, id)
                  && (forall k :: i <= k < |es| && Rewrites(files, st, f, k, id) ==> |es[k].name| <= |es[r.value].name|)
                  && (forall k :: i <= k < r.value && Rewrites(files, st, f, k, id) ==>
                        |es[k].name| < |es[r.value].name|))
    decreases |files[f].entries| - i
  {
    hide OnlyNexts, KindAt;
    var es := files[f].entries;
    r := None;
    if i < |es| {
      assert es[i..][0] == es[i] && es[i..][1..] == es[i + 1..];
      KindKept(files, st, f, i);
      r := LongestAt(files, st, f, i + 1, id);
      if Longest(es[i..], id).Some? && Rewrites(files, st, f, i, id) &&
         (r.None? || |es[i].name| >= |es[r.value].name|) {
        r := Some(i);
      }
    }
  }

  lemma LongestIs(files: Files, st: State, f: nat, id: string)
    requires f < |files| && OnlyNexts(files, st.broken)
    ensures var es := files[f].entries;
            Longest(es, id) ==
            match BestRewrite(files, st, f, |es|, id)
            case None => None
            case Some(k) => Some(es[k])
  {
    hide BestRewrite, Longest, Rewrites, OnlyNexts;
    var es := files[f].entries;
    assert es[0..] == es;
    var r := LongestAt(files, st, f, 0, id);
    BestRewriteUnique(files, st, f, |es|, id, r, BestRewrite(files, st, f, |es|, id));
  }

  lemma {:induction false} DelegatesSome(files: Files, st: State, f: nat, i: nat, system: bool, id: string)
    requires f < |files| && i <= |files[f].entries| && OnlyNexts(files, st.broken)
    ensures DelegateUrls(files[f].entries[i..], system, id) != []
            <==> exists k :: i <= k < |files[f].entries| && Delegates(files, st, f, k, system, id)
    decreases |files[f].entries| - i
  {
    hide OnlyNexts, KindAt;
    var es := files[f].entries;
    if i < |es| {
      assert es[i..][0] == es[i] && es[i..][1..] == es[i + 1..];
      KindKept(files, st, f, i);
      DelegatesSome(files, st, f, i + 1, system, id);
      assert Delegates(files, st, f, i, system, id) ==> DelegateUrls(es[i..], system, id)[0] == es[i].url;
    }
  }

  /** Without a nextCatalog entry that is not marked, going through them finds nothing. */
  lemma {:induction false} NoNexts(files: Files, st: State, f: nat, i: nat, pub: Option<string>, sys: Option<string>)
    requires |st.depth| == |files| && f < |files| && i <= |files[f].entries| && st.depth[f] > 0
    requires forall k :: i <= k < |files[f].entries| ==> KindAt(files, st, f, k) != NextCatalog
    ensures TryNext(files, st, f, i, pub, sys) == Outcome(NotFound, Leave(st, f), false)
    decreases |files[f].entries| - i
  {
    hide Marks, Settled, KindAt;
    if i < |files[f].entries| { NoNexts(files, st, f, i + 1, pub, sys); }
  }

  lemma PlainListed(files: Files, st: State, url: string, pub: Option<string>, sys: Option<string>)
    requires |st.depth| == |files| && Plain(pub, sys) && (pub.Some? || sys.Some?)
    ensures ResolveList(files, st, [url], pub, sys) == Catalogs(files, st, [url], pub, sys)
  {
    hide Catalogs, Effective, UnwrapFrom, Marks;
  }

  /** The list that a reference stands for. */
  lemma ReferenceIs(files: Files, rank: seq<nat>, st: State, f: nat, url: string, pub: Option<string>,
                    sys: Option<string>)
    requires Acyclic(files, rank) && f < |files| && Calm(files, rank, st, rank[f]) && Plain(pub, sys)
    requires (pub.Some? || sys.Some?) && FileOf(files, url).Some? && rank[FileOf(files, url).value] < rank[f]
    ensures Comes(files, st, ResolveList(files, st, [url], pub, sys), LookAt(files, rank, rank[f], url, pub, sys))
    decreases rank[f], 0, 1
  {
    hide Resolve, Look, Acyclic, Marks, Settled, Effective, Comes, OnlyNexts;
    PlainListed(files, st, url, pub, sys);
    ListIs(files, rank, st, rank[f], [url], pub, sys);
    hide Catalogs;
    assert [url][1..] == [];
    FirstOfOne(files, rank, rank[f], url, pub, sys);
  }

  lemma FirstOfOne(files: Files, rank: seq<nat>, bound: nat, url: string, pub: Option<string>, sys: Option<string>)
    requires |rank| == |files|
    ensures FirstAnswer(files, rank, bound, [url], pub, sys) == LookAt(files, rank, bound, url, pub, sys)
  {
    hide LookAt;
    assert FirstAnswer(files, rank, bound, [], pub, sys) == NotFound;
  }

  lemma {:induction false} ListIs(files: Files, rank: seq<nat>, st: State, bound: nat, urls: seq<string>,
                                  pub: Option<string>, sys: Option<string>)
    requires Acyclic(files, rank) && Calm(files, rank, st, bound) && Plain(pub, sys) && (pub.Some? || sys.Some?)
    requires forall u :: u in urls && FileOf(files, u).Some? ==> rank[FileOf(files, u).value] < bound
    ensures Comes(files, st, Catalogs(files, st, urls, pub, sys), FirstAnswer(files, rank, bound, urls, pub, sys))
    decreases bound, 0, 0, |urls|
  {
    hide Resolve, Look, Acyclic, Marks, Settled, OnlyNexts;
    if urls != [] {
      assert urls[0] in urls && forall u :: u in urls[1..] ==> u in urls;
      var g := FileOf(files, urls[0]);
      if g.None? {
        ListIs(files, rank, st, bound, urls[1..], pub, sys);
      } else if files[g.value].entries == [] {
        NothingInside(files, rank, g.value, pub, sys);
        ListIs(files, rank, st, bound, urls[1..], pub, sys);
      } else {
        ResolveIs(files, rank, st, g.value, pub, sys);
        var o := Resolve(files, st, g.value, pub, sys);
        ComesCalm(files, rank, st, bound, o, o.answer);
        ListIs(files, rank, o.st, bound, urls[1..], pub, sys);
      }
    }
  }

  lemma NothingInside(files: Files, rank: seq<nat>, f: nat, pub: Option<string>, sys: Option<string>)
    requires |rank| == |files| && f < |files| && files[f].entries == []
    ensures Look(files, rank, f, pub, sys) == NotFound
  {
    assert FirstAnswer(files, rank, rank[f], [], pub, sys) == NotFound;
  }

  /** A delegate goes down. */
  lemma DelegateDown(files: Files, rank: seq<nat>, st: State, f: nat, i: nat, system: bool, id: string)
    requires Acyclic(files, rank) && f < |files| && i < |files[f].entries| && OnlyNexts(files, st.broken)
    ensures var e := files[f].entries[i];
            Delegates(files, st, f, i, system, id) ==
            (e.name <= id && (if system then e.kind == DelegateSystem else e.kind == DelegatePublic && e.preferPublic))
    ensures var e := files[f].entries[i];
            Delegates(files, st, f, i, system, id) ==>
              FileOf(files, e.url).Some? && rank[FileOf(files, e.url).value] < rank[f]
  {
    hide OnlyNexts, KindAt;
    KindKept(files, st, f, i);
    assert files[f].entries[i] in files[f].entries;
  }

  lemma {:induction false} DelegatesAre(files: Files, rank: seq<nat>, st: State, f: nat, i: nat, system: bool,
                                        id: string, seen: seq<string>)
    requires Acyclic(files, rank) && f < |files| && i <= |files[f].entries| && Calm(files, rank, st, rank[f])
    requires Plain(if system then None else Some(id), if system then Some(id) else None)
    requires forall u :: u in seen ==>
               LookAt(files, rank, rank[f], u, if system then None else Some(id), if system then Some(id) else None)
               == NotFound
    ensures var p, q := if system then None else Some(id), if system then Some(id) else None;
            Comes(files, st, TryDelegates(files, st, f, i, system, id, seen),
                  CutOff(FirstAnswer(files, rank, rank[f], DelegateUrls(files[f].entries[i..], system, id), p, q)))
    decreases rank[f], 1, |files[f].entries| - i
  {
    hide ResolveList, LookAt, Marks, Settled, OnlyNexts, Acyclic, Delegates, Plain;
    var p, q := if system then None else Some(id), if system then Some(id) else None;
    var es := files[f].entries;
    if i < |es| {
      var url := es[i].url;
      assert es[i..][0] == es[i] && es[i..][1..] == es[i + 1..];
      var rest := DelegateUrls(es[i + 1..], system, id);
      DelegateDown(files, rank, st, f, i, system, id);
      if Delegates(files, st, f, i, system, id) {
        assert DelegateUrls(es[i..], system, id) == [url] + rest && ([url] + rest)[1..] == rest;
        if url in seen {
          DelegatesAre(files, rank, st, f, i + 1, system, id, seen);
        } else {
          ReferenceIs(files, rank, st, f, url, p, q);
          var o := ResolveList(files, st, [url], p, q);
          if o.answer == NotFound {
            ComesCalm(files, rank, st, rank[f], o, NotFound);
            DelegatesAre(files, rank, o.st, f, i + 1, system, id,
                         if |seen| < MAX_DELEGATE then seen + [url] else seen);
          }
        }
      } else {
        assert DelegateUrls(es[i..], system, id) == rest;
        DelegatesAre(files, rank, st, f, i + 1, system, id, seen);
      }
    }
  }

  /** A nextCatalog entry goes down, or cannot be fetched, and then may be marked. */
  lemma NextDown(files: Files, rank: seq<nat>, st: State, f: nat, i: nat)
    requires Acyclic(files, rank) && f < |files| && i < |files[f].entries| && OnlyNexts(files, st.broken)
    ensures var e := files[f].entries[i];
            && (KindAt(files, st, f, i) == NextCatalog ==> e.kind == NextCatalog)
            && (e.kind == NextCatalog && FileOf(files, e.url).Some? ==>
                  KindAt(files, st, f, i) == NextCatalog && rank[FileOf(files, e.url).value] < rank[f])
            && (e.kind == NextCatalog && FileOf(files, e.url).None? ==>
                  OnlyNexts(files, MarkBroken(st, f, i).broken))
  {
    KindKept(files, st, f, i);
    assert files[f].entries[i] in files[f].entries;
  }

  /** A nextCatalog entry that can be fetched: its answer counts, and without one the next entry is looked at. */
  lemma NextStep(files: Files, st: State, f: nat, i: nat, pub: Option<string>, sys: Option<string>)
    requires |st.depth| == |files| && f < |files| && i < |files[f].entries| && 0 < st.depth[f] <= MAX_CATAL_DEPTH
    requires KindAt(files, st, f, i) == NextCatalog && FileOf(files, files[f].entries[i].url).Some?
    requires ResolveList(files, st, [files[f].entries[i].url], pub, sys).st.depth == st.depth
    ensures var o := ResolveList(files, st, [files[f].entries[i].url], pub, sys);
            var t := TryNext(files, st, f, i, pub, sys);
            if o.answer != NotFound then t == Outcome(o.answer, Leave(o.st, f), o.leaked)
            else
              var rest := TryNext(files, o.st, f, i + 1, pub, sys);
              t == Outcome(rest.answer, rest.st, o.leaked || rest.leaked)
  {
    hide ResolveList, Marks, Settled, KindAt;
  }

  lemma NextOther(files: Files, st: State, f: nat, i: nat, pub: Option<string>, sys: Option<string>)
    requires |st.depth| == |files| && f < |files| && i <= |files[f].entries| && 0 < st.depth[f]
    ensures var t := TryNext(files, st, f, i, pub, sys);
            if i == |files[f].entries| then t == Outcome(NotFound, Leave(st, f), false)
            else if KindAt(files, st, f, i) != NextCatalog then t == TryNext(files, st, f, i + 1, pub, sys)
            else if FileOf(files, files[f].entries[i].url).None? then
              t == TryNext(files, MarkBroken(st, f, i), f, i + 1, pub, sys)
            else true
  {
    hide ResolveList, Marks, Settled, KindAt;
  }

  lemma {:induction false} NextsAre(files: Files, rank: seq<nat>, st: State, f: nat, i: nat, pub: Option<string>,
                                    sys: Option<string>)
    requires Acyclic(files, rank) && f < |files| && i <= |files[f].entries| && Calm(files, rank, st, rank[f])
    requires Plain(pub, sys) && (pub.Some? || sys.Some?) && 0 < st.depth[f] <= MAX_CATAL_DEPTH
    ensures Comes(files, Leave(st, f), TryNext(files, st, f, i, pub, sys),
                  FirstAnswer(files, rank, rank[f], NextUrls(files[f].entries[i..]), pub, sys))
    decreases rank[f], 1, |files[f].entries| - i
  {
    hide ResolveList, Marks, Settled, OnlyNexts, Acyclic, Plain, Look, KindAt, TryNext;
    var es := files[f].entries;
    NextOther(files, st, f, i, pub, sys);
    if i < |es| {
      var url := es[i].url;
      assert es[i..][0] == es[i] && es[i..][1..] == es[i + 1..];
      var rest := NextUrls(es[i + 1..]);
      NextDown(files, rank, st, f, i);
      if es[i].kind == NextCatalog {
        assert NextUrls(es[i..]) == [url] + rest && ([url] + rest)[1..] == rest;
        if FileOf(files, url).None? {
          NextsAre(files, rank, st, f, i + 1, pub, sys);
          NextsAre(files, rank, MarkBroken(st, f, i), f, i + 1, pub, sys);
        } else {
          ReferenceIs(files, rank, st, f, url, pub, sys);
          var o := ResolveList(files, st, [url], pub, sys);
          ComesCalm(files, rank, st, rank[f], o, o.answer);
          NextStep(files, st, f, i, pub, sys);
          NextsAre(files, rank, o.st, f, i + 1, pub, sys);
        }
      } else {
        assert NextUrls(es[i..]) == rest;
        NextsAre(files, rank, st, f, i + 1, pub, sys);
      }
    }
  }

  lemma EnterCalm(files: Files, rank: seq<nat>, st: State, f: nat)
    requires f < |files| == |rank| && Calm(files, rank, st, rank[f] + 1)
    ensures Calm(files, rank, Enter(st, f), rank[f]) && st.depth[f] < MAX_CATAL_DEPTH
    ensures 0 < Enter(st, f).depth[f] <= MAX_CATAL_DEPTH && Leave(Enter(st, f), f) == st
  {
    assert st.depth[f := st.depth[f] + 1][f := st.depth[f]] == st.depth;
  }

  /** Inside a file, for a system identifier: the entries and delegates that the two searches find. */
  lemma {:induction false} SystemSide(files: Files, rank: seq<nat>, st: State, f: nat, id: string)
    requires Acyclic(files, rank) && f < |files| && Calm(files, rank, st, rank[f]) && Plain(None, Some(id))
    ensures var es := files[f].entries;
            && (match FirstExact(files, st, f, 0, System, id)
                case None => FirstUrl(es, System, id).None?
                case Some(k) => FirstUrl(es, System, id) == Some(es[k].url))
            && (match BestRewrite(files, st, f, |es|, id)
                case None => Longest(es, id).None?
                case Some(k) => Longest(es, id) == Some(es[k]))
            && (HasDelegate(files, st, f, true, id) <==> DelegateUrls(es, true, id) != [])
            && Comes(files, st, TryDelegates(files, st, f, 0, true, id, []),
                     CutOff(FirstAnswer(files, rank, rank[f], DelegateUrls(es, true, id), None, Some(id))))
    decreases rank[f], 1, |files[f].entries| + 1
  {
    assert |rank| == |files|;
    hide FirstExact, BestRewrite, FirstUrl, Longest, DelegateUrls, FirstAnswer, TryDelegates;
    hide Acyclic, Calm, Marks, Settled, Comes, OnlyNexts;
    CalmParts(files, rank, st, rank[f]);
    assert files[f].entries[0..] == files[f].entries;
    FirstUrlIs(files, st, f, 0, System, id);
    LongestIs(files, st, f, id);
    DelegatesSome(files, st, f, 0, true, id);
    DelegatesAre(files, rank, st, f, 0, true, id, []);
  }

  /** The same for a public identifier. */
  lemma {:induction false} PublicSide(files: Files, rank: seq<nat>, st: State, f: nat, id: string)
    requires Acyclic(files, rank) && f < |files| && Calm(files, rank, st, rank[f]) && Plain(Some(id), None)
    ensures var es := files[f].entries;
            && (match FirstExact(files, st, f, 0, Public, id)
                case None => FirstUrl(es, Public, id).None?
                case Some(k) => FirstUrl(es, Public, id) == Some(es[k].url))
            && (HasDelegate(files, st, f, false, id) <==> DelegateUrls(es, false, id) != [])
            && Comes(files, st, TryDelegates(files, st, f, 0, false, id, []),
                     CutOff(FirstAnswer(files, rank, rank[f], DelegateUrls(es, false, id), Some(id), None)))
    decreases rank[f], 1, |files[f].entries| + 1
  {
    assert |rank| == |files|;
    hide FirstExact, FirstUrl, DelegateUrls, FirstAnswer, TryDelegates;
    hide Acyclic, Calm, Marks, Settled, Effective, Comes, OnlyNexts;
    CalmParts(files, rank, st, rank[f]);
    assert files[f].entries[0..] == files[f].entries;
    FirstUrlIs(files, st, f, 0, Public, id);
    DelegatesSome(files, st, f, 0, false, id);
    DelegatesAre(files, rank, st, f, 0, false, id, []);
  }

  /** And for the references to other catalogs. */
  lemma {:induction false} NextSide(files: Files, rank: seq<nat>, st: State, f: nat, pub: Option<string>,
                                    sys: Option<string>)
    requires Acyclic(files, rank) && f < |files| && Calm(files, rank, st, rank[f])
    requires Plain(pub, sys) && (pub.Some? || sys.Some?) && 0 < st.depth[f] <= MAX_CATAL_DEPTH
    ensures var a := FirstAnswer(files, rank, rank[f], NextUrls(files[f].entries), pub, sys);
            && Comes(files, Leave(st, f), TryNext(files, st, f, 0, pub, sys), a)
            && (!HasNext(files, st, f) ==> a == NotFound)
    decreases rank[f], 1, |files[f].entries| + 1
  {
    assert |rank| == |files|;
    hide NextUrls, FirstAnswer, TryNext;
    hide Acyclic, Calm, Marks, Settled, Effective, OnlyNexts;
    CalmParts(files, rank, st, rank[f]);
    assert files[f].entries[0..] == files[f].entries;
    NextsAre(files, rank, st, f, 0, pub, sys);
    if !HasNext(files, st, f) { NoNexts(files, st, f, 0, pub, sys); }
  }

  /** One file: the resolver answers what the search without a state answers. */
  lemma {:induction false} ResolveIs(files: Files, rank: seq<nat>, st: State, f: nat, pub: Option<string>,
                                     sys: Option<string>)
    requires Acyclic(files, rank) && f < |files| && Calm(files, rank, st, rank[f] + 1)
    requires Plain(pub, sys) && (pub.Some? || sys.Some?)
    ensures Comes(files, st, Resolve(files, st, f, pub, sys), Look(files, rank, f, pub, sys))
    decreases rank[f], 2, 0
  {
    assert |rank| == |files|;
    hide FirstExact, BestRewrite, FirstUrl, Longest, DelegateUrls, NextUrls, FirstAnswer, TryDelegates, TryNext;
    hide Acyclic, Calm, Marks, Settled, Effective, HasDelegate, HasNext, Plain, OnlyNexts;
    CalmParts(files, rank, st, rank[f] + 1);
    var st1 := Enter(st, f);
    EnterCalm(files, rank, st, f);
    CalmParts(files, rank, st1, rank[f]);
    PlainAlone(pub, sys);
    if sys.Some? { SystemSide(files, rank, st1, f, sys.value); }
    if pub.Some? { PublicSide(files, rank, st1, f, pub.value); }
    NextSide(files, rank, st1, f, pub, sys);
  }

  lemma CalmParts(files: Files, rank: seq<nat>, st: State, bound: nat)
    requires Calm(files, rank, st, bound)
    ensures OnlyNexts(files, st.broken) && |st.depth| == |files| == |rank|
  {
  }

  lemma PlainAlone(pub: Option<string>, sys: Option<string>)
    requires Plain(pub, sys)
    ensures Plain(pub, None) && Plain(None, sys)
  {
  }

  /**
    On catalogs whose references do not come back, a lookup answers what section 7.1 says, by a
    search that has no state: a nextCatalog entry that cannot be fetched counts for nothing. The
    lookup leaves the counters as they were and marks such entries only, so it can be repeated.
   */
  lemma ResolvesByReference(files: Files, rank: seq<nat>, st: State, bound: nat, cats: seq<string>, pub: Option<string>,
                            sys: Option<string>)
    requires Acyclic(files, rank) && Calm(files, rank, st, bound) && cats != [] && (forall r :: r in rank ==> r < bound)
    requires (pub.Some? || sys.Some?) && Settle(Core(pub), sys) != (None, None)
    ensures var (p, s) := Settle(Core(pub), sys);
            var o := ResolveList(files, st, cats, pub, sys);
            && o.answer == FirstAnswer(files, rank, bound, cats, p, s)
            && o.st.depth == st.depth && Calm(files, rank, o.st, bound)
  {
    hide Acyclic, Calm, FirstAnswer, ResolveList, Catalogs, Settle, Plain, OnlyNexts;
    var (p, s) := Settle(Core(pub), sys);
    CalmParts(files, rank, st, bound);
    assert forall g :: 0 <= g < |files| ==> rank[g] in rank;
    IdentifiersSettled(files, st, cats, pub, sys);
    CoreIsPlain(pub);
    SettlePlain(Core(pub), sys);
    ListIs(files, rank, st, bound, cats, p, s);
    var o := Catalogs(files, st, cats, p, s);
    ComesCalm(files, rank, st, bound, o, o.answer);
  }

  lemma CoreIsPlain(pub: Option<string>)
    ensures Plain(Core(pub), None)
  {
    hide Core;
  }
}
