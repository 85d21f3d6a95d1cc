/**
  External identifier resolution over catalog files that may refer to each other in cycles
  (OASIS XML Catalogs, section 7.1), as functions over the mutable state of the resolver: a
  recursion counter per file and the entries found broken.
 */
module CatalogSpec {
  import opened Ordering
  import opened CatalogNames

  datatype Kind = System | RewriteSystem | DelegateSystem | Public | DelegatePublic | NextCatalog | Other

  datatype Entry = Entry(kind: Kind, name: string, url: string, preferPublic: bool)

  /** A catalog file that can be fetched; any other URL cannot. */
  datatype File = File(url: string, entries: seq<Entry>)
  type Files = seq<File>

  datatype Answer = NotFound | Break | Found(uri: string)

  /** Counters by file, and the entries (file, position) whose target could not be fetched. */
  datatype State = State(depth: seq<nat>, broken: set<(nat, nat)>)

  /** `leaked` says that some counter was left incremented. */
  datatype Outcome = Outcome(answer: Answer, st: State, leaked: bool)

  const MAX_DELEGATE := 50
  const MAX_CATAL_DEPTH := 50

  /** The file behind a URL: the file hash is a cache over a fixed map. */
  function FileOf(files: Files, url: string): (r: Option<nat>)
    ensures r.Some? ==> r.value < |files| && files[r.value].url == url
    ensures r.None? ==> forall f :: f in files ==> f.url != url
  {
    if files == [] then None
    else if files[0].url == url then Some(0)
    else match FileOf(files[1..], url) case None => None case Some(k) => Some(k + 1)
  }

  function KindAt(files: Files, st: State, f: nat, i: nat): Kind
    requires f < |files| && i < |files[f].entries|
  {
    if (f, i) in st.broken then Other else files[f].entries[i].kind
  }

  // ----- One file: which entry decides -----

  /** The first system entry for the identifier, anywhere in the file. */
  function FirstExact(files: Files, st: State, f: nat, i: nat, kind: Kind, id: string): (r: Option<nat>)
    requires f < |files| && i <= |files[f].entries|
    ensures r.Some? ==> i <= r.value < |files[f].entries|
                        && KindAt(files, st, f, r.value) == kind && files[f].entries[r.value].name == id
                        && forall k :: i <= k < r.value ==>
                          !(KindAt(files, st, f, k) == kind && files[f].entries[k].name == id)
    ensures r.None? ==>
            forall k :: i <= k < |files[f].entries| ==>
                !(KindAt(files, st, f, k) == kind && files[f].entries[k].name == id)
    decreases |files[f].entries| - i
  {
    if i == |files[f].entries| then None
    else if KindAt(files, st, f, i) == kind && files[f].entries[i].name == id then Some(i)
    else FirstExact(files, st, f, i + 1, kind, id)
  }

  /** A rewrite rule that applies: an empty start string never does. */
  predicate Rewrites(files: Files, st: State, f: nat, i: nat, id: string)
    requires f < |files| && i < |files[f].entries|
  {
    KindAt(files, st, f, i) == RewriteSystem && files[f].entries[i].name != "" && files[f].entries[i].name <= id
  }

  /** The longest start string wins, and the earliest of equally long ones. */
  ghost predicate IsBestRewrite(files: Files, st: State, f: nat, n: nat, id: string, r: Option<nat>)
    requires f < |files| && n <= |files[f].entries|
  {
    match r
    case None => forall k :: 0 <= k < n ==> !Rewrites(files, st, f, k, id)
    case Some(b) =>
      && b < n && Rewrites(files, st, f, b, id)
      && (forall k :: 0 <= k < n && Rewrites(files, st, f, k, id) ==>
          |files[f].entries[k].name| <= |files[f].entries[b].name|)
      && (forall k :: 0 <= k < b && Rewrites(files, st, f, k, id) ==>
          |files[f].entries[k].name| < |files[f].entries[b].name|)
  }

  /** The rule found when the first `n` entries are scanned. */
  function BestRewrite(files: Files, st: State, f: nat, n: nat, id: string): (r: Option<nat>)
    requires f < |files| && n <= |files[f].entries|
    ensures IsBestRewrite(files, st, f, n, id, r)
  {
    if n == 0 then None
    else
      var r := BestRewrite(files, st, f, n - 1, id);
      if Rewrites(files, st, f, n - 1, id)
         && (r.None? || |files[f].entries[n - 1].name| > |files[f].entries[r.value].name|)
      then Some(n - 1) else r
  }

  lemma BestRewriteUnique(files: Files, st: State, f: nat, n: nat, id: string, a: Option<nat>, b: Option<nat>)
    requires f < |files| && n <= |files[f].entries|
    requires IsBestRewrite(files, st, f, n, id, a) && IsBestRewrite(files, st, f, n, id, b)
    ensures a == b
  {
  }

  /** A delegate entry that applies to the identifier. */
  predicate Delegates(files: Files, st: State, f: nat, i: nat, system: bool, id: string)
    requires f < |files| && i < |files[f].entries|
  {
    var e := files[f].entries[i];
    e.name <= id && (if system then KindAt(files, st, f, i) == DelegateSystem
                     else KindAt(files, st, f, i) == DelegatePublic && e.preferPublic)
  }

  predicate HasDelegate(files: Files, st: State, f: nat, system: bool, id: string)
    requires f < |files|
  {
    exists i :: 0 <= i < |files[f].entries| && Delegates(files, st, f, i, system, id)
  }

  predicate HasNext(files: Files, st: State, f: nat)
    requires f < |files|
  {
    exists i :: 0 <= i < |files[f].entries| && KindAt(files, st, f, i) == NextCatalog
  }

  // ----- Termination measure -----

  /** How often files can still be entered before every counter passes the limit. */
  function Budget(depth: seq<nat>): nat {
    if depth == [] then 0
    else (if depth[0] <= MAX_CATAL_DEPTH then MAX_CATAL_DEPTH + 1 - depth[0] else 0) + Budget(depth[1..])
  }

  predicate Grown(a: seq<nat>, b: seq<nat>) {
    |a| == |b| && forall i :: 0 <= i < |a| ==> a[i] <= b[i]
  }

  lemma {:induction false} BudgetGrown(a: seq<nat>, b: seq<nat>)
    requires Grown(a, b)
    ensures Budget(b) <= Budget(a)
    decreases |a|
  {
    if a != [] { BudgetGrown(a[1..], b[1..]); }
  }

  lemma {:induction false} BudgetEnter(depth: seq<nat>, f: nat)
    requires f < |depth| && depth[f] <= MAX_CATAL_DEPTH
    ensures Budget(depth[f := depth[f] + 1]) < Budget(depth)
    decreases |depth|
  {
    if f == 0 {
      assert depth[0 := depth[0] + 1][1..] == depth[1..];
    } else {
      assert depth[f := depth[f] + 1][1..] == depth[1..][f - 1 := depth[1..][f - 1] + 1];
      BudgetEnter(depth[1..], f - 1);
    }
  }

  function PubWeight(pub: Option<string>): nat {
    if pub.Some? then Weight(Normalize(pub.value)) else 0
  }

  function SysWeight(sys: Option<string>): nat {
    if sys.Some? then Weight(sys.value) else 0
  }

  // ----- Resolution -----

  /** The public identifier as used: normalized, and none when nothing is left of it. */
  function Effective(pub: Option<string>): (r: Option<string>)
    ensures PubWeight(r) == PubWeight(pub)
    ensures r.Some? ==> PubWeight(r) == Weight(r.value)
  {
    if pub.None? then None
    else
      NormalizeFixed(pub.value);
      if Normalize(pub.value) == "" then None else Some(Normalize(pub.value))
  }

  function Enter(st: State, f: nat): State
    requires f < |st.depth|
  {
    st.(depth := st.depth[f := st.depth[f] + 1])
  }

  function Leave(st: State, f: nat): State
    requires f < |st.depth| && st.depth[f] > 0
  {
    st.(depth := st.depth[f := st.depth[f] - 1])
  }

  function MarkBroken(st: State, f: nat, i: nat): State {
    st.(broken := st.broken + {(f, i)})
  }

  /** The counters after a run: never lower, and changed exactly when one leaked. */
  ghost predicate Settled(before: seq<nat>, o: Outcome) {
    Grown(before, o.st.depth) && (o.leaked <==> o.st.depth != before)
  }

  /** What a run marks broken is the entries whose target it could not fetch, and nothing is unmarked. */
  ghost predicate Marks(files: Files, before: set<(nat, nat)>, after: set<(nat, nat)>) {
    && before <= after
    && forall g, i :: (g, i) in after && (g, i) !in before ==>
         g < |files| && i < |files[g].entries| && FileOf(files, files[g].entries[i].url).None?
  }

  lemma MarksThrough(files: Files, a: set<(nat, nat)>, b: set<(nat, nat)>, c: set<(nat, nat)>)
    ensures Marks(files, a, a)
    ensures Marks(files, a, b) && Marks(files, b, c) ==> Marks(files, a, c)
  {
  }

  lemma MarksEntry(files: Files, st: State, f: nat, i: nat)
    requires f < |files| && i < |files[f].entries| && FileOf(files, files[f].entries[i].url).None?
    ensures Marks(files, st.broken, MarkBroken(st, f, i).broken)
  {
  }

  /** xmlCatalogListXMLResolve on a list of catalogs, given by URL. */
  function ResolveList(files: Files, st: State, cats: seq<string>, pub: Option<string>,
                       sys: Option<string>): (o: Outcome)
    requires |st.depth| == |files|
    ensures Settled(st.depth, o) && Marks(files, st.broken, o.st.broken)
    decreases Budget(st.depth), PubWeight(pub) + SysWeight(sys), 3, 0
  {
    hide Marks;
    MarksThrough(files, st.broken, st.broken, st.broken);
    if cats == [] || (pub.None? && sys.None?) then Outcome(NotFound, st, false)
    else
      var pub' := Effective(pub);
      if pub'.Some? && IsUrn(pub'.value) then
        UnwrapLighter(pub'.value);
        ResolveList(files, st, cats, Unwrap(pub'.value), sys)
      else if sys.Some? && IsUrn(sys.value) then
        UnwrapLighter(sys.value);
        var urn := Unwrap(sys.value);
        if pub'.None? then ResolveList(files, st, cats, urn, None)
        else if pub' == urn then ResolveList(files, st, cats, pub', None)
        else ResolveList(files, st, cats, pub', urn)
      else Catalogs(files, st, cats, pub', sys)
  }

  /** Its loop: the catalogs in order, until one answers or has passed its limit. */
  function Catalogs(files: Files, st: State, cats: seq<string>, pub: Option<string>, sys: Option<string>): (o: Outcome)
    requires |st.depth| == |files|
    ensures Settled(st.depth, o) && Marks(files, st.broken, o.st.broken)
    decreases Budget(st.depth), 0, 2, |cats|
  {
    hide Marks;
    MarksThrough(files, st.broken, st.broken, st.broken);
    if cats == [] then Outcome(NotFound, st, false)
    else
      var f := FileOf(files, cats[0]);
      if f.None? || files[f.value].entries == [] then Catalogs(files, st, cats[1..], pub, sys)
      else
        var o := Resolve(files, st, f.value, pub, sys);
        if o.answer != NotFound || o.st.depth[f.value] > MAX_CATAL_DEPTH then o
        else
          BudgetGrown(st.depth, o.st.depth);
          var rest := Catalogs(files, o.st, cats[1..], pub, sys);
          MarksThrough(files, st.broken, o.st.broken, rest.st.broken);
          Outcome(rest.answer, rest.st, o.leaked || rest.leaked)
  }

  /** xmlCatalogXMLResolve on one file. */
  function Resolve(files: Files, st: State, f: nat, pub: Option<string>, sys: Option<string>): (o: Outcome)
    requires |st.depth| == |files| && f < |files|
    ensures Settled(st.depth, o) && Marks(files, st.broken, o.st.broken)
    decreases Budget(st.depth), 0, 1, 0
  {
    hide FirstExact, BestRewrite, HasDelegate, HasNext, Marks;
    MarksThrough(files, st.broken, st.broken, st.broken);
    if st.depth[f] > MAX_CATAL_DEPTH then Outcome(NotFound, st, false)
    else
      var st1 := Enter(st, f);
      BudgetEnter(st.depth, f);
      var entries := files[f].entries;
      var exactSystem := if sys.Some? then FirstExact(files, st1, f, 0, System, sys.value) else None;
      var rewrite := if sys.Some? then BestRewrite(files, st1, f, |entries|, sys.value) else None;
      if exactSystem.Some? then Outcome(Found(entries[exactSystem.value].url), st, false)
      else if rewrite.Some? then
        Outcome(Found(entries[rewrite.value].url + sys.value[|entries[rewrite.value].name|..]), st, false)
      else if sys.Some? && HasDelegate(files, st1, f, true, sys.value) then
        Left(st.depth, f, TryDelegates(files, st1, f, 0, true, sys.value, []))
      else
        var exactPublic := if pub.Some? then FirstExact(files, st1, f, 0, Public, pub.value) else None;
        if exactPublic.Some? then Outcome(Found(entries[exactPublic.value].url), st, false)
        else if pub.Some? && HasDelegate(files, st1, f, false, pub.value) then
          Left(st.depth, f, TryDelegates(files, st1, f, 0, false, pub.value, []))
        else if (pub.Some? || sys.Some?) && HasNext(files, st1, f) then TryNext(files, st1, f, 0, pub, sys)
        else Outcome(NotFound, st, false)
  }

  /** Leaving a file decrements its counter. */
  function Left(before: seq<nat>, f: nat, o: Outcome): (r: Outcome)
    requires f < |before| && Settled(before[f := before[f] + 1], o)
    ensures Settled(before, r) && r.answer == o.answer && r.st.broken == o.st.broken
  {
    var r := Outcome(o.answer, Leave(o.st, f), o.leaked);
    assert r.st.depth == before ==> o.st.depth == before[f := before[f] + 1];
    r
  }

  /** The delegates in order, each catalog once; when none answers the search is cut off. */
  function TryDelegates(files: Files, st: State, f: nat, i: nat, system: bool, id: string,
                        seen: seq<string>): (o: Outcome)
    requires |st.depth| == |files| && f < |files| && i <= |files[f].entries|
    ensures Settled(st.depth, o) && Marks(files, st.broken, o.st.broken) && o.answer != NotFound
    decreases Budget(st.depth), PubWeight(if system then None else Some(id))
              + SysWeight(if system then Some(id) else None), 4,
              |files[f].entries| - i
  {
    hide Marks;
    MarksThrough(files, st.broken, st.broken, st.broken);
    if i == |files[f].entries| then Outcome(Break, st, false)
    else
      var url := files[f].entries[i].url;
      if !Delegates(files, st, f, i, system, id) || url in seen then TryDelegates(files, st, f, i + 1, system, id, seen)
      else
        var seen' := if |seen| < MAX_DELEGATE then seen + [url] else seen;
        if FileOf(files, url).None? then
          var rest := TryDelegates(files, MarkBroken(st, f, i), f, i + 1, system, id, seen');
          MarksEntry(files, st, f, i);
          MarksThrough(files, st.broken, MarkBroken(st, f, i).broken, rest.st.broken);
          rest
        else
          var o := ResolveList(files, st, [url], if system then None else Some(id), if system then Some(id) else None);
          if o.answer != NotFound then o
          else
            BudgetGrown(st.depth, o.st.depth);
            var rest := TryDelegates(files, o.st, f, i + 1, system, id, seen');
            MarksThrough(files, st.broken, o.st.broken, rest.st.broken);
            Outcome(rest.answer, rest.st, o.leaked || rest.leaked)
  }

  /**
    The nextCatalog entries in order. When one comes back empty and this file's own counter has
    passed the limit, the file is left without decrementing the counter.
   */
  function TryNext(files: Files, st: State, f: nat, i: nat, pub: Option<string>, sys: Option<string>): (o: Outcome)
    requires |st.depth| == |files| && f < |files| && i <= |files[f].entries| && st.depth[f] > 0
    ensures Settled(st.depth[f := st.depth[f] - 1], o) && Marks(files, st.broken, o.st.broken)
    decreases Budget(st.depth), PubWeight(pub) + SysWeight(sys), 4, |files[f].entries| - i
  {
    hide Marks;
    MarksThrough(files, st.broken, st.broken, st.broken);
    if i == |files[f].entries| then Outcome(NotFound, Leave(st, f), false)
    else if KindAt(files, st, f, i) != NextCatalog then TryNext(files, st, f, i + 1, pub, sys)
    else
      var url := files[f].entries[i].url;
      if FileOf(files, url).None? then
        var rest := TryNext(files, MarkBroken(st, f, i), f, i + 1, pub, sys);
        MarksEntry(files, st, f, i);
        MarksThrough(files, st.broken, MarkBroken(st, f, i).broken, rest.st.broken);
        rest
      else
        var o := ResolveList(files, st, [url], pub, sys);
        if o.answer != NotFound then LeftAfter(st.depth, f, o)
        else if o.st.depth[f] > MAX_CATAL_DEPTH then Kept(st.depth, f, o)
        else
          BudgetGrown(st.depth, o.st.depth);
          var rest := TryNext(files, o.st, f, i + 1, pub, sys);
          MarksThrough(files, st.broken, o.st.broken, rest.st.broken);
          Joined(st.depth, f, o, rest)
  }

  function LeftAfter(inside: seq<nat>, f: nat, o: Outcome): (r: Outcome)
    requires f < |inside| && inside[f] > 0 && Settled(inside, o)
    ensures Settled(inside[f := inside[f] - 1], r) && r.answer == o.answer && r.st.broken == o.st.broken
  {
    assert inside == inside[f := inside[f] - 1][f := inside[f] - 1 + 1];
    Left(inside[f := inside[f] - 1], f, o)
  }

  function Kept(inside: seq<nat>, f: nat, o: Outcome): (r: Outcome)
    requires f < |inside| && inside[f] > 0 && Settled(inside, o)
    ensures Settled(inside[f := inside[f] - 1], r) && r.st.broken == o.st.broken
  {
    assert o.st.depth[f] != inside[f := inside[f] - 1][f];
    Outcome(NotFound, o.st, true)
  }

  function Joined(inside: seq<nat>, f: nat, o: Outcome, rest: Outcome): (r: Outcome)
    requires f < |inside| && inside[f] > 0 && Settled(inside, o)
    requires Settled(o.st.depth[f := o.st.depth[f] - 1], rest)
    ensures Settled(inside[f := inside[f] - 1], r) && r.st.broken == rest.st.broken
  {
    var base := inside[f := inside[f] - 1];
    var mid := o.st.depth[f := o.st.depth[f] - 1];
    assert mid == base ==> o.st.depth == inside by {
      if mid == base { assert o.st.depth == mid[f := mid[f] + 1] && inside == base[f := base[f] + 1]; }
    }
    assert Grown(base, mid);
    Outcome(rest.answer, rest.st, o.leaked || rest.leaked)
  }
}
