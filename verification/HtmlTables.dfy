/**
  What the tables of the HTML parser say, read without its scans: which start tag closes which
  element, and which priority an end tag has.
 */
module HtmlTables {
  import opened Ordering
  import opened HtmlStack
  import opened HtmlParser

  // ----- Start tags that close elements -----

  /** An end of a group that has names. */
  predicate EndOfGroup(t: CloseTable, j: nat) {
    0 < j < |t| && t[j].None? && t[j - 1].Some?
  }

  /** A group may start here: after the end of one, and with no empty group before, which would end the table. */
  ghost predicate GroupAt(t: CloseTable, i: nat) {
    && i <= |t| && (i == 0 || t[i - 1].None?)
    && forall j: nat :: j < i ==> t[j].Some? || EndOfGroup(t, j)
  }

  ghost predicate NoneBefore(t: CloseTable, i: nat, newtag: string) {
    forall j: nat :: j < i && j < |t| && GroupAt(t, j) ==> t[j] != Some(newtag)
  }

  /** The first group that is for a start tag, which is its first name. */
  ghost predicate GroupFor(t: CloseTable, i: nat, newtag: string) {
    i < |t| && t[i] == Some(newtag) && GroupAt(t, i) && NoneBefore(t, i, newtag)
  }

  /** One of the names behind the first one of the group. */
  ghost predicate Among(t: CloseTable, i: nat, oldtag: string) {
    exists k :: i < k < |t| && t[k] == Some(oldtag) && forall m :: i < m < k ==> t[m].Some?
  }

  lemma {:induction false} ListedIffAmong(t: CloseTable, i: nat, oldtag: string)
    requires i < |t|
    ensures Listed(t, i + 1, oldtag) <==> Among(t, i, oldtag)
    decreases |t| - i
  {
    if i + 1 < |t| && t[i + 1].Some? {
      ListedIffAmong(t, i + 1, oldtag);
    }
  }

  /** Between the start of a group and its end nothing starts. */
  lemma InsideGroup(t: CloseTable, i: nat, j: nat)
    requires i < j <= |t| && t[j - 1].Some?
    ensures !GroupAt(t, j)
  {
  }

  lemma AfterGroup(t: CloseTable, i: nat)
    requires i < |t| && t[i].Some? && GroupAt(t, i)
    ensures i < GroupEnd(t, i) && (GroupEnd(t, i) < |t| ==> GroupAt(t, GroupEnd(t, i) + 1))
  {
    var e := GroupEnd(t, i);
    assert i < e;
    forall j: nat | j < e + 1 && j < |t| ensures t[j].Some? || EndOfGroup(t, j) {
      assert j < i || t[j].Some? || j == e;
    }
  }

  lemma NextGroup(t: CloseTable, i: nat, newtag: string)
    requires i < |t| && t[i].Some? && t[i].value != newtag && GroupAt(t, i) && NoneBefore(t, i, newtag)
    ensures var e := GroupEnd(t, i) + 1; i + 1 < e && (e > |t| || GroupAt(t, e)) && NoneBefore(t, e, newtag)
  {
    hide GroupAt;
    AfterGroup(t, i);
    var e := GroupEnd(t, i) + 1;
    forall j: nat | j < e && j < |t| && GroupAt(t, j) ensures t[j] != Some(newtag) {
      if i < j { InsideGroup(t, i, j); }
    }
  }

  /** Where the table ends, no group for the tag follows. */
  lemma TableEnd(t: CloseTable, i: nat, newtag: string, k: nat)
    requires (i > |t| || GroupAt(t, i)) && NoneBefore(t, i, newtag) && (i >= |t| || t[i].None?)
    ensures !GroupFor(t, k, newtag)
  {
    assert !EndOfGroup(t, i);
  }

  lemma GroupForIs(t: CloseTable, i: nat, newtag: string, k: nat)
    requires GroupAt(t, i) && NoneBefore(t, i, newtag) && i < |t| && t[i] == Some(newtag)
    ensures GroupFor(t, k, newtag) <==> k == i
  {
    hide GroupAt;
  }

  /** The scan goes on from here, with no group for the tag before. */
  lemma {:induction false} ScanIff(t: CloseTable, i: nat, newtag: string, oldtag: string)
    requires (i > |t| || GroupAt(t, i)) && NoneBefore(t, i, newtag)
    ensures ClosesFrom(t, i, newtag, oldtag) <==> exists k: nat :: GroupFor(t, k, newtag) && Among(t, k, oldtag)
    decreases |t| - i
  {
    hide Among, GroupAt, GroupFor, NoneBefore;
    if i >= |t| || t[i].None? {
      forall k: nat ensures !GroupFor(t, k, newtag) { TableEnd(t, i, newtag, k); }
    } else if t[i].value == newtag {
      ListedIffAmong(t, i, oldtag);
      forall k: nat ensures GroupFor(t, k, newtag) <==> k == i { GroupForIs(t, i, newtag, k); }
    } else {
      NextGroup(t, i, newtag);
      ScanIff(t, GroupEnd(t, i) + 1, newtag, oldtag);
    }
  }

  /**
    A start tag closes an element exactly if the first group for the tag names the element, and
    is one of the first 99.
   */
  lemma ClosingIff(cfg: Config, newtag: string, oldtag: string)
    ensures Closing(cfg, newtag, oldtag) <==>
            Ordinal(cfg.closes, 0, newtag) < 99
            && exists k: nat :: GroupFor(cfg.closes, k, newtag) && Among(cfg.closes, k, oldtag)
  {
    hide GroupFor, Among, ClosesFrom, ClosesWithin, Ordinal;
    IndexedIff(cfg.closes, 0, 99, newtag, oldtag);
    assert GroupAt(cfg.closes, 0) && NoneBefore(cfg.closes, 0, newtag);
    ScanIff(cfg.closes, 0, newtag, oldtag);
  }

  // ----- Priorities of end tags -----

  /** The first row with a name gives its priority; names without a row have the same one. */
  lemma {:induction false} PriorityIs(rows: seq<(string, int)>, otherwise: int, name: string)
    ensures (forall r :: r in rows ==> r.0 != name) ==> PriorityIn(rows, otherwise, name) == otherwise
    ensures forall k :: 0 <= k < |rows| && rows[k].0 == name && (forall j :: 0 <= j < k ==> rows[j].0 != name) ==>
              PriorityIn(rows, otherwise, name) == rows[k].1
  {
    if rows != [] {
      PriorityIs(rows[1..], otherwise, name);
      forall k | 0 <= k < |rows| && rows[k].0 == name && (forall j :: 0 <= j < k ==> rows[j].0 != name)
        ensures PriorityIn(rows, otherwise, name) == rows[k].1
      {
        if k > 0 {
          assert rows[0].0 != name && rows[1..][k - 1] == rows[k];
          assert forall j :: 0 <= j < k - 1 ==> rows[1..][j] == rows[j + 1];
        }
      }
      assert forall r :: r in rows[1..] ==> r in rows;
    }
  }
}
