/**
  The attribute axis: the comparison of xmlC14NAttrsCompare orders the attributes of a
  namespace-well-formed element totally by namespace URI and local name, so the written order
  does not depend on the order in which they were declared.
 */
module C14nAttributes {
  import opened Ordering
  import opened C14nTree
  import opened C14nSpec

  /** A prefixed attribute has a prefix: the default namespace does not apply to attributes. */
  predicate KeyOk(a: Attr) {
    a.ns.Some? ==> a.ns.value.prefix != ""
  }

  /** Same namespace URI (or none) and same local name. */
  predicate SameKey(a: Attr, b: Attr) {
    a.name == b.name && (a.ns.Some? <==> b.ns.Some?)
      && (a.ns.Some? && b.ns.Some? ==> a.ns.value.href == b.ns.value.href)
  }

  ghost predicate KeysOk(l: seq<Attr>) {
    && (forall a :: a in l ==> KeyOk(a))
    && (forall i, j :: 0 <= i < j < |l| ==> !SameKey(l[i], l[j]))
  }

  /** The comparison in terms of URI and name alone. */
  lemma CompareByKey(a: Attr, b: Attr)
    requires KeyOk(a) && KeyOk(b)
    ensures AttrsCompare(a, b) ==
            (if a.ns.None? && b.ns.None? then StrCmp(a.name, b.name)
             else if a.ns.None? then -1 else if b.ns.None? then 1
             else
               var h := StrCmp(a.ns.value.href, b.ns.value.href);
               if h == 0 then StrCmp(a.name, b.name) else h)
  {
    StrCmpAntisymmetric(a.name, b.name);
    if a.ns.Some? && b.ns.Some? { StrCmpAntisymmetric(a.ns.value.href, b.ns.value.href); }
  }

  /** The order of section 2.2: namespace URI, then local name; no namespace comes first. */
  predicate KeyLess(a: Attr, b: Attr) {
    if a.ns.None? || b.ns.None? then b.ns.Some? || (a.ns.None? && LexLess(a.name, b.name))
    else
      LexLess(a.ns.value.href, b.ns.value.href)
      || (a.ns.value.href == b.ns.value.href && LexLess(a.name, b.name))
  }

  /** On well-formed attributes the two orders are the same. */
  lemma SameOrder(a: Attr, b: Attr)
    requires KeyOk(a) && KeyOk(b)
    ensures KeyLess(a, b) <==> AttrBefore(a, b)
  {
    hide LexLess;
    CompareByKey(a, b);
    StrLessIff(a.name, b.name);
    if a.ns.Some? && b.ns.Some? {
      StrCmpAntisymmetric(a.ns.value.href, b.ns.value.href);
      StrLessIff(a.ns.value.href, b.ns.value.href);
    }
  }

  /** Attributes without namespace, attributes in one that has no prefix, and the others. */
  function Rank(a: Attr): nat {
    if a.ns.None? then 0 else if a.ns.value.prefix == "" then 1 else 2
  }

  /**
    On any attributes a lower rank comes first. In documents that are not namespace-well-formed
    two attributes of the middle rank may come each before the other.
   */
  lemma CompareRanks(a: Attr, b: Attr)
    ensures Rank(a) < Rank(b) ==> AttrBefore(a, b) && AttrsCompare(b, a) > 0
    ensures Rank(a) == Rank(b) == 1 && a.ns != b.ns ==> AttrBefore(a, b) && AttrBefore(b, a)
    ensures a.ns == b.ns && a.name != b.name ==> (AttrBefore(a, b) <==> LexLess(a.name, b.name))
  {
    StrLessIff(a.name, b.name);
  }

  /** Comparison is zero exactly on equal keys, and reversing the arguments reverses the order. */
  lemma CompareAntisymmetric(a: Attr, b: Attr)
    requires KeyOk(a) && KeyOk(b)
    ensures AttrsCompare(a, b) == 0 <==> SameKey(a, b)
    ensures AttrBefore(a, b) <==> AttrsCompare(b, a) > 0
  {
    CompareByKey(a, b);
    CompareByKey(b, a);
    StrCmpAntisymmetric(a.name, b.name);
    StrCmpAntisymmetric(b.name, a.name);
    if a.ns.Some? && b.ns.Some? {
      StrCmpAntisymmetric(a.ns.value.href, b.ns.value.href);
      StrCmpAntisymmetric(b.ns.value.href, a.ns.value.href);
    }
  }

  lemma CompareTransitive(a: Attr, b: Attr, c: Attr)
    requires KeyOk(a) && KeyOk(b) && KeyOk(c) && AttrBefore(a, b) && AttrBefore(b, c)
    ensures AttrBefore(a, c)
  {
    CompareByKey(a, b);
    CompareByKey(b, c);
    CompareByKey(a, c);
    if a.ns.None? {
      if b.ns.None? && c.ns.None? { StrLessTransitive(a.name, b.name, c.name); }
    } else {
      var x, y, z := a.ns.value.href, b.ns.value.href, c.ns.value.href;
      StrCmpAntisymmetric(x, y);
      StrCmpAntisymmetric(y, z);
      if x == y && y == z {
        StrLessTransitive(a.name, b.name, c.name);
      } else if x != y && y != z {
        StrLessTransitive(x, y, z);
      }
    }
  }

  /** The attributes of a well-formed element are totally ordered. */
  lemma AttributesTotal(s: set<Attr>)
    requires forall a :: a in s ==> KeyOk(a)
    requires forall a, b :: a in s && b in s && a != b ==> !SameKey(a, b)
    ensures StrictTotalOn(s, AttrBefore)
  {
    forall a, b | a in s && b in s
      ensures (AttrsCompare(a, b) == 0 <==> SameKey(a, b)) && (AttrBefore(a, b) <==> AttrsCompare(b, a) > 0)
    {
      CompareAntisymmetric(a, b);
    }
    forall a, b, c | a in s && b in s && c in s && AttrBefore(a, b) && AttrBefore(b, c) ensures AttrBefore(a, c) {
      CompareTransitive(a, b, c);
    }
  }

  /** A list in ascending order without equal keys. */
  ghost predicate Ordered(l: seq<Attr>) {
    Sorted(l, AttrBefore) && forall a :: a in l ==> KeyOk(a)
  }

  lemma OrderedKeys(l: seq<Attr>, a: Attr, b: Attr)
    requires Ordered(l) && a in l && b in l && a != b
    ensures !SameKey(a, b)
  {
    var i :| 0 <= i < |l| && l[i] == a;
    var j :| 0 <= j < |l| && l[j] == b;
    CompareAntisymmetric(a, b);
    assert AttrBefore(l[i], l[j]) || AttrBefore(l[j], l[i]);
  }

  lemma InsertOrdered(l: seq<Attr>, a: Attr)
    requires Ordered(l) && KeyOk(a) && forall b :: b in l ==> !SameKey(b, a)
    ensures Ordered(Insert(l, a, AttrBefore))
  {
    var s := (set x | x in l) + {a};
    forall x, y | x in s && y in s && x != y ensures !SameKey(x, y) {
      if x in l && y in l { OrderedKeys(l, x, y); }
    }
    AttributesTotal(s);
    InsertSorted(l, a, s, AttrBefore);
  }

  /** Ordered lists with the same members are the same list. */
  lemma OrderedUnique(l1: seq<Attr>, l2: seq<Attr>)
    requires Ordered(l1) && Ordered(l2) && forall a :: a in l1 <==> a in l2
    ensures l1 == l2
  {
    var s := set x | x in l1;
    forall x, y | x in s && y in s && x != y ensures !SameKey(x, y) {
      OrderedKeys(l1, x, y);
    }
    AttributesTotal(s);
    SortedUnique(l1, l2, s, AttrBefore);
  }

  /** Searching an ordered list finds exactly an equal key. */
  lemma {:induction false} ListedIff(l: seq<Attr>, a: Attr)
    requires Ordered(l) && KeyOk(a)
    ensures Listed(l, a) <==> exists b :: b in l && SameKey(b, a)
  {
    if l != [] {
      assert l == [l[0]] + l[1..];
      ListedIff(l[1..], a);
      CompareAntisymmetric(l[0], a);
      if !AttrBefore(l[0], a) && !SameKey(l[0], a) {
        forall b | b in l ensures !SameKey(b, a) {
          CompareAntisymmetric(b, a);
          CompareAntisymmetric(a, l[0]);
          if b != l[0] {
            var i :| 0 <= i < |l| && l[i] == b;
            assert AttrBefore(l[0], l[i]);
            CompareTransitive(a, l[0], b);
            CompareAntisymmetric(a, b);
          }
        }
      }
    }
  }

  lemma {:induction false} VisibleOrdered(list: seq<Attr>, attrs: seq<Attr>)
    requires Ordered(list) && KeysOk(attrs) && forall a, b :: a in list && b in attrs ==> !SameKey(a, b)
    ensures Ordered(InsertVisible(list, attrs))
    ensures forall a :: a in InsertVisible(list, attrs) <==> a in list || (a in attrs && a.visible)
    decreases attrs
  {
    if attrs != [] {
      var t := attrs[1..];
      assert attrs == [attrs[0]] + t;
      assert attrs[0] in attrs;
      assert forall i :: 0 <= i < |t| ==> t[i] == attrs[i + 1];
      var list' := if attrs[0].visible then Insert(list, attrs[0], AttrBefore) else list;
      if attrs[0].visible { InsertOrdered(list, attrs[0]); }
      VisibleOrdered(list', t);
    }
  }

  /** Importing from one ancestor: its xml: attributes that have no counterpart yet. */
  lemma {:induction false} ImportFrameOrdered(list: seq<Attr>, attrs: seq<Attr>)
    requires Ordered(list) && KeysOk(attrs)
    ensures Ordered(ImportFrame(list, attrs))
    ensures forall a :: a in ImportFrame(list, attrs) <==>
              a in list || (a in attrs && IsXmlAttr(a) && forall b :: b in list ==> !SameKey(b, a))
    decreases attrs
  {
    if attrs != [] {
      var x, t := attrs[0], attrs[1..];
      assert attrs == [x] + t;
      assert forall i :: 0 <= i < |t| ==> t[i] == attrs[i + 1];
      ListedIff(list, x);
      var list' := if IsXmlAttr(x) && !Listed(list, x) then Insert(list, x, AttrBefore) else list;
      if IsXmlAttr(x) && !Listed(list, x) { InsertOrdered(list, x); }
      ImportFrameOrdered(list', t);
      forall a | a in t
        ensures (forall b :: b in list' ==> !SameKey(b, a)) <==> (forall b :: b in list ==> !SameKey(b, a))
      {
        var i :| 0 <= i < |t| && t[i] == a;
        assert !SameKey(attrs[0], attrs[i + 1]);
      }
    }
  }

  ghost predicate FramesOk(chain: Chain) {
    forall f :: f in chain ==> KeysOk(f.attrs)
  }

  lemma {:induction false} ImportOrdered(list: seq<Attr>, chain: Chain)
    requires Ordered(list) && FramesOk(chain)
    ensures Ordered(ImportXml(list, chain))
    decreases chain
  {
    if chain != [] {
      assert chain[0] in chain;
      ImportFrameOrdered(list, chain[0].attrs);
      ImportOrdered(ImportFrame(list, chain[0].attrs), chain[1..]);
    }
  }

  /** The written attributes of a well-formed element are in strictly ascending order. */
  lemma AttrsAxisOrdered(cfg: Config, attrs: seq<Attr>, parents: Chain, visible: bool)
    requires KeysOk(attrs) && FramesOk(parents)
    ensures Ordered(AttrsAxis(cfg, attrs, parents, visible)) && Sorted(AttrsAxis(cfg, attrs, parents, visible), KeyLess)
  {
    hide KeyLess, AttrBefore;
    VisibleOrdered([], attrs);
    ImportOrdered(InsertVisible([], attrs), parents);
    var l := AttrsAxis(cfg, attrs, parents, visible);
    forall i, j | 0 <= i < j < |l| ensures KeyLess(l[i], l[j]) {
      assert AttrBefore(l[i], l[j]) && l[i] in l && l[j] in l;
      SameOrder(l[i], l[j]);
    }
  }

  /** Frames that declare the same namespaces and attributes in any order. */
  ghost predicate SameFrame(f: Frame, g: Frame) {
    f.visible == g.visible && multiset(f.nsDefs) == multiset(g.nsDefs) && multiset(f.attrs) == multiset(g.attrs)
  }

  ghost predicate SameChain(c: Chain, d: Chain) {
    |c| == |d| && forall i :: 0 <= i < |c| ==> SameFrame(c[i], d[i])
  }

  lemma PermutedMembers<T>(l: seq<T>, m: seq<T>, x: T)
    requires multiset(l) == multiset(m)
    ensures x in l <==> x in m
  {
    assert x in multiset(l) <==> x in multiset(m);
  }

  lemma {:induction false} ImportPermuted(list: seq<Attr>, c: Chain, d: Chain)
    requires Ordered(list) && FramesOk(c) && FramesOk(d) && SameChain(c, d)
    ensures ImportXml(list, c) == ImportXml(list, d)
    decreases c
  {
    if c != [] {
      assert c[0] in c && d[0] in d && SameFrame(c[0], d[0]);
      ImportFrameOrdered(list, c[0].attrs);
      ImportFrameOrdered(list, d[0].attrs);
      var l, m := ImportFrame(list, c[0].attrs), ImportFrame(list, d[0].attrs);
      forall a ensures a in l <==> a in m { PermutedMembers(c[0].attrs, d[0].attrs, a); }
      OrderedUnique(l, m);
      ImportPermuted(l, c[1..], d[1..]);
    }
  }

  /** The written attributes do not depend on any declaration order. */
  lemma AttrsAxisPermuted(cfg: Config, a: seq<Attr>, b: seq<Attr>, c: Chain, d: Chain, visible: bool)
    requires KeysOk(a) && KeysOk(b) && multiset(a) == multiset(b)
    requires FramesOk(c) && FramesOk(d) && SameChain(c, d)
    ensures AttrsAxis(cfg, a, c, visible) == AttrsAxis(cfg, b, d, visible)
  {
    VisibleOrdered([], a);
    VisibleOrdered([], b);
    var l, m := InsertVisible([], a), InsertVisible([], b);
    forall x ensures x in l <==> x in m { PermutedMembers(a, b, x); }
    OrderedUnique(l, m);
    assert c != [] ==> SameFrame(c[0], d[0]);
    ImportPermuted(l, c, d);
  }
}
