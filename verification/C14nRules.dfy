/**
  What Canonical XML 1.0 says about attributes (section 2.4) and about comments and processing
  instructions (section 2.3), written without the functions of the canonicalizer, and exactly
  where the canonicalizer does something else.
 */
module C14nRules {
  import opened Ordering
  import opened C14nTree
  import opened C14nSpec
  import opened C14nAttributes

  // ----- The rule for attributes -----

  /** The namespace every document has, which is never declared. */
  const XML_NS := Ns("xml", "http://www.w3.org/XML/1998/namespace")

  function ShownAttrs(attrs: seq<Attr>): seq<Attr> {
    if attrs == [] then [] else (if attrs[0].visible then [attrs[0]] else []) + ShownAttrs(attrs[1..])
  }

  /** Local names of the attributes in the xml namespace, shown or not. */
  function XmlKeys(attrs: seq<Attr>): set<string> {
    set a | a in attrs && a.ns.Some? && a.ns.value.href == XML_NS.href :: a.name
  }

  /** Local names of the xml: attributes of an ancestor. */
  function XmlLocal(attrs: seq<Attr>): set<string> {
    set a | a in attrs && a.ns == Some(XML_NS) :: a.name
  }

  /** The xml: attributes with names other than these. */
  function XmlBeyond(attrs: seq<Attr>, seen: set<string>): seq<Attr> {
    if attrs == [] then []
    else
      (if attrs[0].ns == Some(XML_NS) && attrs[0].name !in seen then [attrs[0]] else [])
      + XmlBeyond(attrs[1..], seen)
  }

  /** The nearest occurrences of xml: attributes on the ancestor axis, shown or not, without these names. */
  function Inherited(seen: set<string>, parents: Chain): seq<Attr>
    decreases parents
  {
    if parents == [] then []
    else XmlBeyond(parents[0].attrs, seen) + Inherited(seen + XmlLocal(parents[0].attrs), parents[1..])
  }

  /** An element of the output whose parent is omitted takes over xml: attributes. */
  predicate TakesOver(cfg: Config, parents: Chain, visible: bool) {
    !cfg.exclusive && visible && parents != [] && !parents[0].visible
  }

  /** The attributes to be written: the shown ones, and inherited ones the element does not have, shown or not. */
  function RecommendedAttrs(cfg: Config, attrs: seq<Attr>, parents: Chain, visible: bool): seq<Attr> {
    InsertAll([], ShownAttrs(attrs) + (if TakesOver(cfg, parents, visible) then Inherited(XmlKeys(attrs), parents)
                                       else []),
              KeyLess)
  }

  // ----- What the canonicalizer does instead -----

  /** The attributes of a list with these names. */
  function Again(l: seq<Attr>, names: set<string>): seq<Attr> {
    if l == [] then [] else (if l[0].name in names then [l[0]] else []) + Again(l[1..], names)
  }

  /** The inherited attributes that are written although the element has one of that name, which is hidden. */
  function Returned(cfg: Config, attrs: seq<Attr>, parents: Chain, visible: bool): seq<Attr> {
    if TakesOver(cfg, parents, visible)
    then Again(Inherited(XmlKeys(ShownAttrs(attrs)), parents), XmlKeys(attrs))
    else []
  }

  lemma {:induction false} ShownAttrsMembers(attrs: seq<Attr>)
    ensures forall a :: a in ShownAttrs(attrs) <==> a in attrs && a.visible
    ensures KeysOk(attrs) ==> KeysOk(ShownAttrs(attrs))
  {
    if attrs != [] {
      var t := attrs[1..];
      ShownAttrsMembers(t);
      assert attrs == [attrs[0]] + t;
      if KeysOk(attrs) {
        assert forall i :: 0 <= i < |t| ==> t[i] == attrs[i + 1];
        assert KeysOk(t);
        ConsKeys(attrs[0], ShownAttrs(t), t);
      }
    }
  }

  /** A list of attributes with an attribute in front that has a key of its own. */
  lemma ConsKeys(a: Attr, l: seq<Attr>, t: seq<Attr>)
    requires KeysOk([a] + t) && KeysOk(l) && forall b :: b in l ==> b in t
    ensures KeysOk([a] + l)
  {
    var m := [a] + l;
    forall i, j | 0 <= i < j < |m| ensures !SameKey(m[i], m[j]) {
      if i == 0 {
        assert m[j] in l && m[j] in t;
        var k :| 0 <= k < |t| && t[k] == m[j];
        assert ([a] + t)[k + 1] == m[j] && ([a] + t)[0] == a;
      }
    }
    assert ([a] + t)[0] == a;
  }

  lemma {:induction false} BeyondMembers(attrs: seq<Attr>, seen: set<string>)
    ensures forall a :: a in XmlBeyond(attrs, seen) <==> a in attrs && IsXmlAttr(a) && a.name !in seen
    ensures KeysOk(attrs) ==> KeysOk(XmlBeyond(attrs, seen))
  {
    if attrs != [] {
      var t := attrs[1..];
      BeyondMembers(t, seen);
      assert attrs == [attrs[0]] + t;
      if KeysOk(attrs) {
        assert forall i :: 0 <= i < |t| ==> t[i] == attrs[i + 1];
        assert KeysOk(t);
        ConsKeys(attrs[0], XmlBeyond(t, seen), t);
      }
    }
  }

  /** Attributes in the xml namespace have the same key exactly when they have the same name. */
  lemma XmlKeyIs(a: Attr, l: seq<Attr>)
    requires IsXmlAttr(a)
    ensures (exists b :: b in l && SameKey(b, a)) <==> a.name in XmlKeys(l)
  {
  }

  /** Names of all xml: attributes of the ancestors. */
  function AllLocal(chain: Chain): set<string>
    decreases chain
  {
    if chain == [] then {} else XmlLocal(chain[0].attrs) + AllLocal(chain[1..])
  }

  lemma KeysJoin(l: seq<Attr>, m: seq<Attr>)
    requires KeysOk(l) && KeysOk(m) && forall a, b :: a in l && b in m ==> !SameKey(a, b)
    ensures KeysOk(l + m)
  {
    var r := l + m;
    forall i, j | 0 <= i < j < |r| ensures !SameKey(r[i], r[j]) {
      if i < |l| <= j { assert r[i] in l && r[j] in m; }
    }
  }

  lemma NameFound(attrs: seq<Attr>, seen: set<string>, own: seq<Attr>, rest: seq<Attr>, local: set<string>, n: string)
    requires forall a :: a in own <==> a in attrs && IsXmlAttr(a) && a.name !in seen
    requires forall m :: m !in seen + XmlLocal(attrs) && m in local ==> exists a: Attr :: a in rest && a.name == m
    requires n !in seen && (n in XmlLocal(attrs) || n in local)
    ensures exists a: Attr :: a in own + rest && a.name == n
  {
    if n in XmlLocal(attrs) {
      var a :| a in attrs && IsXmlAttr(a) && a.name == n;
      assert a in own + rest;
    } else {
      var a :| a in rest && a.name == n;
      assert a in own + rest;
    }
  }

  lemma {:induction false} InheritedNames(seen: set<string>, chain: Chain)
    ensures forall a :: a in Inherited(seen, chain) ==> IsXmlAttr(a) && a.name !in seen
    ensures forall n :: n !in seen && n in AllLocal(chain) ==>
            exists a: Attr :: a in Inherited(seen, chain) && a.name == n
    ensures forall a :: a in Inherited(seen, chain) ==> a.name in AllLocal(chain)
    ensures FramesOk(chain) ==> KeysOk(Inherited(seen, chain))
    decreases chain
  {
    if chain != [] {
      var attrs, seen' := chain[0].attrs, seen + XmlLocal(chain[0].attrs);
      var own, rest := XmlBeyond(attrs, seen), Inherited(seen', chain[1..]);
      BeyondMembers(attrs, seen);
      InheritedNames(seen', chain[1..]);
      forall n | n !in seen && n in AllLocal(chain) ensures exists a: Attr :: a in own + rest && a.name == n {
        assert n in XmlLocal(attrs) || n in AllLocal(chain[1..]);
        NameFound(attrs, seen, own, rest, AllLocal(chain[1..]), n);
      }
      if FramesOk(chain) {
        assert chain[0] in chain && forall f :: f in chain[1..] ==> f in chain;
        forall a, b | a in own && b in rest ensures !SameKey(a, b) {
          assert a.name in XmlLocal(attrs);
        }
        KeysJoin(own, rest);
      }
    }
  }

  // ----- The list the canonicalizer builds -----

  lemma BeyondApart(t: seq<Attr>, seen: set<string>, name: string)
    requires forall a :: a in t && IsXmlAttr(a) ==> a.name != name
    ensures XmlBeyond(t, seen + {name}) == XmlBeyond(t, seen)
  {
    if t != [] {
      assert t == [t[0]] + t[1..];
      BeyondApart(t[1..], seen, name);
    }
  }

  lemma {:induction false} ImportFrameLength(list: seq<Attr>, attrs: seq<Attr>)
    requires Ordered(list) && KeysOk(attrs)
    ensures |ImportFrame(list, attrs)| == |list| + |XmlBeyond(attrs, XmlKeys(list))|
    decreases attrs
  {
    hide Listed;
    if attrs != [] {
      var x, t := attrs[0], attrs[1..];
      assert attrs == [x] + t;
      assert forall i :: 0 <= i < |t| ==> t[i] == attrs[i + 1];
      ListedIff(list, x);
      if IsXmlAttr(x) {
        XmlKeyIs(x, list);
        if !Listed(list, x) {
          var list' := Insert(list, x, AttrBefore);
          InsertOrdered(list, x);
          ImportFrameLength(list', t);
          assert XmlKeys(list') == XmlKeys(list) + {x.name};
          forall a | a in t && IsXmlAttr(a) ensures a.name != x.name {
            var i :| 0 <= i < |t| && t[i] == a;
            assert !SameKey(attrs[0], attrs[i + 1]);
          }
          BeyondApart(t, XmlKeys(list), x.name);
        } else {
          ImportFrameLength(list, t);
        }
      } else {
        ImportFrameLength(list, t);
      }
    }
  }

  /** Importing from the ancestors adds the inherited attributes whose names are not in the list. */
  lemma {:induction false} ImportIs(list: seq<Attr>, chain: Chain)
    requires Ordered(list) && FramesOk(chain)
    ensures forall a :: a in ImportXml(list, chain) <==> a in list || a in Inherited(XmlKeys(list), chain)
    ensures |ImportXml(list, chain)| == |list| + |Inherited(XmlKeys(list), chain)|
    decreases chain
  {
    hide ImportFrame, XmlBeyond;
    if chain != [] {
      var attrs := chain[0].attrs;
      assert chain[0] in chain && forall f :: f in chain[1..] ==> f in chain;
      var list' := ImportFrame(list, attrs);
      ImportFrameOrdered(list, attrs);
      ImportFrameLength(list, attrs);
      BeyondMembers(attrs, XmlKeys(list));
      ImportIs(list', chain[1..]);
      forall a | IsXmlAttr(a) ensures (forall b :: b in list ==> !SameKey(b, a)) <==> a.name !in XmlKeys(list) {
        XmlKeyIs(a, list);
      }
      SeenAfter(list, attrs, list');
    }
  }

  lemma SeenAfter(list: seq<Attr>, attrs: seq<Attr>, list': seq<Attr>)
    requires forall a :: a in list' <==>
             a in list || (a in attrs && IsXmlAttr(a) && forall b :: b in list ==> !SameKey(b, a))
    ensures XmlKeys(list') == XmlKeys(list) + XmlLocal(attrs)
  {
    forall n | n in XmlLocal(attrs) ensures n in XmlKeys(list') {
      var a :| a in attrs && IsXmlAttr(a) && a.name == n;
      if a !in list' {
        var b :| b in list && SameKey(b, a);
        assert b in list';
      }
    }
    forall n | n in XmlKeys(list) ensures n in XmlKeys(list') {
      var a :| a in list && a.ns.Some? && a.ns.value.href == XML_NAMESPACE && a.name == n;
      assert a in list';
    }
    forall n | n in XmlKeys(list') ensures n in XmlKeys(list) + XmlLocal(attrs) {
      var a :| a in list' && a.ns.Some? && a.ns.value.href == XML_NAMESPACE && a.name == n;
    }
  }

  lemma {:induction false} InsertVisibleLength(list: seq<Attr>, attrs: seq<Attr>)
    ensures |InsertVisible(list, attrs)| == |list| + |ShownAttrs(attrs)|
    decreases attrs
  {
    if attrs != [] {
      InsertVisibleLength(if attrs[0].visible then Insert(list, attrs[0], AttrBefore) else list, attrs[1..]);
    }
  }

  // ----- Comparing the two -----

  lemma {:induction false} AgainAppend(l: seq<Attr>, m: seq<Attr>, names: set<string>)
    ensures Again(l + m, names) == Again(l, names) + Again(m, names)
  {
    if l == [] {
      assert l + m == m;
    } else {
      hide Again;
      var first := if l[0].name in names then [l[0]] else [];
      assert (l + m)[1..] == l[1..] + m;
      AgainStep(l, names);
      AgainStep(l + m, names);
      AgainAppend(l[1..], m, names);
      assert (first + Again(l[1..], names)) + Again(m, names) == first + (Again(l[1..], names) + Again(m, names));
    }
  }

  lemma AgainStep(l: seq<Attr>, names: set<string>)
    requires l != []
    ensures Again(l, names) == (if l[0].name in names then [l[0]] else []) + Again(l[1..], names)
  {
  }

  lemma {:induction false} AgainMembers(l: seq<Attr>, names: set<string>)
    ensures forall a :: a in Again(l, names) <==> a in l && a.name in names
    ensures Again(l, names) == [] <==> forall a :: a in l ==> a.name !in names
  {
    if l != [] {
      assert l == [l[0]] + l[1..];
      AgainMembers(l[1..], names);
      assert l[0].name in names ==> Again(l, names)[0] == l[0];
    }
  }

  lemma {:induction false} BeyondMore(attrs: seq<Attr>, seen: set<string>, names: set<string>)
    ensures |XmlBeyond(attrs, seen)| == |XmlBeyond(attrs, seen + names)| + |Again(XmlBeyond(attrs, seen), names)|
  {
    if attrs != [] {
      BeyondMore(attrs[1..], seen, names);
      var first := if IsXmlAttr(attrs[0]) && attrs[0].name !in seen then [attrs[0]] else [];
      AgainAppend(first, XmlBeyond(attrs[1..], seen), names);
      assert first != [] ==> first[1..] == [];
    }
  }

  lemma {:induction false} InheritedMore(seen: set<string>, names: set<string>, chain: Chain)
    ensures |Inherited(seen, chain)| == |Inherited(seen + names, chain)| + |Again(Inherited(seen, chain), names)|
    ensures forall a :: a in Inherited(seen + names, chain) <==> a in Inherited(seen, chain) && a.name !in names
    decreases chain
  {
    hide XmlBeyond, Again;
    if chain == [] {
      AgainMembers([], names);
    } else {
      var attrs := chain[0].attrs;
      var seen' := seen + XmlLocal(attrs);
      BeyondMore(attrs, seen, names);
      BeyondMembers(attrs, seen);
      BeyondMembers(attrs, seen + names);
      InheritedMore(seen', names, chain[1..]);
      assert seen + names + XmlLocal(attrs) == seen' + names;
      AgainAppend(XmlBeyond(attrs, seen), Inherited(seen', chain[1..]), names);
    }
  }

  lemma KeyTotal(s: set<Attr>)
    requires forall a :: a in s ==> KeyOk(a)
    requires forall a, b :: a in s && b in s && a != b ==> !SameKey(a, b)
    ensures StrictTotalOn(s, KeyLess)
  {
    hide KeyLess, AttrsCompare;
    AttributesTotal(s);
    forall a, b | a in s && b in s ensures KeyLess(a, b) <==> AttrBefore(a, b) { SameOrder(a, b); }
  }

  /** Sorting attributes by the order of section 2.2. */
  lemma SortedByKey(xs: seq<Attr>)
    requires KeysOk(xs)
    ensures var l := InsertAll([], xs, KeyLess);
            Ordered(l) && |l| == |xs| && forall a :: a in l <==> a in xs
  {
    hide KeyLess, SameKey, AttrsCompare;
    var s := set x | x in xs;
    forall a, b | a in s && b in s && a != b ensures !SameKey(a, b) { ApartInside(xs, a, b); }
    KeyTotal(s);
    forall i, j | 0 <= i < j < |xs| ensures xs[i] != xs[j] { SameWithItself(xs[i]); }
    InsertAllSorted([], xs, s, KeyLess);
    InsertAllLength([], xs);
    var l := InsertAll([], xs, KeyLess);
    forall i, j | 0 <= i < j < |l| ensures AttrBefore(l[i], l[j]) {
      assert l[i] in l && l[j] in l;
      SameOrder(l[i], l[j]);
    }
  }

  lemma SameWithItself(a: Attr)
    ensures SameKey(a, a)
  {
  }

  lemma ApartInside(xs: seq<Attr>, a: Attr, b: Attr)
    requires KeysOk(xs) && a in xs && b in xs && a != b
    ensures !SameKey(a, b)
  {
    var i :| 0 <= i < |xs| && xs[i] == a;
    var j :| 0 <= j < |xs| && xs[j] == b;
    assert i < j || j < i;
  }

  lemma {:induction false} InsertAllLength(l: seq<Attr>, xs: seq<Attr>)
    ensures |InsertAll(l, xs, KeyLess)| == |l| + |xs|
    decreases xs
  {
    hide KeyLess;
    if xs != [] { InsertAllLength(Insert(l, xs[0], KeyLess), xs[1..]); }
  }

  lemma ShownKeys(attrs: seq<Attr>)
    requires KeysOk(attrs)
    ensures XmlKeys(InsertVisible([], attrs)) == XmlKeys(ShownAttrs(attrs))
    ensures XmlKeys(ShownAttrs(attrs)) + XmlKeys(attrs) == XmlKeys(attrs)
  {
    VisibleOrdered([], attrs);
    ShownAttrsMembers(attrs);
    assert forall a :: a in InsertVisible([], attrs) <==> a in ShownAttrs(attrs);
  }

  lemma RecommendedMembersOf(cfg: Config, attrs: seq<Attr>, parents: Chain, visible: bool)
    requires KeysOk(attrs) && FramesOk(parents)
    ensures var more := if TakesOver(cfg, parents, visible) then Inherited(XmlKeys(attrs), parents) else [];
            var l := RecommendedAttrs(cfg, attrs, parents, visible);
            Ordered(l) && |l| == |ShownAttrs(attrs)| + |more|
              && forall a :: a in l <==> a in ShownAttrs(attrs) || a in more
  {
    hide Inherited, ShownAttrs, TakesOver;
    var more := if TakesOver(cfg, parents, visible) then Inherited(XmlKeys(attrs), parents) else [];
    ShownAttrsMembers(attrs);
    InheritedNames(XmlKeys(attrs), parents);
    forall a, b | a in ShownAttrs(attrs) && b in more ensures !SameKey(a, b) {
      assert a in attrs;
      assert a.ns.Some? && a.ns.value.href == XML_NAMESPACE ==> a.name in XmlKeys(attrs);
    }
    KeysJoin(ShownAttrs(attrs), more);
    SortedByKey(ShownAttrs(attrs) + more);
  }

  /**
    The written attributes are those of the rule and the returned ones: the lengths tell how many
    are too many, and when none is, the two lists are the same.
   */
  lemma AttrsCompared(cfg: Config, attrs: seq<Attr>, parents: Chain, visible: bool)
    requires KeysOk(attrs) && FramesOk(parents)
    ensures var l, r := AttrsAxis(cfg, attrs, parents, visible), RecommendedAttrs(cfg, attrs, parents, visible);
            && |l| == |r| + |Returned(cfg, attrs, parents, visible)|
            && (Returned(cfg, attrs, parents, visible) == [] ==> l == r)
  {
    hide Inherited, ShownAttrs, InsertVisible, RecommendedAttrs, ImportXml, Again;
    VisibleOrdered([], attrs);
    ShownAttrsMembers(attrs);
    InsertVisibleLength([], attrs);
    ShownKeys(attrs);
    ImportIs(InsertVisible([], attrs), parents);
    InheritedMore(XmlKeys(ShownAttrs(attrs)), XmlKeys(attrs), parents);
    AgainMembers(Inherited(XmlKeys(ShownAttrs(attrs)), parents), XmlKeys(attrs));
    AttrsAxisOrdered(cfg, attrs, parents, visible);
    RecommendedMembersOf(cfg, attrs, parents, visible);
    if Returned(cfg, attrs, parents, visible) == [] {
      OrderedUnique(AttrsAxis(cfg, attrs, parents, visible), RecommendedAttrs(cfg, attrs, parents, visible));
    }
  }

  /** An attribute in the xml namespace that is not shown. */
  predicate HiddenXml(a: Attr) {
    !a.visible && a.ns.Some? && a.ns.value.href == XML_NAMESPACE
  }

  /**
    Attributes return exactly when an element of the output, whose parent is omitted, hides an
    attribute in the xml namespace that some ancestor has too.
   */
  lemma ReturnedIff(cfg: Config, attrs: seq<Attr>, parents: Chain, visible: bool)
    requires KeysOk(attrs)
    ensures Returned(cfg, attrs, parents, visible) != [] <==>
            TakesOver(cfg, parents, visible)
            && exists h :: h in attrs && HiddenXml(h) && h.name in AllLocal(parents)
  {
    hide Inherited, ShownAttrs, Again, AllLocal;
    var shown := ShownAttrs(attrs);
    ShownAttrsMembers(attrs);
    InheritedNames(XmlKeys(shown), parents);
    AgainMembers(Inherited(XmlKeys(shown), parents), XmlKeys(attrs));
    forall h | h in attrs && HiddenXml(h)
      ensures h.name in XmlKeys(attrs) && h.name !in XmlKeys(shown)
    {
      if b :| b in shown && b.ns.Some? && b.ns.value.href == XML_NAMESPACE && b.name == h.name {
        ApartInside(attrs, b, h);
      }
    }
  }

  // ----- The rule for comments and processing instructions -----

  /** Where the siblings after a node stand: before, inside or after the document element. */
  function NextPlace(place: Position, n: Node): Position {
    if place == Before && n.Element? then After else place
  }

  /** What is written for a node that is no element and stands at `place`. */
  function RecommendedLeaf(cfg: Config, n: Node, place: Position): seq<Token> {
    match n
    case Text(content, visible) => if visible then [Chars(content)] else []
    case Comment(content, visible) =>
      if visible && cfg.withComments then [CommentTok(place == After, content, place == Before)] else []
    case PI(target, content, visible) =>
      if visible then [PITok(place == After, target, content, place == Before)] else []
    case _ => []
  }

  /** Some element of the subtree is shown. */
  predicate Shows(n: Node) {
    n.Element? && (n.visible || ShowsIn(n.children))
  }

  predicate ShowsIn(l: NodeList) {
    l.Cons? && (Shows(l.head) || ShowsIn(l.tail))
  }

  /** Where the canonicalizer takes a node outside every shown element to stand. */
  function TakenPlace(shown: bool): Position {
    if shown then After else Before
  }

  /**
    A comment or processing instruction outside every shown element is written for another place
    than its own; `shown` says that some element was shown before.
   */
  predicate Misplaced(cfg: Config, n: Node, place: Position, shown: bool)
    decreases n
  {
    match n
    case Element(_, _, _, _, children, visible, _) => !visible && MisplacedIn(cfg, children, Inside, shown)
    case Comment(_, visible) => visible && cfg.withComments && place != TakenPlace(shown)
    case PI(_, _, visible) => visible && place != TakenPlace(shown)
    case _ => false
  }

  predicate MisplacedIn(cfg: Config, l: NodeList, place: Position, shown: bool)
    decreases l
  {
    l.Cons? && (Misplaced(cfg, l.head, place, shown)
                || MisplacedIn(cfg, l.tail, NextPlace(place, l.head), shown || Shows(l.head)))
  }

  /** How the position the canonicalizer keeps is related to the place of a node. */
  predicate Placed(pos: Position, atDoc: bool, place: Position, shown: bool) {
    if atDoc then pos == TakenPlace(shown) else pos == Inside && place == Inside
  }

  /** The position after a node: it changes only when an element outside all shown ones is shown. */
  lemma {:induction false} PosAfter(cfg: Config, n: Node, chain: Chain, st: Stack, pos: Position, atDoc: bool)
    requires WindowOk(st)
    ensures Canon(cfg, n, chain, st, pos, atDoc).pos == if atDoc && Shows(n) then After else pos
    decreases n
  {
    hide NamespaceAxis, AttrsAxis, CanonList, ShowsIn, DeclTokens, AttrTokens;
    if n.Element? {
      var chain' := [FrameOf(n)] + chain;
      PosAfterList(cfg, n.children, chain', StackBelow(cfg, st, chain', n), if n.visible && atDoc then Inside else pos,
                   atDoc && !n.visible);
    }
  }

  lemma {:induction false} PosAfterList(cfg: Config, l: NodeList, chain: Chain, st: Stack, pos: Position, atDoc: bool)
    requires WindowOk(st)
    ensures CanonList(cfg, l, chain, st, pos, atDoc).pos == if atDoc && ShowsIn(l) then After else pos
    decreases l
  {
    hide Canon, Shows;
    if l.Cons? {
      PosAfter(cfg, l.head, chain, st, pos, atDoc);
      PosAfterList(cfg, l.tail, chain, st, Canon(cfg, l.head, chain, st, pos, atDoc).pos, atDoc);
    }
  }

  /** A node that is no element is written as the rule says exactly if it is not misplaced. */
  lemma LeafCompared(cfg: Config, n: Node, chain: Chain, st: Stack, pos: Position, atDoc: bool, place: Position,
                     shown: bool)
    requires !n.Element? && WindowOk(st) && Placed(pos, atDoc, place, shown)
    ensures var c, r := Canon(cfg, n, chain, st, pos, atDoc).tokens, RecommendedLeaf(cfg, n, place);
            && |c| == |r|
            && (c == r <==> !(atDoc && Misplaced(cfg, n, place, shown)))
  {
    var c, r := Canon(cfg, n, chain, st, pos, atDoc).tokens, RecommendedLeaf(cfg, n, place);
    assert c != [] ==> c == [c[0]] && r == [r[0]];
  }

  // ----- Documents -----

  /** No element has two attributes with one name. */
  ghost predicate UniqueAttrs(n: Node) {
    n.Element? ==> KeysOk(n.attrs) && UniqueAttrsIn(n.children)
  }

  ghost predicate UniqueAttrsIn(l: NodeList) {
    l.Cons? ==> UniqueAttrs(l.head) && UniqueAttrsIn(l.tail)
  }

  /** How many attributes are returned in a document. */
  function ReturnedCount(cfg: Config, n: Node, chain: Chain): nat
    decreases n
  {
    if !n.Element? then 0
    else |Returned(cfg, n.attrs, chain, n.visible)| + ReturnedIn(cfg, n.children, [FrameOf(n)] + chain)
  }

  function ReturnedIn(cfg: Config, l: NodeList, chain: Chain): nat
    decreases l
  {
    if l.Nil? then 0 else ReturnedCount(cfg, l.head, chain) + ReturnedIn(cfg, l.tail, chain)
  }
}
