/**
  Inclusive canonical form against Canonical XML 1.0 as a whole: declarations, attributes, and
  the line feeds around comments and processing instructions. The rule uses no function of the
  canonicalizer; where the two part is counted and decided on the source document.
 */
module C14nConformance {
  import opened C14nTree
  import opened C14nSpec
  import opened C14nTokens
  import opened C14nRecommendation
  import opened C14nAttributes
  import opened C14nRules

  // ----- The rule -----

  /**
    Canonical form by the Recommendation: `prev` is the axis of the nearest output ancestor,
    `place` where the node stands.
   */
  function Recommended(cfg: Config, n: Node, chain: Chain, prev: seq<Ns>, place: Position): seq<Token>
    decreases n
  {
    if !n.Element? then RecommendedLeaf(cfg, n, place)
    else
      var chain' := [FrameOf(n)] + chain;
      var axis := Axis(chain', n.hidden);
      ElementTokens(n, RecommendedDecls(prev, axis, n.visible), RecommendedAttrs(cfg, n.attrs, chain, n.visible),
                    RecommendedList(cfg, n.children, chain', if n.visible then axis else prev, Inside))
  }

  function RecommendedList(cfg: Config, l: NodeList, chain: Chain, prev: seq<Ns>, place: Position): seq<Token>
    decreases l
  {
    match l
    case Nil => []
    case Cons(n, tail) =>
      Recommended(cfg, n, chain, prev, place) + RecommendedList(cfg, tail, chain, prev, NextPlace(place, n))
  }

  function RecommendedDocument(cfg: Config, doc: NodeList): seq<Token> {
    RecommendedList(cfg, doc, [], [], Before)
  }

  // ----- Attributes and line feeds -----

  /** Two runs of tokens differ by so many tokens, and if by none, they are the same unless something is misplaced. */
  ghost predicate Compared(s: seq<Token>, r: seq<Token>, extra: nat, misplaced: bool) {
    |s| == |r| + extra && (extra == 0 ==> (s == r <==> !misplaced))
  }

  lemma {:induction false} StacklessPos(cfg: Config, n: Node, chain: Chain, prev: seq<Ns>, pos: Position, atDoc: bool)
    ensures Stackless(cfg, n, chain, prev, pos, atDoc).pos == if atDoc && Shows(n) then After else pos
    decreases n
  {
    hide Axis, RecommendedDecls, AttrsAxis, StacklessList, ShowsIn, DeclTokens, AttrTokens;
    if n.Element? {
      var chain' := [FrameOf(n)] + chain;
      StacklessListPos(cfg, n.children, chain', if n.visible then Axis(chain', n.hidden) else prev,
                       if n.visible && atDoc then Inside else pos, atDoc && !n.visible);
    }
  }

  lemma {:induction false} StacklessListPos(cfg: Config, l: NodeList, chain: Chain, prev: seq<Ns>, pos: Position,
                                            atDoc: bool)
    ensures StacklessList(cfg, l, chain, prev, pos, atDoc).pos == if atDoc && ShowsIn(l) then After else pos
    decreases l
  {
    hide Stackless, Shows;
    if l.Cons? {
      StacklessPos(cfg, l.head, chain, prev, pos, atDoc);
      StacklessListPos(cfg, l.tail, chain, prev, Stackless(cfg, l.head, chain, prev, pos, atDoc).pos, atDoc);
    }
  }

  lemma AttrTokensLength(l: seq<Attr>)
    ensures |AttrTokens(l)| == |l|
  {
  }

  /** An element, given how its content compares. */
  lemma ElementCompared(n: Node, decls: seq<Ns>, l: seq<Attr>, m: seq<Attr>, s: seq<Token>, r: seq<Token>, own: nat,
                        below: nat, misplaced: bool)
    requires n.Element? && |l| == |m| + own && (own == 0 ==> l == m) && Compared(s, r, below, misplaced)
    ensures Compared(ElementTokens(n, decls, l, s), ElementTokens(n, decls, m, r), own + below, misplaced)
  {
    hide DeclTokens, AttrTokens;
    AttrTokensLength(l);
    AttrTokensLength(m);
    if own + below == 0 {
      var x, y := ElementTokens(n, decls, l, s), ElementTokens(n, decls, l, r);
      if x == y {
        assert x + [] == y + [];
        ElementApart(n, decls, decls, l, s, r, [], []);
        SameFront(s, r, Optional(n.visible, Close(NsPrefix(n.ns), n.name)));
      }
    }
  }

  lemma SameFront(s: seq<Token>, r: seq<Token>, close: seq<Token>)
    requires |s| == |r| && s + (close + []) == r + (close + [])
    ensures s == r
  {
    assert (s + (close + []))[..|s|] == s && (r + (close + []))[..|r|] == r;
  }

  lemma JoinCompared(a: seq<Token>, b: seq<Token>, x: seq<Token>, y: seq<Token>, k: nat, m: nat, p: bool, q: bool)
    requires Compared(a, x, k, p) && Compared(b, y, m, q)
    ensures Compared(a + b, x + y, k + m, p || q)
  {
    if k + m == 0 && a + b == x + y {
      assert (a + b)[..|a|] == a && (x + y)[..|x|] == x && (a + b)[|a|..] == b && (x + y)[|x|..] == y;
    }
  }

  lemma {:induction false} NodeCompared(cfg: Config, n: Node, chain: Chain, prev: seq<Ns>, pos: Position, atDoc: bool,
                                        place: Position, shown: bool)
    requires UniqueAttrs(n) && FramesOk(chain) && Placed(pos, atDoc, place, shown)
    ensures Compared(Stackless(cfg, n, chain, prev, pos, atDoc).tokens, Recommended(cfg, n, chain, prev, place),
                     ReturnedCount(cfg, n, chain), atDoc && Misplaced(cfg, n, place, shown))
    decreases n
  {
    hide Axis, RecommendedDecls, RecommendedAttrs, AttrsAxis, Returned, StacklessList, RecommendedList, ReturnedIn,
         MisplacedIn, ElementTokens, Compared;
    if n.Element? {
      var chain' := [FrameOf(n)] + chain;
      var axis := Axis(chain', n.hidden);
      var prev1 := if n.visible then axis else prev;
      var pos1, atDoc1 := if n.visible && atDoc then Inside else pos, atDoc && !n.visible;
      ListCompared(cfg, n.children, chain', prev1, pos1, atDoc1, Inside, shown);
      AttrsCompared(cfg, n.attrs, chain, n.visible);
      StacklessElement(cfg, n, chain, prev, pos, atDoc);
      ElementCompared(n, RecommendedDecls(prev, axis, n.visible), AttrsAxis(cfg, n.attrs, chain, n.visible),
                      RecommendedAttrs(cfg, n.attrs, chain, n.visible),
                      StacklessList(cfg, n.children, chain', prev1, pos1, atDoc1).tokens,
                      RecommendedList(cfg, n.children, chain', prev1, Inside),
                      |Returned(cfg, n.attrs, chain, n.visible)|, ReturnedIn(cfg, n.children, chain'),
                      atDoc1 && MisplacedIn(cfg, n.children, Inside, shown));
    } else {
      LeafCompared(cfg, n, chain, EMPTY_STACK, pos, atDoc, place, shown);
      LeafAlone(cfg, n, chain, prev, pos, atDoc, place, shown);
    }
  }

  lemma LeafAlone(cfg: Config, n: Node, chain: Chain, prev: seq<Ns>, pos: Position, atDoc: bool, place: Position,
                  shown: bool)
    requires !n.Element?
    requires var c, r := Canon(cfg, n, chain, EMPTY_STACK, pos, atDoc).tokens, RecommendedLeaf(cfg, n, place);
             |c| == |r| && (c == r <==> !(atDoc && Misplaced(cfg, n, place, shown)))
    ensures Compared(Stackless(cfg, n, chain, prev, pos, atDoc).tokens, Recommended(cfg, n, chain, prev, place),
                     ReturnedCount(cfg, n, chain), atDoc && Misplaced(cfg, n, place, shown))
  {
    hide RecommendedLeaf, Misplaced;
  }

  lemma {:induction false} ListCompared(cfg: Config, l: NodeList, chain: Chain, prev: seq<Ns>, pos: Position,
                                        atDoc: bool,
                                        place: Position, shown: bool)
    requires UniqueAttrsIn(l) && FramesOk(chain) && Placed(pos, atDoc, place, shown)
    ensures Compared(StacklessList(cfg, l, chain, prev, pos, atDoc).tokens, RecommendedList(cfg, l, chain, prev, place),
                     ReturnedIn(cfg, l, chain), atDoc && MisplacedIn(cfg, l, place, shown))
    decreases l
  {
    hide Stackless, Recommended, ReturnedCount, Misplaced, Shows, UniqueAttrs;
    if l.Cons? {
      var first := Stackless(cfg, l.head, chain, prev, pos, atDoc);
      var place', shown' := NextPlace(place, l.head), shown || Shows(l.head);
      NodeCompared(cfg, l.head, chain, prev, pos, atDoc, place, shown);
      StacklessPos(cfg, l.head, chain, prev, pos, atDoc);
      ListCompared(cfg, l.tail, chain, prev, first.pos, atDoc, place', shown');
      JoinCompared(first.tokens, StacklessList(cfg, l.tail, chain, prev, first.pos, atDoc).tokens,
                   Recommended(cfg, l.head, chain, prev, place), RecommendedList(cfg, l.tail, chain, prev, place'),
                   ReturnedCount(cfg, l.head, chain), ReturnedIn(cfg, l.tail, chain),
                   atDoc && Misplaced(cfg, l.head, place, shown), atDoc && MisplacedIn(cfg, l.tail, place', shown'));
    }
  }

  // ----- The exact condition -----

  /**
    For every document without repeated attribute names, every choice of visible nodes,
    attributes and namespace nodes: inclusive canonical form has as many tokens more than the
    Recommendation asks for as there are superfluous xmlns="" and returned attributes, and it is
    what the Recommendation asks for if and only if there are none of them and no comment or
    processing instruction outside the shown elements is misplaced.
   */
  lemma FollowsRecommendationIff(cfg: Config, doc: NodeList)
    requires !cfg.exclusive && UniqueAttrsIn(doc)
    ensures var c, r := CanonDocument(cfg, doc), RecommendedDocument(cfg, doc);
            && |c| == |r| + ExtraOfList(doc, [], [], "") + ReturnedIn(cfg, doc, [])
            && (c == r <==>
                  && ExtraOfList(doc, [], [], "") == 0
                  && ReturnedIn(cfg, doc, []) == 0
                  && !MisplacedIn(cfg, doc, Before, false))
  {
    hide StacklessList, RecommendedList, CanonList, ExtraOfList, ReturnedIn, MisplacedIn, UniqueAttrsIn;
    DeclarationsIff(cfg, doc);
    ListCompared(cfg, doc, [], [], Before, true, Before, false);
  }

  // ----- Documents made of whole elements -----

  /** Attributes are shown with their elements. */
  ghost predicate AttrsWhole(n: Node) {
    n.Element? ==> (n.visible ==> forall a :: a in n.attrs ==> a.visible) && AttrsWholeIn(n.children)
  }

  ghost predicate AttrsWholeIn(l: NodeList) {
    l.Cons? ==> AttrsWhole(l.head) && AttrsWholeIn(l.tail)
  }

  lemma {:induction false} NothingReturned(cfg: Config, n: Node, chain: Chain)
    requires UniqueAttrs(n) && AttrsWhole(n)
    ensures ReturnedCount(cfg, n, chain) == 0
    decreases n
  {
    hide Returned, ReturnedIn, AllLocal;
    if n.Element? {
      ReturnedIff(cfg, n.attrs, chain, n.visible);
      NothingReturnedIn(cfg, n.children, [FrameOf(n)] + chain);
    }
  }

  lemma {:induction false} NothingReturnedIn(cfg: Config, l: NodeList, chain: Chain)
    requires UniqueAttrsIn(l) && AttrsWholeIn(l)
    ensures ReturnedIn(cfg, l, chain) == 0
    decreases l
  {
    hide ReturnedCount, UniqueAttrs, AttrsWhole;
    if l.Cons? {
      NothingReturned(cfg, l.head, chain);
      NothingReturnedIn(cfg, l.tail, chain);
    }
  }

  /** Where every element outside all others is shown, nothing is misplaced. */
  ghost predicate RootsShown(l: NodeList) {
    l.Cons? ==> (l.head.Element? ==> l.head.visible) && RootsShown(l.tail)
  }

  lemma {:induction false} NothingMisplaced(cfg: Config, l: NodeList, place: Position)
    requires RootsShown(l) && place != Inside
    ensures !MisplacedIn(cfg, l, place, place == After)
    decreases l
  {
    if l.Cons? {
      NothingMisplaced(cfg, l.tail, NextPlace(place, l.head));
    }
  }

  /**
    When attributes and namespace nodes are shown exactly with their elements and the document
    element is shown, inclusive canonical form is what the Recommendation asks for, whatever else
    is shown.
   */
  lemma FollowsRecommendation(cfg: Config, doc: NodeList)
    requires !cfg.exclusive && UniqueAttrsIn(doc) && ElementwiseList(doc, []) && AttrsWholeIn(doc) && RootsShown(doc)
    ensures CanonDocument(cfg, doc) == RecommendedDocument(cfg, doc)
  {
    hide CanonDocument, RecommendedDocument, MisplacedIn, ReturnedIn, ElementwiseList, UniqueAttrsIn, AttrsWholeIn,
         RootsShown;
    NothingSuperfluous(cfg, doc);
    NothingReturnedIn(cfg, doc, []);
    NothingMisplaced(cfg, doc, Before);
    FollowsRecommendationIff(cfg, doc);
  }
}
