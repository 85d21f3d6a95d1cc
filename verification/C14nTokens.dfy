/**
  Canonical form and a rule for it, compared token by token: if two runs of tokens differ in the
  declarations of one element, no continuation makes up for it. That is what turns a condition
  on each element into an exact condition on the document.
 */
module C14nTokens {
  import opened C14nTree
  import opened C14nSpec

  lemma Cancel<T>(a: seq<T>, x: seq<T>, y: seq<T>)
    requires a + x == a + y
    ensures x == y
  {
    assert (a + x)[|a|..] == x && (a + y)[|a|..] == y;
  }

  lemma Assoc<T>(a: seq<T>, b: seq<T>, c: seq<T>)
    ensures (a + b) + c == a + (b + c)
  {
  }

  /** Two start tags that differ in their declarations differ, whatever follows. */
  lemma {:induction false} DeclsApart(l: seq<Ns>, m: seq<Ns>, x: seq<Token>, y: seq<Token>)
    requires x != [] && y != [] && !x[0].Decl? && !y[0].Decl? && DeclTokens(l) + x == DeclTokens(m) + y
    ensures l == m && x == y
  {
    var s, t := DeclTokens(l) + x, DeclTokens(m) + y;
    assert s[0] == if l == [] then x[0] else Decl(l[0]);
    assert t[0] == if m == [] then y[0] else Decl(m[0]);
    if l == [] {
      assert s == x && t == y;
    } else {
      assert s[1..] == DeclTokens(l[1..]) + x && t[1..] == DeclTokens(m[1..]) + y;
      DeclsApart(l[1..], m[1..], x, y);
      assert l == [l[0]] + l[1..] && m == [m[0]] + m[1..];
    }
  }

  /** The tokens of an element, around its declarations and its content. */
  function ElementTokens(n: Node, decls: seq<Ns>, attrs: seq<Attr>, body: seq<Token>): seq<Token>
    requires n.Element?
  {
    Optional(n.visible, Open(NsPrefix(n.ns), n.name)) + DeclTokens(decls) + AttrTokens(attrs) + Optional(n.visible, Gt)
    + body + Optional(n.visible, Close(NsPrefix(n.ns), n.name))
  }

  /** An element of the canonical form, taken apart. */
  lemma CanonElement(cfg: Config, n: Node, chain: Chain, st: Stack, pos: Position, atDoc: bool)
    requires n.Element? && WindowOk(st)
    ensures var chain' := [FrameOf(n)] + chain;
            var body := CanonList(cfg, n.children, chain', StackBelow(cfg, st, chain', n),
                                  if n.visible && atDoc then Inside else pos, atDoc && !n.visible);
            Canon(cfg, n, chain, st, pos, atDoc) ==
            Out(ElementTokens(n, NamespaceAxis(cfg, st, chain', n).list, AttrsAxis(cfg, n.attrs, chain, n.visible),
                              body.tokens),
                if n.visible && atDoc then After else body.pos)
  {
    hide NamespaceAxis, AttrsAxis, CanonList, DeclTokens, AttrTokens;
    var chain' := [FrameOf(n)] + chain;
    assert chain'[1..] == chain;
  }

  /** What follows the declarations of an element: `x` is everything after its start tag. */
  function AfterDecls(n: Node, attrs: seq<Attr>, x: seq<Token>): seq<Token>
    requires n.Element?
  {
    AttrTokens(attrs) + (Optional(n.visible, Gt) + x)
  }

  lemma Regroup(n: Node, decls: seq<Ns>, attrs: seq<Attr>, body: seq<Token>, t: seq<Token>)
    requires n.Element?
    ensures ElementTokens(n, decls, attrs, body) + t ==
            Optional(n.visible, Open(NsPrefix(n.ns), n.name))
            + (DeclTokens(decls) + AfterDecls(n, attrs,
                                              body + (Optional(n.visible, Close(NsPrefix(n.ns), n.name)) + t)))
  {
    hide DeclTokens, AttrTokens, Optional;
    var o, g, c := Optional(n.visible, Open(NsPrefix(n.ns), n.name)), Optional(n.visible, Gt),
        Optional(n.visible, Close(NsPrefix(n.ns), n.name));
    var d, a := DeclTokens(decls), AttrTokens(attrs);
    Assoc(o + d + a + g + body, c, t);
    Assoc(o + d + a + g, body, c + t);
    Assoc(o + d + a, g, body + (c + t));
    Assoc(o + d, a, g + (body + (c + t)));
    Assoc(o, d, a + (g + (body + (c + t))));
  }

  lemma AfterDeclsHead(n: Node, attrs: seq<Attr>, x: seq<Token>)
    requires n.Element? && n.visible
    ensures AfterDecls(n, attrs, x) != [] && !AfterDecls(n, attrs, x)[0].Decl?
  {
  }

  lemma ElementApart(n: Node, l: seq<Ns>, m: seq<Ns>, attrs: seq<Attr>, b: seq<Token>, c: seq<Token>, t: seq<Token>,
                     u: seq<Token>)
    requires n.Element? && (n.visible || l == m)
    requires ElementTokens(n, l, attrs, b) + t == ElementTokens(n, m, attrs, c) + u
    ensures l == m
    ensures var close := Optional(n.visible, Close(NsPrefix(n.ns), n.name));
            b + (close + t) == c + (close + u)
  {
    hide DeclTokens, AttrTokens, AfterDecls, ElementTokens;
    var open, close := Optional(n.visible, Open(NsPrefix(n.ns), n.name)),
        Optional(n.visible, Close(NsPrefix(n.ns), n.name));
    var x, y := b + (close + t), c + (close + u);
    Regroup(n, l, attrs, b, t);
    Regroup(n, m, attrs, c, u);
    Cancel(open, DeclTokens(l) + AfterDecls(n, attrs, x), DeclTokens(m) + AfterDecls(n, attrs, y));
    if n.visible {
      AfterDeclsHead(n, attrs, x);
      AfterDeclsHead(n, attrs, y);
      DeclsApart(l, m, AfterDecls(n, attrs, x), AfterDecls(n, attrs, y));
    } else {
      Cancel(DeclTokens(l), AfterDecls(n, attrs, x), AfterDecls(n, attrs, y));
    }
    AfterDeclsApart(n, attrs, x, y);
  }

  lemma AfterDeclsApart(n: Node, attrs: seq<Attr>, x: seq<Token>, y: seq<Token>)
    requires n.Element? && AfterDecls(n, attrs, x) == AfterDecls(n, attrs, y)
    ensures x == y
  {
    hide AttrTokens, Optional;
    Cancel(AttrTokens(attrs), Optional(n.visible, Gt) + x, Optional(n.visible, Gt) + y);
    Cancel(Optional(n.visible, Gt), x, y);
  }

  /** Canonical form and rule agree on a run of nodes; if they do not, no continuation makes up for it. */
  ghost predicate Exactly(agree: bool, c: seq<Token>, r: seq<Token>, t: seq<Token>, u: seq<Token>) {
    && (agree ==> c == r)
    && (c + t == r + u ==> agree && t == u)
  }
}
