/**
  The document the canonicalizer reads, and the tokens it writes.

  A missing prefix or namespace URI (a null pointer in the library) is the empty string.
  Visibility is the answer of the is_visible callback, recorded on the node it was asked
  about; `hidden` lists the prefixes whose namespace node the callback leaves out when it is
  asked with this element as parent.
 */
module C14nTree {
  import opened Ordering

  datatype Ns = Ns(prefix: string, href: string)

  datatype Attr = Attr(ns: Option<Ns>, name: string, value: string, visible: bool)

  datatype Node =
    | Element(name: string, ns: Option<Ns>, nsDefs: seq<Ns>, attrs: seq<Attr>, children: NodeList,
              visible: bool, hidden: set<string>)
    | Text(content: string, visible: bool)
    | Comment(content: string, visible: bool)
    | PI(target: string, content: string, visible: bool)
    | Declaration   // document type, element, attribute, entity and notation declarations
    | Unexpected    // entity references and other nodes that end the run with an error

  /** The sibling chain of a node: `next` pointers. */
  datatype NodeList = Nil | Cons(head: Node, tail: NodeList)

  /** What an element contributes to its descendants; a chain lists frames innermost first. */
  datatype Frame = Frame(nsDefs: seq<Ns>, attrs: seq<Attr>, visible: bool)
  type Chain = seq<Frame>

  datatype Token =
    | Open(prefix: string, name: string)
    | Decl(ns: Ns)
    | Attribute(prefix: string, name: string, value: string)
    | Gt
    | Chars(content: string)
    | CommentTok(before: bool, content: string, after: bool)
    | PITok(before: bool, target: string, content: string, after: bool)
    | Close(prefix: string, name: string)

  const XML_NAMESPACE := "http://www.w3.org/XML/1998/namespace"
  const DEFAULT_UNDECLARED := Ns("", "")

  /** xmlC14NIsXmlNs */
  predicate IsXmlNs(ns: Ns) {
    ns.prefix == "xml" && ns.href == XML_NAMESPACE
  }

  // ----- Namespace lookup (xmlSearchNs) -----

  /** The first declaration of prefix `p` in one element, or the number of declarations. */
  function DefIndex(defs: seq<Ns>, p: string): (k: nat)
    ensures k <= |defs|
    ensures k < |defs| ==> defs[k].prefix == p
    ensures forall i :: 0 <= i < k ==> defs[i].prefix != p
  {
    if defs == [] || defs[0].prefix == p then 0 else 1 + DefIndex(defs[1..], p)
  }

  /** The place (ancestor level, position) of the nearest declaration of a prefix. */
  function SearchPos(chain: Chain, p: string): (r: Option<(nat, nat)>)
    ensures r.Some? ==> r.value.0 < |chain| && r.value.1 < |chain[r.value.0].nsDefs|
                        && chain[r.value.0].nsDefs[r.value.1].prefix == p
  {
    if chain == [] then None
    else
      var k := DefIndex(chain[0].nsDefs, p);
      if k < |chain[0].nsDefs| then Some((0, k))
      else
        match SearchPos(chain[1..], p)
        case None => None
        case Some(pos) => Some((pos.0 + 1, pos.1))
  }

  /** The nearest declaration of a prefix; the prefix xml is held by the document. */
  function Search(chain: Chain, p: string): (r: Option<Ns>)
    ensures r.Some? ==> r.value.prefix == p
  {
    if p == "xml" then Some(Ns("xml", XML_NAMESPACE))
    else
      match SearchPos(chain, p)
      case None => None
      case Some(pos) => Some(chain[pos.0].nsDefs[pos.1])
  }

  lemma SearchStep(frame: Frame, chain: Chain, p: string)
    ensures Search([frame] + chain, p) ==
            if p == "xml" then Some(Ns("xml", XML_NAMESPACE))
            else
              var k := DefIndex(frame.nsDefs, p);
              if k < |frame.nsDefs| then Some(frame.nsDefs[k]) else Search(chain, p)
  {
    assert ([frame] + chain)[1..] == chain;
  }

  // ----- The namespace axis: every declaration not shadowed by a nearer one -----

  function Prefixes(defs: seq<Ns>): set<string> {
    set d | d in defs :: d.prefix
  }

  function Unshadowed(defs: seq<Ns>, seen: set<string>): seq<Ns> {
    if defs == [] then []
    else if defs[0].prefix in seen then Unshadowed(defs[1..], seen)
    else [defs[0]] + Unshadowed(defs[1..], seen + {defs[0].prefix})
  }

  function InScope(chain: Chain, seen: set<string>): seq<Ns> {
    if chain == [] then []
    else Unshadowed(chain[0].nsDefs, seen) + InScope(chain[1..], seen + Prefixes(chain[0].nsDefs))
  }

  /** The namespace nodes of an element that are to be looked at: not xml, not hidden. */
  function Shown(axis: seq<Ns>, hidden: set<string>): seq<Ns> {
    if axis == [] then []
    else (if axis[0].prefix == "xml" || axis[0].prefix in hidden then [] else [axis[0]]) + Shown(axis[1..], hidden)
  }

  function Axis(chain: Chain, hidden: set<string>): seq<Ns> {
    Shown(InScope(chain, {}), hidden)
  }

  ghost predicate DistinctPrefixes(l: seq<Ns>) {
    forall i, j :: 0 <= i < j < |l| ==> l[i].prefix != l[j].prefix
  }

  lemma {:induction false} UnshadowedMembers(defs: seq<Ns>, seen: set<string>)
    ensures DistinctPrefixes(Unshadowed(defs, seen))
    ensures forall ns :: ns in Unshadowed(defs, seen) <==>
              ns.prefix !in seen && DefIndex(defs, ns.prefix) < |defs| && defs[DefIndex(defs, ns.prefix)] == ns
  {
    if defs != [] {
      var t := defs[1..];
      var seen' := if defs[0].prefix in seen then seen else seen + {defs[0].prefix};
      UnshadowedMembers(t, seen');
      var u, u' := Unshadowed(defs, seen), Unshadowed(t, seen');
      forall ns: Ns
        ensures ns in u <==>
                ns.prefix !in seen && DefIndex(defs, ns.prefix) < |defs| && defs[DefIndex(defs, ns.prefix)] == ns
      {
        if ns.prefix == defs[0].prefix {
          assert ns in u <==> ns.prefix !in seen && (ns == defs[0] || ns in u');
        } else {
          assert ns in u <==> ns in u';
          assert DefIndex(defs, ns.prefix) == 1 + DefIndex(t, ns.prefix);
        }
      }
      if defs[0].prefix !in seen {
        forall i, j | 0 <= i < j < |u| ensures u[i].prefix != u[j].prefix {
          assert u[j] == u'[j - 1] && u[j] in u';
          if i > 0 { assert u[i] == u'[i - 1]; }
        }
      }
    }
  }

  /** The axis holds, for each prefix not seen before, exactly its nearest declaration. */
  lemma {:induction false} InScopeMembers(chain: Chain, seen: set<string>)
    ensures DistinctPrefixes(InScope(chain, seen))
    ensures forall ns :: ns in InScope(chain, seen) <==>
              ns.prefix !in seen && SearchPos(chain, ns.prefix).Some?
              && (var pos := SearchPos(chain, ns.prefix).value; chain[pos.0].nsDefs[pos.1] == ns)
  {
    if chain != [] {
      var defs := chain[0].nsDefs;
      var seen' := seen + Prefixes(defs);
      UnshadowedMembers(defs, seen);
      InScopeMembers(chain[1..], seen');
      var a, b := Unshadowed(defs, seen), InScope(chain[1..], seen');
      forall ns: Ns
        ensures ns in a + b <==>
                ns.prefix !in seen && SearchPos(chain, ns.prefix).Some?
                && (var pos := SearchPos(chain, ns.prefix).value; chain[pos.0].nsDefs[pos.1] == ns)
      {
        var k := DefIndex(defs, ns.prefix);
        assert ns in a + b <==> ns in a || ns in b;
        if k < |defs| {
          assert defs[k] in defs;
          assert ns.prefix in seen';
        } else {
          assert ns.prefix !in Prefixes(defs);
        }
      }
      forall i, j | 0 <= i < j < |a + b| ensures (a + b)[i].prefix != (a + b)[j].prefix {
        if i < |a| <= j {
          assert a[i] in a && b[j - |a|] in b;
          assert defs[DefIndex(defs, a[i].prefix)] in defs;
        }
      }
    }
  }

  lemma {:induction false} ShownMembers(axis: seq<Ns>, hidden: set<string>)
    requires DistinctPrefixes(axis)
    ensures DistinctPrefixes(Shown(axis, hidden))
    ensures forall ns :: ns in Shown(axis, hidden) <==> ns in axis && ns.prefix != "xml" && ns.prefix !in hidden
  {
    if axis != [] {
      var t := axis[1..];
      ShownMembers(t, hidden);
      var s, s' := Shown(axis, hidden), Shown(t, hidden);
      assert axis == [axis[0]] + t;
      forall i, j | 0 <= i < j < |s| ensures s[i].prefix != s[j].prefix {
        if |s| != |s'| {
          assert s[j] == s'[j - 1] && s[j] in s' && s[j] in t;
          var m :| 0 <= m < |t| && t[m] == s[j];
          assert axis[m + 1] == s[j];
          if i > 0 { assert s[i] == s'[i - 1]; }
        }
      }
    }
  }

  /** The axis of an element, in terms of the lookup alone. */
  lemma AxisMembers(chain: Chain, hidden: set<string>)
    ensures DistinctPrefixes(Axis(chain, hidden))
    ensures forall ns :: ns in Axis(chain, hidden) <==>
              ns.prefix != "xml" && ns.prefix !in hidden && Search(chain, ns.prefix) == Some(ns)
  {
    InScopeMembers(chain, {});
    ShownMembers(InScope(chain, {}), hidden);
  }
}
