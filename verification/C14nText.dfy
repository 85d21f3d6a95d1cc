/**
  Reading the printed start tags back as an XML processor does: quotes, references, end-of-line
  handling and the normalization of white space in values. Values of attributes are escaped and
  always read back; namespace URIs are written by xmlBufWriteQuotedString, which escapes only
  double quotes, so they read back exactly when none of their characters has a meaning in a value.
 */
module C14nText {
  import opened Ordering
  import opened C14nTree
  import opened C14nEscape
  import opened C14nPrint
  import opened C14nTokens

  // ----- Values -----

  /** References a processor knows: those the canonicalizer writes, and any other character references. */
  ghost predicate RefsOk(refs: map<string, char>) {
    && (forall r :: r in REFERENCES ==> r in refs && refs[r] == REFERENCES[r])
    && (forall r :: r in refs ==>
          |r| >= 3 && r[0] == '&' && r[|r| - 1] == ';' && forall i :: 0 < i < |r| - 1 ==> r[i] != '&' && r[i] != ';')
  }

  /** A reader that knows just the references the canonicalizer writes. */
  lemma KnownRefsOk()
    ensures RefsOk(REFERENCES)
  {
  }

  function Prepend(c: char, r: Option<string>): Option<string> {
    match r
    case None => None
    case Some(s) => Some([c] + s)
  }

  /** The value that stands for the characters between the quotes; None if they are not well-formed. */
  function ReadValue(refs: map<string, char>, s: string): Option<string>
    decreases |s|
  {
    if s == "" then Some("")
    else if s[0] == '<' then None
    else if s[0] == '&' then
      var k := IndexOf(s, ';') + 1;
      if k <= |s| && s[..k] in refs then Prepend(refs[s[..k]], ReadValue(refs, s[k..])) else None
    else if s[0] == '\r' && |s| > 1 && s[1] == '\n' then ReadValue(refs, s[1..])
    else Prepend(if s[0] == '\t' || s[0] == '\n' || s[0] == '\r' then ' ' else s[0], ReadValue(refs, s[1..]))
  }

  /** Characters that stand for themselves in a value. */
  predicate PlainChar(c: char) {
    c != '&' && c != '<' && c != '\t' && c != '\n' && c != '\r'
  }

  predicate PlainUri(s: string) {
    forall c :: c in s ==> PlainChar(c)
  }

  lemma ReadEnd(refs: map<string, char>)
    ensures ReadValue(refs, "") == Some("")
  {
  }

  lemma ReadPlain(refs: map<string, char>, c: char, rest: string)
    requires PlainChar(c)
    ensures ReadValue(refs, [c] + rest) == Prepend(c, ReadValue(refs, rest))
  {
    assert ([c] + rest)[1..] == rest;
  }

  lemma ReadReference(refs: map<string, char>, r: string, rest: string)
    requires RefsOk(refs) && r in refs
    ensures ReadValue(refs, r + rest) == Prepend(refs[r], ReadValue(refs, rest))
  {
    var s := r + rest;
    assert s[..|r|] == r && s[|r|..] == rest;
    assert s[|r| - 1] == ';' && forall i :: 0 <= i < |r| - 1 ==> s[i] == r[i] && s[i] != ';';
    assert IndexOf(s, ';') == |r| - 1;
  }

  /** White space is read as a blank, or, before a line feed, not at all. */
  lemma ReadBlank(refs: map<string, char>, c: char, rest: string)
    requires c == '\t' || c == '\n' || c == '\r'
    ensures var v, w := ReadValue(refs, [c] + rest), ReadValue(refs, rest);
            v.Some? ==> w.Some? && |v.value| <= 1 + |w.value| && (v.value == w.value || v.value == [' '] + w.value)
  {
    assert ([c] + rest)[1..] == rest;
  }

  lemma ReadLess(refs: map<string, char>, rest: string)
    ensures ReadValue(refs, ['<'] + rest).None?
  {
  }

  /** Escaped attribute values always read back. */
  lemma {:induction false} EscapedReads(refs: map<string, char>, v: string)
    requires RefsOk(refs)
    ensures ReadValue(refs, Escape(v, AttrMode)) == Some(v)
  {
    hide ReadValue, RefsOk, EscapeChar;
    if v == "" {
      ReadEnd(refs);
    } else {
      var e, rest := EscapeChar(v[0], AttrMode), Escape(v[1..], AttrMode);
      EscapeIsReference(v[0], AttrMode);
      EscapedReads(refs, v[1..]);
      assert v == [v[0]] + v[1..];
      if e == [v[0]] {
        EscapedPlain(v[0]);
        ReadPlain(refs, v[0], rest);
      } else {
        KnownReference(refs, e);
        ReadReference(refs, e, rest);
      }
    }
  }

  lemma EscapedPlain(c: char)
    requires EscapeChar(c, AttrMode) == [c]
    ensures PlainChar(c)
  {
  }

  lemma KnownReference(refs: map<string, char>, r: string)
    requires RefsOk(refs) && r in REFERENCES
    ensures r in refs && refs[r] == REFERENCES[r]
  {
  }

  // ----- Namespace URIs -----

  /** What xmlBufWriteQuotedString writes between the quotes. */
  function Raw(s: string, both: bool): string {
    if both then ReplaceQuotes(s) else s
  }

  lemma RawStep(s: string, both: bool)
    requires s != ""
    ensures Raw(s, both) == (if both && s[0] == '"' then "&quot;" else [s[0]]) + Raw(s[1..], both)
  {
    assert s == [s[0]] + s[1..];
  }

  /** Where no reference begins, the raw form is the string itself. */
  lemma {:induction false} RawPrefix(s: string, both: bool, k: nat)
    requires k <= |Raw(s, both)| && forall i :: 0 <= i < k ==> Raw(s, both)[i] != '&'
    ensures k <= |s| && Raw(s, both)[k..] == Raw(s[k..], both)
    decreases k
  {
    if k == 0 {
      assert s[0..] == s && Raw(s, both)[0..] == Raw(s, both);
    } else {
      var raw := Raw(s, both);
      assert s != "";
      RawStep(s, both);
      var t := s[1..];
      assert raw[0] != '&';
      assert raw == [s[0]] + Raw(t, both);
      assert forall i :: 0 <= i < k - 1 ==> Raw(t, both)[i] == raw[i + 1];
      RawPrefix(t, both, k - 1);
      assert raw[k..] == Raw(t, both)[k - 1..] && t[k - 1..] == s[k..];
    }
  }

  /** Reading never makes a URI longer, and gives the URI itself only if all its characters are plain. */
  lemma {:induction false} RawReads(refs: map<string, char>, s: string, both: bool)
    requires RefsOk(refs)
    ensures var v := ReadValue(refs, Raw(s, both));
            v.Some? ==> |v.value| <= |s| && (v.value == s ==> PlainUri(s))
    decreases |s|
  {
    hide ReadValue, ReplaceQuotes, RefsOk;
    if s == "" {
      ReadEnd(refs);
      NoQuotes(s);
    } else {
      var c, t := s[0], s[1..];
      RawStep(s, both);
      assert s == [c] + t;
      if c == '"' && both {
        KnownReference(refs, "&quot;");
        ReadReference(refs, "&quot;", Raw(t, both));
        RawReads(refs, t, both);
      } else if c == '&' {
        RawReference(refs, s, both);
      } else {
        RawReads(refs, t, both);
        if c == '<' {
          ReadLess(refs, Raw(t, both));
        } else if PlainChar(c) {
          ReadPlain(refs, c, Raw(t, both));
        } else {
          ReadBlank(refs, c, Raw(t, both));
        }
      }
    }
  }

  /** An ampersand in a URI is read as the start of a reference, if it can be read at all. */
  lemma {:induction false} RawReference(refs: map<string, char>, s: string, both: bool)
    requires RefsOk(refs) && s != "" && s[0] == '&'
    ensures var v := ReadValue(refs, Raw(s, both));
            v.Some? ==> |v.value| < |s|
    decreases |s|, 0
  {
    hide ReadValue, ReplaceQuotes, RefsOk, IndexOf;
    var raw := Raw(s, both);
    RawStep(s, both);
    var k := IndexOf(raw, ';') + 1;
    ReadAmpersand(refs, raw);
    if k <= |raw| && raw[..k] in refs {
      RawAfter(refs, s, both, k);
      RawReads(refs, s[k..], both);
    }
  }

  lemma ReadAmpersand(refs: map<string, char>, raw: string)
    requires raw != "" && raw[0] == '&'
    ensures var k := IndexOf(raw, ';') + 1;
            ReadValue(refs, raw) ==
            if k <= |raw| && raw[..k] in refs then Prepend(refs[raw[..k]], ReadValue(refs, raw[k..])) else None
  {
  }

  /** A reference is made of characters of the URI itself. */
  lemma RawAfter(refs: map<string, char>, s: string, both: bool, k: nat)
    requires RefsOk(refs) && s != "" && s[0] == '&' && k <= |Raw(s, both)| && Raw(s, both)[..k] in refs
    ensures 3 <= k <= |s| && Raw(s, both)[k..] == Raw(s[k..], both)
  {
    hide ReplaceQuotes;
    var raw := Raw(s, both);
    var r := raw[..k];
    RawStep(s, both);
    assert |r| >= 3 && raw[1..] == Raw(s[1..], both);
    forall i | 0 <= i < k - 1 ensures Raw(s[1..], both)[i] != '&' {
      assert raw[i + 1] == r[i + 1];
    }
    RawPrefix(s[1..], both, k - 1);
    assert raw[k..] == Raw(s[1..], both)[k - 1..] && s[1..][k - 1..] == s[k..];
  }

  lemma {:induction false} PlainReads(refs: map<string, char>, s: string, both: bool)
    requires RefsOk(refs) && PlainUri(s)
    ensures ReadValue(refs, Raw(s, both)) == Some(s)
  {
    hide ReadValue, ReplaceQuotes, RefsOk;
    if s == "" {
      ReadEnd(refs);
      assert Raw(s, both) == "" by { NoQuotes(s); }
    } else {
      RawStep(s, both);
      assert s == [s[0]] + s[1..];
      PlainReads(refs, s[1..], both);
      if both && s[0] == '"' {
        KnownReference(refs, "&quot;");
        ReadReference(refs, "&quot;", Raw(s[1..], both));
      } else {
        ReadPlain(refs, s[0], Raw(s[1..], both));
      }
    }
  }

  // ----- Literals -----

  /** A quoted value: the value, and what follows the closing quote. */
  function ReadLiteral(refs: map<string, char>, text: string): (r: Option<(string, string)>)
    ensures r.Some? ==> |r.value.1| < |text|
  {
    if text == "" || (text[0] != '"' && text[0] != '\'') then None
    else
      var k := IndexOf(text[1..], text[0]);
      if k == |text| - 1 then None
      else
        match ReadValue(refs, text[1..][..k])
        case None => None
        case Some(v) => Some((v, text[k + 2..]))
  }

  lemma LiteralReads(refs: map<string, char>, q: char, raw: string, rest: string)
    requires (q == '"' || q == '\'') && q !in raw
    ensures ReadLiteral(refs, [q] + raw + [q] + rest) ==
            match ReadValue(refs, raw) case None => None case Some(v) => Some((v, rest))
  {
    hide ReadValue;
    var text := [q] + raw + [q] + rest;
    var inner := text[1..];
    assert inner == raw + [q] + rest;
    assert inner[|raw|] == q && forall i :: 0 <= i < |raw| ==> inner[i] == raw[i] && raw[i] in raw;
    assert IndexOf(inner, q) == |raw|;
    assert inner[..|raw|] == raw && text[|raw| + 2..] == rest;
  }

  lemma {:induction false} NoQuotes(s: string)
    ensures '"' !in ReplaceQuotes(s)
    ensures '"' !in s ==> ReplaceQuotes(s) == s
  {
    if s != "" {
      NoQuotes(s[1..]);
      assert s == [s[0]] + s[1..];
    }
  }

  /** A written namespace URI reads back if and only if all its characters are plain. */
  lemma QuotedReadsIff(refs: map<string, char>, href: string, rest: string)
    requires RefsOk(refs)
    ensures ReadLiteral(refs, Quoted(href) + rest) == Some((href, rest)) <==> PlainUri(href)
  {
    hide ReadValue, ReadLiteral, ReplaceQuotes, RefsOk, PlainUri;
    var both := '"' in href && '\'' in href;
    var q := if '"' in href && !both then '\'' else '"';
    var raw := Raw(href, both);
    NoQuotes(href);
    assert Quoted(href) + rest == [q] + raw + [q] + rest by {
      assert "\"" == ['"'] && "'" == ['\''];
    }
    LiteralReads(refs, q, raw, rest);
    RawReads(refs, href, both);
    if PlainUri(href) { PlainReads(refs, href, both); }
  }

  /** Whatever is read for a written URI, what follows it is found. */
  lemma QuotedRest(refs: map<string, char>, href: string, rest: string)
    requires RefsOk(refs)
    ensures var r := ReadLiteral(refs, Quoted(href) + rest);
            r.Some? ==> r.value.1 == rest
  {
    hide ReadValue, ReadLiteral, ReplaceQuotes, RefsOk;
    var both := '"' in href && '\'' in href;
    var q := if '"' in href && !both then '\'' else '"';
    NoQuotes(href);
    assert Quoted(href) + rest == [q] + Raw(href, both) + [q] + rest by {
      assert "\"" == ['"'] && "'" == ['\''];
    }
    LiteralReads(refs, q, Raw(href, both), rest);
  }

  lemma ValueReads(refs: map<string, char>, value: string, rest: string)
    requires RefsOk(refs)
    ensures ReadLiteral(refs, "\"" + Escape(value, AttrMode) + "\"" + rest) == Some((value, rest))
  {
    hide ReadValue, ReadLiteral, RefsOk, Escape;
    EscapedAttributeIsSafe(value);
    EscapedReads(refs, value);
    LiteralReads(refs, '"', Escape(value, AttrMode), rest);
    assert "\"" == ['"'];
  }

  // ----- Start tags -----

  /** A name or prefix: no character that ends a name, no colon, and no sign that makes the tag another thing. */
  predicate LegalName(n: string) {
    n != "" && ' ' !in n && '=' !in n && '>' !in n && ':' !in n && n[0] != '/' && n[0] != '!' && n[0] != '?'
  }

  predicate LegalQName(prefix: string, name: string) {
    LegalName(name) && (prefix == "" || LegalName(prefix))
  }

  /** Where a name ends. */
  function NameEnd(text: string): (k: nat)
    ensures k <= |text|
  {
    if text == "" || text[0] == ' ' || text[0] == '=' || text[0] == '>' then 0 else 1 + NameEnd(text[1..])
  }

  /** Prefix and local part. */
  function Qualify(n: string): (string, string) {
    var k := IndexOf(n, ':');
    if k < |n| then (n[..k], n[k + 1..]) else ("", n)
  }

  lemma {:induction false} NameEnds(n: string, rest: string)
    requires ' ' !in n && '=' !in n && '>' !in n && rest != "" && (rest[0] == ' ' || rest[0] == '=' || rest[0] == '>')
    ensures NameEnd(n + rest) == |n|
  {
    if n == "" {
      assert n + rest == rest;
    } else {
      assert (n + rest)[0] in n && (n + rest)[1..] == n[1..] + rest;
      NameEnds(n[1..], rest);
    }
  }

  lemma QualifyQName(prefix: string, name: string)
    requires LegalQName(prefix, name)
    ensures Qualify(QName(prefix, name)) == (prefix, name)
    ensures var n := QName(prefix, name); ' ' !in n && '=' !in n && '>' !in n
  {
    var n := QName(prefix, name);
    if prefix == "" {
      assert IndexOf(n, ':') == |n|;
    } else {
      assert n == prefix + [':'] + name;
      assert n[|prefix|] == ':' && forall i :: 0 <= i < |prefix| ==> n[i] in prefix;
      assert IndexOf(n, ':') == |prefix|;
      assert n[..|prefix|] == prefix && n[|prefix| + 1..] == name;
    }
  }

  /** What an attribute is: a namespace declaration, or an attribute proper. */
  function Attributed(n: (string, string), v: string): Token {
    if n == ("", "xmlns") then Decl(Ns("", v))
    else if n.0 == "xmlns" then Decl(Ns(n.1, v))
    else Attribute(n.0, n.1, v)
  }

  /** One attribute, after the blank before it. */
  function ReadAttribute(refs: map<string, char>, text: string): (r: Option<(Token, string)>)
    ensures r.Some? ==> |r.value.1| < |text|
  {
    var k := NameEnd(text);
    if k == |text| || text[k] != '=' then None
    else
      match ReadLiteral(refs, text[k + 1..])
      case None => None
      case Some((v, rest)) => Some((Attributed(Qualify(text[..k]), v), rest))
  }

  function ReadAttributes(refs: map<string, char>, text: string): (r: Option<(seq<Token>, string)>)
    ensures r.Some? ==> |r.value.1| <= |text|
    decreases |text|
  {
    if text == "" || text[0] != ' ' then Some(([], text))
    else
      match ReadAttribute(refs, text[1..])
      case None => None
      case Some((t, rest)) =>
        match ReadAttributes(refs, rest)
        case None => None
        case Some((ts, end)) => Some(([t] + ts, end))
  }

  /** A start tag, from its angle bracket to the closing one. */
  function ReadTag(refs: map<string, char>, text: string): (r: Option<(seq<Token>, string)>)
    ensures r.Some? ==> |r.value.1| < |text|
  {
    if text == "" || text[0] != '<' then None
    else
      var k := NameEnd(text[1..]);
      var n := Qualify(text[1..][..k]);
      match ReadAttributes(refs, text[1..][k..])
      case None => None
      case Some((ts, rest)) =>
        if rest == "" || rest[0] != '>' then None
        else Some(([Open(n.0, n.1)] + ts + [Gt], rest[1..]))
  }

  /** Declarations and attributes with legal names; attributes are not called like declarations. */
  predicate LegalToken(t: Token) {
    (t.Decl? && (t.ns.prefix == "" || LegalName(t.ns.prefix)))
    || (t.Attribute? && LegalQName(t.prefix, t.name) && t.prefix != "xmlns" && !(t.prefix == "" && t.name == "xmlns"))
  }

  /** The printed form without the blank: name, equals sign, literal. */
  function NamePart(t: Token): string
    requires LegalToken(t)
  {
    match t
    case Decl(ns) => if ns.prefix != "" then QName("xmlns", ns.prefix) else "xmlns"
    case Attribute(prefix, name, _) => QName(prefix, name)
  }

  function LiteralPart(t: Token): string
    requires LegalToken(t)
  {
    match t
    case Decl(ns) => Quoted(ns.href)
    case Attribute(_, _, value) => "\"" + Escape(value, AttrMode) + "\""
  }

  lemma PrintParts(t: Token)
    requires LegalToken(t)
    ensures Print(t) == " " + NamePart(t) + "=" + LiteralPart(t)
  {
    hide Quoted, Escape;
    match t
    case Decl(ns) =>
      if ns.prefix != "" { assert "xmlns" + ":" + ns.prefix == QName("xmlns", ns.prefix); }
      assert " xmlns:" == " " + ("xmlns" + ":");
    case Attribute(_, _, _) =>
      assert "=\"" == "=" + "\"";
  }

  /**
    Tokens whose text says what they say: URIs with plain characters, and comments and processing
    instructions without carriage returns, which are written as references that mean nothing there.
   */
  predicate PlainToken(t: Token) {
    match t
    case Decl(ns) => PlainUri(ns.href)
    case CommentTok(_, content, _) => '\r' !in content
    case PITok(_, _, content, _) => '\r' !in content
    case _ => true
  }

  lemma TokenReadsIff(refs: map<string, char>, t: Token, rest: string)
    requires RefsOk(refs) && LegalToken(t)
    ensures var r := ReadAttribute(refs, Print(t)[1..] + rest);
            && (r == Some((t, rest)) <==> PlainToken(t))
            && (r.Some? ==> r.value.1 == rest)
  {
    hide Print, ReadLiteral, RefsOk, Quoted, Escape, PlainUri, LegalName, QName, Qualify, NameEnd, NamePart;
    PrintParts(t);
    var n, l := NamePart(t), LiteralPart(t);
    var text := Print(t)[1..] + rest;
    assert text == n + ("=" + (l + rest));
    NamePartReads(t);
    NameEnds(n, "=" + (l + rest));
    assert text[..|n|] == n && text[|n|] == '=' && text[|n| + 1..] == l + rest;
    match t
    case Decl(ns) =>
      QuotedReadsIff(refs, ns.href, rest);
      QuotedRest(refs, ns.href, rest);
    case Attribute(_, _, value) =>
      ValueReads(refs, value, rest);
  }

  lemma NamePartReads(t: Token)
    requires LegalToken(t)
    ensures var n := NamePart(t);
            && ' ' !in n && '=' !in n && '>' !in n
            && Qualify(n) == (if t.Attribute? then (t.prefix, t.name)
                              else if t.ns.prefix == "" then ("", "xmlns") else ("xmlns", t.ns.prefix))
  {
    match t
    case Decl(ns) => if ns.prefix != "" { QualifyQName("xmlns", ns.prefix); } else { QualifyQName("", "xmlns"); }
    case Attribute(prefix, name, _) => QualifyQName(prefix, name);
  }

  ghost predicate AllLegal(ts: seq<Token>) {
    forall t :: t in ts ==> LegalToken(t)
  }

  lemma {:induction false} TokensReadIff(refs: map<string, char>, ts: seq<Token>, rest: string)
    requires RefsOk(refs) && AllLegal(ts) && rest != "" && rest[0] == '>'
    ensures var r := ReadAttributes(refs, PrintAll(ts) + rest);
            && (r == Some((ts, rest)) <==> forall t :: t in ts ==> PlainToken(t))
            && (r.Some? ==> |r.value.0| == |ts| && r.value.1 == rest)
  {
    hide ReadAttribute, Print, RefsOk, LegalToken, PlainToken;
    if ts == [] {
      assert PrintAll(ts) + rest == rest;
    } else {
      var t, tail := ts[0], ts[1..];
      assert t in ts && ts == [t] + tail;
      PrintStarts(t);
      var text := PrintAll(ts) + rest;
      var more := PrintAll(tail) + rest;
      assert text == Print(t) + more;
      assert text[1..] == Print(t)[1..] + more;
      TokenReadsIff(refs, t, more);
      TokensReadIff(refs, tail, rest);
      var a := ReadAttribute(refs, text[1..]);
      if a.Some? {
        var b := ReadAttributes(refs, more);
        if b.Some? {
          assert [a.value.0] + b.value.0 == ts ==> a.value.0 == t && b.value.0 == tail by {
            HeadTail(a.value.0, b.value.0, ts);
          }
        }
      }
    }
  }

  lemma HeadTail<T>(x: T, l: seq<T>, ts: seq<T>)
    ensures [x] + l == ts ==> ts != [] && ts[0] == x && ts[1..] == l
  {
  }

  lemma PrintStarts(t: Token)
    requires LegalToken(t)
    ensures Print(t) != "" && Print(t)[0] == ' '
  {
    PrintParts(t);
  }

  /**
    A printed start tag, whatever follows it, reads back as the tokens it was printed from if and
    only if the URIs it declares have plain characters only.
   */
  lemma TagReadsIff(refs: map<string, char>, prefix: string, name: string, ts: seq<Token>, rest: string)
    requires RefsOk(refs) && LegalQName(prefix, name) && AllLegal(ts)
    ensures var tag := [Open(prefix, name)] + ts + [Gt];
            var r := ReadTag(refs, PrintAll(tag) + rest);
            && (r == Some((tag, rest)) <==> forall t :: t in ts ==> PlainToken(t))
            && (r.Some? ==> |r.value.0| == |tag| && r.value.1 == rest)
  {
    hide ReadAttributes, PrintAll, RefsOk, LegalToken, PlainToken;
    var n := QName(prefix, name);
    var tag := [Open(prefix, name)] + ts + [Gt];
    var after := ">" + rest;
    TagText(prefix, name, ts, rest);
    var text := PrintAll(tag) + rest;
    var body := PrintAll(ts) + after;
    assert text == "<" + n + body;
    BodyStarts(ts, after);
    QualifyQName(prefix, name);
    assert text[1..] == n + body;
    NameEnds(n, body);
    assert text[1..][..|n|] == n && text[1..][|n|..] == body;
    TokensReadIff(refs, ts, after);
    assert after[1..] == rest;
    var r := ReadAttributes(refs, body);
    if r.Some? {
      var (us, end) := r.value;
      if end != "" && end[0] == '>' { TagParts(Open(prefix, name), us, ts, Gt, end, rest); }
    }
  }

  lemma TagText(prefix: string, name: string, ts: seq<Token>, rest: string)
    ensures PrintAll([Open(prefix, name)] + ts + [Gt]) + rest
            == "<" + QName(prefix, name) + (PrintAll(ts) + (">" + rest))
  {
    hide Print, PrintAll, QName;
    var n, p := "<" + QName(prefix, name), PrintAll(ts);
    PrintAppend([Open(prefix, name)] + ts, [Gt]);
    PrintAppend([Open(prefix, name)], ts);
    PrintOne(Open(prefix, name));
    PrintOne(Gt);
    PrintEnds(prefix, name);
    Assoc(n + p, ">", rest);
    Assoc(n, p, ">" + rest);
  }

  lemma PrintEnds(prefix: string, name: string)
    ensures Print(Open(prefix, name)) == "<" + QName(prefix, name) && Print(Gt) == ">"
  {
  }

  lemma BodyStarts(ts: seq<Token>, after: string)
    requires AllLegal(ts) && after != "" && after[0] == '>'
    ensures var body := PrintAll(ts) + after; body != "" && (body[0] == ' ' || body[0] == '>')
  {
    hide Print;
    if ts == [] {
      assert PrintAll(ts) + after == after;
    } else {
      assert ts[0] in ts;
      PrintStarts(ts[0]);
    }
  }

  lemma TagParts(open: Token, us: seq<Token>, ts: seq<Token>, gt: Token, end: string, rest: string)
    requires end != "" && end[0] == '>'
    ensures [open] + us + [gt] == [open] + ts + [gt] <==> us == ts
    ensures end[1..] == rest <==> end == ">" + rest
  {
    if [open] + us + [gt] == [open] + ts + [gt] {
      assert ([open] + us + [gt])[1..|us| + 1] == us && ([open] + ts + [gt])[1..|ts| + 1] == ts;
      assert |[open] + us + [gt]| == |us| + 2 && |[open] + ts + [gt]| == |ts| + 2;
    }
    assert end == [end[0]] + end[1..];
  }

  /**
    Two different declarations can be printed alike: the reference that stands for a quote is not
    told from its characters.
   */
  lemma QuotedLoses()
    ensures Quoted("'\"") == Quoted("'&quot;")
  {
    assert ReplaceQuotes("\"") == "&quot;" by { assert "\""[1..] == ""; }
    assert "'\""[1..] == "\"";
  }

  /** A URI with an ampersand is written as it is, and the text is not well-formed. */
  lemma AmpersandNotRead(refs: map<string, char>, rest: string)
    ensures ReadLiteral(refs, Quoted("a&b") + rest).None?
  {
    hide ReadLiteral;
    assert "a&b" == ['a'] + "&b" && "&b"[1..] == "b" && "b"[1..] == "";
    assert IndexOf("&b", ';') == 2;
    assert ReadValue(refs, "&b").None?;
    ReadPlain(refs, 'a', "&b");
    assert Quoted("a&b") + rest == ['"'] + "a&b" + ['"'] + rest;
    LiteralReads(refs, '"', "a&b", rest);
  }
}
