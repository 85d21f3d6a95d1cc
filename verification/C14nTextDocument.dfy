/**
  Reading whole texts back: start tags, end tags, character data, comments and processing
  instructions. The text of a sequence of tokens reads back as these tokens exactly when all of
  them are plain: namespace URIs without characters that mean something in a value, and comments
  and processing instructions without carriage returns.
 */
module C14nTextDocument {
  import opened Ordering
  import opened C14nTree
  import opened C14nNamespaces
  import opened C14nEscape
  import opened C14nPrint
  import opened C14nTokens
  import opened C14nText

  // ----- A reader of text -----

  function Add(ts: seq<Token>, r: Option<seq<Token>>): Option<seq<Token>> {
    match r
    case None => None
    case Some(us) => Some(ts + us)
  }

  /** Where two characters first stand next to each other, or the length of the string. */
  function PairIndex(s: string, a: char, b: char): (k: nat)
    ensures k <= |s| && (k < |s| ==> k + 1 < |s| && s[k] == a && s[k + 1] == b)
    ensures forall i :: 0 <= i < k && i + 1 < |s| ==> !(s[i] == a && s[i + 1] == b)
  {
    if |s| < 2 then |s| else if s[0] == a && s[1] == b then 0 else 1 + PairIndex(s[1..], a, b)
  }

  /** A comment, from its opening: what is up to the first two hyphens, which have to end it. */
  function ReadComment(text: string): (r: Option<(Token, string)>)
    ensures r.Some? ==> |r.value.1| < |text|
  {
    if |text| < 4 || text[..4] != "<!--" then None
    else
      var k := PairIndex(text[4..], '-', '-') + 4;
      if k + 2 < |text| && text[k + 2] == '>' then Some((CommentTok(false, text[4..k], false), text[k + 3..])) else None
  }

  predicate IsBlank(c: char) {
    c == ' ' || c == '\t' || c == '\n' || c == '\r'
  }

  function SkipBlanks(s: string): string {
    if s != "" && IsBlank(s[0]) then SkipBlanks(s[1..]) else s
  }

  /**
    A processing instruction, from its opening: its target ends at the first blank, and its content
    begins after the blanks.
   */
  function ReadPI(text: string): (r: Option<(Token, string)>)
    requires |text| >= 2
    ensures r.Some? ==> |r.value.1| < |text|
  {
    var k := PairIndex(text[2..], '?', '>') + 2;
    if k == |text| then None
    else
      var body := text[2..k];
      var j := IndexOf(body, ' ');
      Some((PITok(false, body[..j], SkipBlanks(body[j..]), false), text[k + 2..]))
  }

  /** The tokens of a text, with one token for each character of the content. */
  function ReadText(refs: map<string, char>, text: string): Option<seq<Token>>
    decreases |text|
  {
    if text == "" then Some([])
    else if text[0] == '<' then
      if |text| > 1 && text[1] == '/' then
        var k := IndexOf(text, '>');
        if k == |text| then None
        else
          var n := Qualify(text[2..k]);
          Add([Close(n.0, n.1)], ReadText(refs, text[k + 1..]))
      else if |text| > 1 && text[1] == '!' then
        match ReadComment(text)
        case None => None
        case Some((t, rest)) => Add([t], ReadText(refs, rest))
      else if |text| > 1 && text[1] == '?' then
        match ReadPI(text)
        case None => None
        case Some((t, rest)) => Add([t], ReadText(refs, rest))
      else
        match ReadTag(refs, text)
        case None => None
        case Some((ts, rest)) => Add(ts, ReadText(refs, rest))
    else if text[0] == '&' then
      var k := IndexOf(text, ';') + 1;
      if k <= |text| && text[..k] in refs then Add([Chars([refs[text[..k]]])], ReadText(refs, text[k..])) else None
    else Add([Chars([if text[0] == '\r' then '\n' else text[0]])], ReadText(refs, text[1..]))
  }

  /** Character data taken apart. */
  function Letters(s: string): seq<Token> {
    if s == "" then [] else [Chars([s[0]])] + Letters(s[1..])
  }

  /** A line feed as character data, if there is one. */
  function LineFeed(there: bool): seq<Token> {
    if there then [Chars("\n")] else []
  }

  /** A token as a reader meets it: character by character, line feeds apart. */
  function Pieces(t: Token): seq<Token> {
    match t
    case Chars(content) => Letters(content)
    case CommentTok(before, content, after) => LineFeed(before) + [CommentTok(false, content, false)] + LineFeed(after)
    case PITok(before, target, content, after) => LineFeed(before) + [PITok(false, target, content, false)]
        + LineFeed(after)
    case _ => [t]
  }

  function Explode(ts: seq<Token>): seq<Token> {
    if ts == [] then [] else Pieces(ts[0]) + Explode(ts[1..])
  }

  /** Content that a comment can have in XML. */
  ghost predicate LegalComment(content: string) {
    && NoPair(content, '-', '-')
    && (content != "" ==> content[|content| - 1] != '-')
  }

  /** Target and content that a processing instruction can have in XML. */
  ghost predicate LegalPI(target: string, content: string) {
    && ' ' !in target && '?' !in target
    && NoPair(content, '?', '>')
    && (content != "" ==> !IsBlank(content[0]))
  }

  ghost predicate LegalNote(t: Token) {
    (t.CommentTok? && LegalComment(t.content)) || (t.PITok? && LegalPI(t.target, t.content))
  }

  // ----- Token by token -----

  lemma LetterReads(refs: map<string, char>, c: char, more: string)
    requires RefsOk(refs)
    ensures ReadText(refs, EscapeChar(c, TextMode) + more) == Add([Chars([c])], ReadText(refs, more))
  {
    hide ReadTag, ReadComment, ReadPI;
    var e := EscapeChar(c, TextMode);
    var text := e + more;
    assert text[..|e|] == e && text[|e|..] == more;
    EscapeIsReference(c, TextMode);
    if e != [c] {
      assert text[|e| - 1] == ';' && forall i :: 0 <= i < |e| - 1 ==> text[i] == e[i];
      assert IndexOf(text, ';') == |e| - 1;
    }
  }

  lemma AddTwice(a: seq<Token>, b: seq<Token>, r: Option<seq<Token>>)
    ensures Add(a, Add(b, r)) == Add(a + b, r)
  {
    if r.Some? { Assoc(a, b, r.value); }
  }

  lemma {:induction false} CharsRead(refs: map<string, char>, s: string, more: string)
    requires RefsOk(refs)
    ensures ReadText(refs, Escape(s, TextMode) + more) == Add(Letters(s), ReadText(refs, more))
  {
    hide ReadText, EscapeChar, RefsOk;
    if s == "" {
      assert Escape(s, TextMode) + more == more;
      NothingAdded(ReadText(refs, more));
    } else {
      var e, rest := EscapeChar(s[0], TextMode), Escape(s[1..], TextMode);
      Assoc(e, rest, more);
      LetterReads(refs, s[0], rest + more);
      CharsRead(refs, s[1..], more);
      AddTwice([Chars([s[0]])], Letters(s[1..]), ReadText(refs, more));
    }
  }

  lemma NothingAdded(r: Option<seq<Token>>)
    ensures Add([], r) == r
  {
    if r.Some? { assert [] + r.value == r.value; }
  }

  lemma LineFeedReads(refs: map<string, char>, there: bool, more: string)
    ensures ReadText(refs, (if there then "\n" else "") + more) == Add(LineFeed(there), ReadText(refs, more))
  {
    hide ReadTag;
    if there {
      assert ("\n" + more)[1..] == more;
    } else {
      assert "" + more == more;
      NothingAdded(ReadText(refs, more));
    }
  }

  /** Escaping in comments and instructions touches carriage returns only, and makes longer. */
  lemma {:induction false} NoteEscape(s: string, mode: Mode)
    requires mode == CommentMode || mode == PIMode
    ensures '\r' !in s ==> Escape(s, mode) == s
    ensures '\r' in s ==> |Escape(s, mode)| > |s|
    ensures |Escape(s, mode)| >= |s|
  {
    if s != "" {
      NoteEscape(s[1..], mode);
      assert s == [s[0]] + s[1..];
    }
  }

  ghost predicate NoPair(s: string, a: char, b: char) {
    forall i :: 0 <= i < |s| - 1 ==> !(s[i] == a && s[i + 1] == b)
  }

  /** `e` has no such pair, and begins and ends with what `s` does, as far as the pair is concerned. */
  ghost predicate Kept(s: string, e: string, a: char, b: char) {
    && NoPair(e, a, b) && (e == "" <==> s == "")
    && (s != "" ==>
        (s[0] != '\r' ==> e[0] == s[0]) && (e[0] == b ==> s[0] == b) && (e[|e| - 1] == a ==> s[|s| - 1] == a))
  }

  /** Characters that are in no reference such escaping writes, and are not escaped. */
  predicate Untouched(c: char) {
    c !in "&#xD;" && c != '\r'
  }

  /** No pair of such characters comes about by escaping, and the ends stay. */
  lemma {:induction false} PairKept(s: string, mode: Mode, a: char, b: char)
    requires (mode == CommentMode || mode == PIMode) && Untouched(a) && Untouched(b) && NoPair(s, a, b)
    ensures Kept(s, Escape(s, mode), a, b)
  {
    if s != "" {
      hide Escape, NoPair, Kept, Untouched;
      TailNoPair(s, a, b);
      PairKept(s[1..], mode, a, b);
      PairStep(s, Escape(s[1..], mode), mode, a, b);
      EscapeHead(s, mode);
    }
  }

  lemma EscapeHead(s: string, mode: Mode)
    requires s != ""
    ensures Escape(s, mode) == EscapeChar(s[0], mode) + Escape(s[1..], mode)
  {
  }

  lemma TailNoPair(s: string, a: char, b: char)
    requires s != "" && NoPair(s, a, b)
    ensures NoPair(s[1..], a, b)
  {
    assert forall i :: 0 <= i < |s| - 1 ==> s[1..][i] == s[i + 1];
  }

  lemma PairStep(s: string, rest: string, mode: Mode, a: char, b: char)
    requires (mode == CommentMode || mode == PIMode) && Untouched(a) && Untouched(b)
    requires s != "" && NoPair(s, a, b) && Kept(s[1..], rest, a, b)
    ensures Kept(s, EscapeChar(s[0], mode) + rest, a, b)
  {
    var e := EscapeChar(s[0], mode);
    var r := e + rest;
    assert forall c :: c in "&#xD;" ==> c != a && c != b;
    if s[0] == '\r' {
      assert e == "&#xD;" && forall i :: 0 <= i < |e| ==> e[i] in "&#xD;" && e[i] != a && e[i] != b;
    } else {
      assert e == [s[0]];
    }
    forall i | 0 <= i < |r| - 1 ensures !(r[i] == a && r[i + 1] == b) {
      if i < |e| - 1 {
      } else if i == |e| - 1 {
        assert r[i + 1] == rest[0];
      } else {
        assert r[i] == rest[i - |e|] && r[i + 1] == rest[i + 1 - |e|];
      }
    }
  }

  /** The pair that ends a comment or instruction is found behind content that has none. */
  lemma PairAfter(content: string, a: char, b: char, rest: string)
    requires NoPair(content, a, b)
    requires content != "" && content[|content| - 1] == a ==> a != b
    requires content != "" && a == b ==> content[|content| - 1] != a
    ensures PairIndex(content + [a, b] + rest, a, b) == |content|
  {
    var s := content + [a, b] + rest;
    assert s[|content|] == a && s[|content| + 1] == b;
    forall i | 0 <= i < |content| ensures !(s[i] == a && s[i + 1] == b) {
      if i < |content| - 1 { assert s[i] == content[i] && s[i + 1] == content[i + 1]; }
    }
  }

  lemma CommentReads(content: string, more: string)
    requires LegalComment(content)
    ensures ReadComment("<!--" + content + "-->" + more) == Some((CommentTok(false, content, false), more))
  {
    var text := "<!--" + content + "-->" + more;
    PairAfter(content, '-', '-', ">" + more);
    assert text[..4] == "<!--";
    assert text[4..] == content + ['-', '-'] + (">" + more);
    assert text[4..|content| + 4] == content && text[|content| + 6] == '>' && text[|content| + 7..] == more;
  }

  lemma PIReads(target: string, content: string, more: string)
    requires LegalPI(target, content)
    ensures var body := target + (if content != "" then " " + content else "");
            ReadPI("<?" + body + "?>" + more) == Some((PITok(false, target, content, false), more))
  {
    var body := target + (if content != "" then " " + content else "");
    hide NoPair, IsBlank, PairIndex, IndexOf, SkipBlanks;
    BodyNoPair(target, content);
    PairAfter(body, '?', '>', more);
    PISlices(body, more);
    TargetEnds(target, if content != "" then " " + content else "");
    BlankSkipped(content);
  }

  lemma PISlices(body: string, more: string)
    ensures var text := "<?" + body + "?>" + more;
            && text[2..] == body + ['?', '>'] + more && |text| == |body| + 4 + |more|
            && text[2..|body| + 2] == body && text[|body| + 4..] == more
  {
  }

  lemma BodyNoPair(target: string, content: string)
    requires '?' !in target && NoPair(content, '?', '>')
    ensures NoPair(target + (if content != "" then " " + content else ""), '?', '>')
  {
    var body := target + (if content != "" then " " + content else "");
    forall i | 0 <= i < |body| - 1 ensures !(body[i] == '?' && body[i + 1] == '>') {
      if i < |target| {
        assert body[i] in target;
      } else if i > |target| {
        assert body[i] == content[i - |target| - 1] && body[i + 1] == content[i - |target|];
      }
    }
  }

  lemma TargetEnds(target: string, after: string)
    requires ' ' !in target && (after == "" || after[0] == ' ')
    ensures var body := target + after;
            IndexOf(body, ' ') == |target| && body[..|target|] == target && body[|target|..] == after
  {
    var body := target + after;
    assert forall i :: 0 <= i < |target| ==> body[i] == target[i] && target[i] in target;
    if after != "" { assert body[|target|] == ' '; }
  }

  lemma BlankSkipped(content: string)
    requires content != "" ==> !IsBlank(content[0])
    ensures SkipBlanks(if content != "" then " " + content else "") == content
  {
    assert (" " + content)[1..] == content;
  }

  /** What an escaped comment or instruction is read as: a reference means nothing there. */
  function Taken(t: Token): Token
    requires t.CommentTok? || t.PITok?
  {
    match t
    case CommentTok(_, content, _) => CommentTok(false, Escape(content, CommentMode), false)
    case PITok(_, target, content, _) => PITok(false, target, Escape(content, PIMode), false)
  }

  /** A comment or instruction without the line feeds around it. */
  function Bare(t: Token): Token
    requires t.CommentTok? || t.PITok?
  {
    match t
    case CommentTok(_, content, _) => CommentTok(false, content, false)
    case PITok(_, target, content, _) => PITok(false, target, content, false)
  }

  lemma TakenIff(t: Token)
    requires t.CommentTok? || t.PITok?
    ensures Taken(t) == Bare(t) <==> PlainToken(t)
  {
    hide Escape;
    NoteEscape(t.content, if t.CommentTok? then CommentMode else PIMode);
  }

  lemma BareReads(refs: map<string, char>, t: Token, more: string)
    requires LegalNote(t)
    ensures ReadText(refs, Print(Bare(t)) + more) == Add([Taken(t)], ReadText(refs, more))
  {
    hide Escape, ReadComment, ReadPI, ReadTag, LegalComment, LegalPI;
    var text := Print(Bare(t)) + more;
    match t
    case CommentTok(_, content, _) =>
      var e := Escape(content, CommentMode);
      CommentStays(content);
      CommentReads(e, more);
      BareComment(e, more, text);
    case PITok(_, target, content, _) =>
      var e := Escape(content, PIMode);
      PIStays(target, content);
      PIReads(target, e, more);
      BarePI(target, e, more, text);
  }

  lemma CommentStays(content: string)
    requires LegalComment(content)
    ensures LegalComment(Escape(content, CommentMode))
  {
    hide Escape;
    PairKept(content, CommentMode, '-', '-');
  }

  lemma PIStays(target: string, content: string)
    requires LegalPI(target, content)
    ensures LegalPI(target, Escape(content, PIMode)) && (Escape(content, PIMode) == "" <==> content == "")
  {
    hide Escape;
    PairKept(content, PIMode, '?', '>');
  }

  lemma BareComment(e: string, more: string, text: string)
    requires text == "" + "<!--" + e + "-->" + "" + more
    ensures text == "<!--" + e + "-->" + more && |text| > 1 && text[0] == '<' && text[1] == '!'
  {
  }

  lemma BarePI(target: string, e: string, more: string, text: string)
    requires text == "" + "<?" + target + (if e != "" then " " + e else "") + "?>" + "" + more
    ensures text == "<?" + (target + (if e != "" then " " + e else "")) + "?>" + more && |text| > 1 && text[0] == '<'
            && text[1] == '?'
  {
  }

  /** A comment or processing instruction with its line feeds: what is read, and when that is what was written. */
  lemma NoteReads(refs: map<string, char>, t: Token, more: string) returns (got: seq<Token>)
    requires LegalNote(t)
    ensures ReadText(refs, Print(t) + more) == Add(got, ReadText(refs, more))
    ensures |got| == |Pieces(t)| && (got == Pieces(t) <==> PlainToken(t))
  {
    hide ReadText, Escape, Print, LegalComment, LegalPI, PlainToken, Taken, Bare;
    var first, last := if t.before then "\n" else "", if t.after then "\n" else "";
    PrintNote(t);
    Assoc(first + Print(Bare(t)), last, more);
    Assoc(first, Print(Bare(t)), last + more);
    LineFeedReads(refs, t.before, Print(Bare(t)) + (last + more));
    BareReads(refs, t, last + more);
    LineFeedReads(refs, t.after, more);
    var r := ReadText(refs, more);
    AddTwice([Taken(t)], LineFeed(t.after), r);
    AddTwice(LineFeed(t.before), [Taken(t)] + LineFeed(t.after), r);
    got := LineFeed(t.before) + ([Taken(t)] + LineFeed(t.after));
    TakenIff(t);
    PiecesOfNote(t);
    assert got[|LineFeed(t.before)|] == Taken(t);
    assert Pieces(t)[|LineFeed(t.before)|] == Bare(t);
  }

  lemma PiecesOfNote(t: Token)
    requires t.CommentTok? || t.PITok?
    ensures Pieces(t) == LineFeed(t.before) + ([Bare(t)] + LineFeed(t.after))
  {
  }

  lemma PrintNote(t: Token)
    requires t.CommentTok? || t.PITok?
    ensures Print(t) == (if t.before then "\n" else "") + Print(Bare(t)) + (if t.after then "\n" else "")
  {
    hide Escape;
    var first, last := if t.before then "\n" else "", if t.after then "\n" else "";
    match t
    case CommentTok(_, content, _) => Around(first, "<!--", Escape(content, CommentMode), "-->", last);
    case PITok(_, target, content, _) =>
      var value := if content != "" then " " + Escape(content, PIMode) else "";
      Assoc(first + "<?", target, value);
      Assoc("" + "<?", target, value);
      Around(first, "<?", target + value, "?>", last);
  }

  lemma Around(first: string, open: string, content: string, close: string, last: string)
    ensures first + open + content + close + last == first + ("" + open + content + close + "") + last
  {
    var inner := open + content + close;
    assert "" + open + content + close + "" == inner;
    Assoc(first + open, content, close);
    Assoc(first, open, content + close);
    Assoc(open, content, close);
  }

  lemma EndTagReads(refs: map<string, char>, prefix: string, name: string, more: string)
    requires LegalQName(prefix, name)
    ensures ReadText(refs, Print(Close(prefix, name)) + more) == Add([Close(prefix, name)], ReadText(refs, more))
  {
    hide QName, Qualify, RefsOk, LegalName;
    var n := QName(prefix, name);
    QualifyQName(prefix, name);
    var text := Print(Close(prefix, name)) + more;
    assert text == "</" + n + ">" + more;
    assert text[2..|n| + 2] == n && text[|n| + 2] == '>' && text[|n| + 3..] == more;
    assert forall i :: 2 <= i < |n| + 2 ==> text[i] == n[i - 2] && text[i] != '>';
    assert IndexOf(text, '>') == |n| + 2;
  }

  // ----- Sequences of tokens that are XML -----

  /** How many declarations and attributes come first. */
  function TagLength(ts: seq<Token>): (k: nat)
    ensures k <= |ts| && forall i :: 0 <= i < k ==> ts[i].Decl? || ts[i].Attribute?
    ensures k < |ts| ==> !ts[k].Decl? && !ts[k].Attribute?
  {
    if ts == [] || !(ts[0].Decl? || ts[0].Attribute?) then 0 else 1 + TagLength(ts[1..])
  }

  /** Tokens that stand outside start tags. */
  ghost predicate Single(t: Token) {
    t.Chars? || (t.Close? && LegalQName(t.prefix, t.name)) || LegalNote(t)
  }

  /** Complete start tags with legal names, end tags, character data, comments and instructions, in any order. */
  ghost predicate Shaped(ts: seq<Token>)
    decreases |ts|
  {
    ts != [] ==>
      match ts[0]
      case Open(prefix, name) =>
        var k := TagLength(ts[1..]);
        && LegalQName(prefix, name) && k < |ts| - 1 && ts[k + 1] == Gt && AllLegal(ts[1..k + 1]) && Shaped(ts[k + 2..])
      case _ => Single(ts[0]) && Shaped(ts[1..])
  }

  ghost predicate AllPlain(ts: seq<Token>) {
    forall t :: t in ts ==> PlainToken(t)
  }

  lemma PlainAppend(a: seq<Token>, b: seq<Token>)
    ensures AllPlain(a + b) <==> AllPlain(a) && AllPlain(b)
  {
    assert forall t :: t in a + b <==> t in a || t in b;
  }

  lemma TagReads(refs: map<string, char>, prefix: string, name: string, us: seq<Token>, more: string)
    requires RefsOk(refs) && LegalQName(prefix, name) && AllLegal(us)
    ensures var tag := [Open(prefix, name)] + us + [Gt];
            var r, rest := ReadText(refs, PrintAll(tag) + more), ReadText(refs, more);
            if AllPlain(us) then r == Add(tag, rest)
            else r.None? || exists other: seq<Token> :: |other| == |tag| && other != tag && r == Add(other, rest)
  {
    hide PrintAll, ReadTag, RefsOk, PlainToken, LegalToken;
    var tag := [Open(prefix, name)] + us + [Gt];
    TagReadsIff(refs, prefix, name, us, more);
    TagText(prefix, name, us, more);
    var text := PrintAll(tag) + more;
    QNameHead(prefix, name);
    assert text[0] == '<' && text[1] == QName(prefix, name)[0];
  }

  lemma QNameHead(prefix: string, name: string)
    requires LegalQName(prefix, name)
    ensures var n := QName(prefix, name); n != "" && n[0] != '/' && n[0] != '!' && n[0] != '?'
  {
  }

  lemma TagApart(tag: seq<Token>, other: seq<Token>, a: seq<Token>, b: seq<Token>)
    requires |tag| == |other|
    ensures tag + a == other + b <==> tag == other && a == b
  {
    if tag + a == other + b {
      assert (tag + a)[..|tag|] == tag && (other + b)[..|tag|] == other;
      assert (tag + a)[|tag|..] == a && (other + b)[|tag|..] == b;
    }
  }

  lemma ExplodeTag(prefix: string, name: string, us: seq<Token>, rest: seq<Token>)
    requires AllLegal(us)
    ensures Explode([Open(prefix, name)] + us + [Gt] + rest) == [Open(prefix, name)] + us + [Gt] + Explode(rest)
  {
    hide LegalToken, Explode;
    var tag := [Open(prefix, name)] + us + [Gt];
    NoPieces(us);
    forall t | t in tag ensures Pieces(t) == [t] {
      assert t in us || t == Gt || t == Open(prefix, name);
    }
    ExplodeAll(tag, rest);
  }

  lemma NoPieces(us: seq<Token>)
    requires AllLegal(us)
    ensures forall t :: t in us ==> Pieces(t) == [t]
  {
  }

  lemma ExplodeOne(t: Token, rest: seq<Token>)
    ensures Explode([t] + rest) == Pieces(t) + Explode(rest)
  {
    assert ([t] + rest)[1..] == rest;
  }

  lemma {:induction false} ExplodeAll(us: seq<Token>, rest: seq<Token>)
    requires forall t :: t in us ==> Pieces(t) == [t]
    ensures Explode(us + rest) == us + Explode(rest)
  {
    hide Explode, Pieces;
    if us == [] {
      assert us + rest == rest && us + Explode(rest) == Explode(rest);
    } else {
      var t, tail := us[0], us[1..];
      assert us == [t] + tail;
      Assoc([t], tail, rest);
      ExplodeOne(t, tail + rest);
      ExplodeAll(tail, rest);
      Assoc([t], tail, Explode(rest));
    }
  }

  /** The first start tag of a token sequence. */
  lemma TagOnTop(ts: seq<Token>) returns (us: seq<Token>, rest: seq<Token>)
    requires Shaped(ts) && ts != [] && ts[0].Open?
    ensures ts == [ts[0]] + us + [Gt] + rest && AllLegal(us) && LegalQName(ts[0].prefix, ts[0].name) && Shaped(rest)
            && |rest| < |ts|
  {
    hide LegalToken, LegalQName;
    var k := TagLength(ts[1..]);
    us, rest := ts[1..k + 1], ts[k + 2..];
  }

  /** One token, then the rest: both sides of the theorem say the same of the token. */
  ghost predicate ReadsExactly(refs: map<string, char>, ts: seq<Token>) {
    ReadText(refs, PrintAll(ts)) == Some(Explode(ts)) <==> AllPlain(ts)
  }

  lemma OneMore(refs: map<string, char>, t: Token, rest: seq<Token>, got: seq<Token>)
    requires ReadsExactly(refs, rest) && |got| == |Pieces(t)| && (got == Pieces(t) <==> PlainToken(t))
    requires ReadText(refs, Print(t) + PrintAll(rest)) == Add(got, ReadText(refs, PrintAll(rest)))
    ensures ReadsExactly(refs, [t] + rest)
  {
    hide ReadText, Print, Explode, Pieces, PlainToken;
    assert ([t] + rest)[1..] == rest;
    assert PrintAll([t] + rest) == Print(t) + PrintAll(rest);
    ExplodeOne(t, rest);
    PlainAppend([t], rest);
    var r := ReadText(refs, PrintAll(rest));
    if r.Some? { TagApart(got, Pieces(t), r.value, Explode(rest)); }
  }

  lemma TagMore(refs: map<string, char>, prefix: string, name: string, us: seq<Token>, rest: seq<Token>)
    requires RefsOk(refs) && LegalQName(prefix, name) && AllLegal(us) && ReadsExactly(refs, rest)
    ensures ReadsExactly(refs, [Open(prefix, name)] + us + [Gt] + rest)
  {
    hide ReadText, PrintAll, Explode, PlainToken, LegalToken, LegalQName, RefsOk;
    var tag := [Open(prefix, name)] + us + [Gt];
    PrintAppend(tag, rest);
    TagReads(refs, prefix, name, us, PrintAll(rest));
    ExplodeTag(prefix, name, us, rest);
    PlainAppend(tag, rest);
    PlainAppend([Open(prefix, name)] + us, [Gt]);
    PlainAppend([Open(prefix, name)], us);
    PlainEnds(prefix, name);
    var r := ReadText(refs, PrintAll(rest));
    var whole := ReadText(refs, PrintAll(tag) + PrintAll(rest));
    if r.Some? {
      TagApart(tag, tag, r.value, Explode(rest));
      if !AllPlain(us) && whole.Some? {
        var other: seq<Token> :| |other| == |tag| && other != tag && whole == Add(other, r);
        TagApart(tag, other, Explode(rest), r.value);
      }
    }
  }

  lemma PlainEnds(prefix: string, name: string)
    ensures AllPlain([Open(prefix, name)]) && AllPlain([Gt])
  {
  }

  /**
    The text of a sequence of tags, character data, comments and processing instructions reads
    back as the tokens it was printed from if and only if every namespace URI it declares has plain
    characters only and no comment or processing instruction has a carriage return.
   */
  lemma {:induction false} TextReadsIff(refs: map<string, char>, ts: seq<Token>)
    requires RefsOk(refs) && Shaped(ts)
    ensures ReadText(refs, PrintAll(ts)) == Some(Explode(ts)) <==> AllPlain(ts)
    decreases |ts|
  {
    if ts == [] {
    } else if ts[0].Open? {
      hide Shaped, RefsOk;
      var us, rest := TagOnTop(ts);
      TextReadsIff(refs, rest);
      TagMore(refs, ts[0].prefix, ts[0].name, us, rest);
    } else {
      var t, rest := ts[0], ts[1..];
      assert ts == [t] + rest;
      assert Shaped(rest) && Single(t);
      hide ReadText, Shaped, RefsOk, LegalNote, LegalQName, Letters;
      TextReadsIff(refs, rest);
      var got := Pieces(t);
      if t.Chars? {
        CharsRead(refs, t.content, PrintAll(rest));
      } else if t.Close? {
        EndTagReads(refs, t.prefix, t.name, PrintAll(rest));
      } else {
        got := NoteReads(refs, t, PrintAll(rest));
      }
      OneMore(refs, t, rest, got);
    }
  }

  lemma {:induction false} TagLengthIs(us: seq<Token>, rest: seq<Token>)
    requires AllLegal(us)
    ensures TagLength(us + [Gt] + rest) == |us|
  {
    hide LegalName, LegalQName;
    if us == [] {
      assert us + [Gt] + rest == [Gt] + rest;
    } else {
      assert us[0] in us;
      assert (us + [Gt] + rest)[0] == us[0] && (us + [Gt] + rest)[1..] == us[1..] + [Gt] + rest;
      TagLengthIs(us[1..], rest);
    }
  }

  lemma ShapedTag(prefix: string, name: string, us: seq<Token>, rest: seq<Token>)
    requires LegalQName(prefix, name) && AllLegal(us) && Shaped(rest)
    ensures Shaped([Open(prefix, name)] + us + [Gt] + rest)
  {
    hide LegalQName, LegalToken, TagLength;
    var ts := [Open(prefix, name)] + us + [Gt] + rest;
    assert ts[1..] == us + [Gt] + rest;
    TagLengthIs(us, rest);
    assert ts[1..|us| + 1] == us && ts[|us| + 1] == Gt && ts[|us| + 2..] == rest;
  }

  lemma ShapedOne(t: Token, rest: seq<Token>)
    requires Single(t) && Shaped(rest)
    ensures Shaped([t] + rest)
  {
    assert ([t] + rest)[1..] == rest;
  }

  lemma {:induction false} ShapedAppend(a: seq<Token>, b: seq<Token>)
    requires Shaped(a) && Shaped(b)
    ensures Shaped(a + b)
    decreases |a|
  {
    if a == [] {
      assert a + b == b;
    } else if a[0].Open? {
      hide Shaped, LegalQName;
      var us, rest := TagOnTop(a);
      ShapedAppend(rest, b);
      ShapedTag(a[0].prefix, a[0].name, us, rest + b);
      Assoc([a[0]] + us + [Gt], rest, b);
    } else {
      var t, rest := a[0], a[1..];
      assert Shaped(rest) && Single(t);
      hide Shaped, Single;
      assert a == [t] + rest;
      ShapedAppend(rest, b);
      ShapedOne(t, rest + b);
      Assoc([t], rest, b);
    }
  }

  lemma NothingShaped()
    ensures Shaped([])
  {
  }

  // ----- What the text says -----

  /** Character data, comments and instructions change nothing about the tags. */
  lemma {:induction false} Unread(ts: seq<Token>, r: Reader)
    requires forall t :: t in ts ==> t.Chars? || t.CommentTok? || t.PITok?
    ensures Read(ts, r) == Reading(r, [])
  {
    if ts != [] {
      assert ts[0] in ts && forall t :: t in ts[1..] ==> t in ts;
      Unread(ts[1..], r);
    }
  }

  lemma {:induction false} LettersAreChars(s: string)
    ensures forall t :: t in Letters(s) ==> t.Chars?
  {
    if s != "" { LettersAreChars(s[1..]); }
  }

  lemma PiecesUnread(t: Token, r: Reader)
    ensures Read(Pieces(t), r) == Read([t], r)
  {
    hide Read, Letters;
    if t.Chars? { LettersAreChars(t.content); }
    if t.Chars? || t.CommentTok? || t.PITok? {
      Unread(Pieces(t), r);
      Unread([t], r);
    }
  }

  /** Taking character data and line feeds apart changes nothing about the tags. */
  lemma {:induction false} ReadExploded(ts: seq<Token>, r: Reader)
    ensures Read(Explode(ts), r) == Read(ts, r)
  {
    hide Read, Pieces;
    if ts != [] {
      var t, rest := ts[0], ts[1..];
      assert ts == [t] + rest;
      PiecesUnread(t, r);
      ReadAppend(Pieces(t), Explode(rest), r);
      ReadAppend([t], rest, r);
      ReadExploded(rest, Read([t], r).reader);
    }
  }
}
