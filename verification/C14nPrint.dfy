/**
  The text of the tokens: what xmlC14NPrintNamespaces, xmlC14NPrintAttrs and
  xmlC14NProcessElementNode write to the output buffer.
 */
module C14nPrint {
  import opened C14nTree
  import opened C14nEscape

  function QName(prefix: string, name: string): string {
    if prefix != "" then prefix + ":" + name else name
  }

  function ReplaceQuotes(s: string): string {
    if s == "" then "" else (if s[0] == '"' then "&quot;" else [s[0]]) + ReplaceQuotes(s[1..])
  }

  /** xmlBufWriteQuotedString: double quotes unless the string has some and no single ones. */
  function Quoted(s: string): string {
    if '"' in s then
      if '\'' in s then "\"" + ReplaceQuotes(s) + "\"" else "'" + s + "'"
    else "\"" + s + "\""
  }

  /**
    A URI stands between double quotes, or between single ones if only double ones occur in it.
    If both occur, the double ones inside are replaced, and nothing else is.
   */
  lemma {:induction false} QuotedIs(s: string)
    ensures '"' !in s || '\'' in s ==> Quoted(s) == "\"" + ReplaceQuotes(s) + "\""
    ensures '"' in s && '\'' !in s ==> Quoted(s) == "'" + s + "'"
    ensures '"' !in ReplaceQuotes(s) && (ReplaceQuotes(s) == s <==> '"' !in s) && |ReplaceQuotes(s)| >= |s|
  {
    if s != "" {
      QuotedIs(s[1..]);
      assert s == [s[0]] + s[1..];
      if s[0] != '"' {
        assert ReplaceQuotes(s)[1..] == ReplaceQuotes(s[1..]);
      }
    }
  }

  function Print(t: Token): string {
    match t
    case Open(prefix, name) => "<" + QName(prefix, name)
    case Decl(ns) => (if ns.prefix != "" then " xmlns:" + ns.prefix + "=" else " xmlns=") + Quoted(ns.href)
    case Attribute(prefix, name, value) => " " + QName(prefix, name) + "=\"" + Escape(value, AttrMode) + "\""
    case Gt => ">"
    case Chars(content) => Escape(content, TextMode)
    case CommentTok(before, content, after) =>
      (if before then "\n" else "") + "<!--" + Escape(content, CommentMode) + "-->" + (if after then "\n" else "")
    case PITok(before, target, content, after) =>
      (if before then "\n" else "") + "<?" + target
      + (if content != "" then " " + Escape(content, PIMode) else "") + "?>" + (if after then "\n" else "")
    case Close(prefix, name) => "</" + QName(prefix, name) + ">"
  }

  function PrintAll(ts: seq<Token>): string {
    if ts == [] then "" else Print(ts[0]) + PrintAll(ts[1..])
  }

  lemma {:induction false} PrintAppend(a: seq<Token>, b: seq<Token>)
    ensures PrintAll(a + b) == PrintAll(a) + PrintAll(b)
  {
    if a == [] {
      assert a + b == b;
    } else {
      assert (a + b)[1..] == a[1..] + b;
      PrintAppend(a[1..], b);
    }
  }

  lemma PrintOne(t: Token)
    ensures PrintAll([t]) == Print(t)
  {
  }
}
