/**
  xmlC11NNormalizeString: escaping of character data, and the loop over a doubling buffer that
  computes it.
 */
module C14nEscape {

  datatype Mode = AttrMode | CommentMode | PIMode | TextMode

  function EscapeChar(c: char, mode: Mode): string {
    if c == '<' && (mode == AttrMode || mode == TextMode) then "&lt;"
    else if c == '>' && mode == TextMode then "&gt;"
    else if c == '&' && (mode == AttrMode || mode == TextMode) then "&amp;"
    else if c == '"' && mode == AttrMode then "&quot;"
    else if c == '\t' && mode == AttrMode then "&#x9;"
    else if c == '\n' && mode == AttrMode then "&#xA;"
    else if c == '\r' then "&#xD;"
    else [c]
  }

  function Escape(s: string, mode: Mode): string {
    if s == "" then "" else EscapeChar(s[0], mode) + Escape(s[1..], mode)
  }

  const INITIAL_SIZE := 1000

  /**
    The translation loop: before each character the buffer is doubled when fewer than ten cells
    are left, so every write, and the final zero, falls inside it.
   */
  method NormalizeString(input: string, mode: Mode) returns (buffer: array<char>, length: nat)
    ensures fresh(buffer) && length < buffer.Length
    ensures buffer[..length] == Escape(input, mode) && buffer[length] == '\0'
  {
    buffer := new char[INITIAL_SIZE];
    var out: nat, cur: nat := 0, 0;
    assert input[0..] == input;
    while cur < |input|
      invariant cur <= |input| && fresh(buffer)
      invariant INITIAL_SIZE <= buffer.Length && out <= buffer.Length - 4
      invariant buffer[..out] + Escape(input[cur..], mode) == Escape(input, mode)
    {
      if out > buffer.Length - 10 {
        buffer := Grow(buffer, out);
      }
      EscapeStep(buffer[..out], input, cur, mode);
      out := Put(buffer, out, EscapeChar(input[cur], mode));
      cur := cur + 1;
    }
    assert input[cur..] == "";
    length := Terminate(buffer, out);
    assert buffer[..length] + "" == buffer[..length];
  }

  lemma EscapeStep(done: string, input: string, cur: nat, mode: Mode)
    requires cur < |input|
    ensures done + Escape(input[cur..], mode) == done + EscapeChar(input[cur], mode) + Escape(input[cur + 1..], mode)
    ensures |EscapeChar(input[cur], mode)| <= 6
  {
    assert input[cur..][1..] == input[cur + 1..];
  }

  method Terminate(buffer: array<char>, out: nat) returns (length: nat)
    requires out < buffer.Length
    modifies buffer
    ensures length == out && buffer[..out] == old(buffer[..out]) && buffer[out] == '\0'
  {
    buffer[out] := '\0';
    length := out;
  }

  method Grow(buffer: array<char>, out: nat) returns (bigger: array<char>)
    requires out <= buffer.Length
    ensures fresh(bigger) && bigger.Length == 2 * buffer.Length && bigger[..out] == buffer[..out]
  {
    bigger := new char[2 * buffer.Length];
    for i := 0 to buffer.Length
      invariant forall k :: 0 <= k < i ==> bigger[k] == buffer[k]
    {
      bigger[i] := buffer[i];
    }
  }

  method Put(buffer: array<char>, out: nat, e: string) returns (end: nat)
    requires out + |e| <= buffer.Length
    modifies buffer
    ensures end == out + |e| && buffer[..end] == old(buffer[..out]) + e
  {
    end := out;
    while end < out + |e|
      invariant out <= end <= out + |e|
      invariant buffer[..end] == old(buffer[..out]) + e[..end - out]
    {
      buffer[end] := e[end - out];
      end := end + 1;
    }
  }

  // ----- Properties -----

  /** Escaping can be done piece by piece. */
  lemma {:induction false} EscapeAppend(a: string, b: string, mode: Mode)
    ensures Escape(a + b, mode) == Escape(a, mode) + Escape(b, mode)
  {
    if a == "" {
      assert a + b == b;
    } else {
      assert (a + b)[1..] == a[1..] + b;
      EscapeAppend(a[1..], b, mode);
    }
  }

  /** What is not written as it stands: markup, and the blanks an XML processor would change. */
  predicate Special(c: char, mode: Mode) {
    match mode
    case AttrMode => c in {'<', '&', '"', '\t', '\n', '\r'}
    case TextMode => c in {'<', '>', '&', '\r'}
    case _ => c == '\r'
  }

  const HEX_DIGITS := "0123456789ABCDEF"

  /** How it is written: markup by its name, a blank by its number in upper-case hexadecimal. */
  function Reference(c: char): string {
    match c
    case '<' => "&lt;"
    case '>' => "&gt;"
    case '&' => "&amp;"
    case '"' => "&quot;"
    case _ => if c < ' ' && (c as int) < |HEX_DIGITS| then "&#x" + [HEX_DIGITS[c as int]] + ";" else [c]
  }

  /** Section 2.3, character by character: what is special is replaced by its reference, and all else stays. */
  lemma EscapedAt(s: string, i: nat, mode: Mode)
    requires i < |s|
    ensures Escape(s, mode) ==
            Escape(s[..i], mode) + (if Special(s[i], mode) then Reference(s[i]) else [s[i]]) + Escape(s[i + 1..], mode)
  {
    hide Escape;
    assert s == s[..i] + s[i..] && s[i..] == [s[i]] + s[i + 1..];
    EscapeAppend(s[..i], s[i..], mode);
    EscapeAppend([s[i]], s[i + 1..], mode);
    EscapeOne(s[i], mode);
  }

  lemma EscapeOne(c: char, mode: Mode)
    ensures Escape([c], mode) == if Special(c, mode) then Reference(c) else [c]
  {
    assert [c][1..] == "";
    assert EscapeChar(c, mode) + "" == EscapeChar(c, mode);
  }

  /** A string without special characters is its own escape, and no other. */
  lemma {:induction false} EscapeSameIff(s: string, mode: Mode)
    ensures |Escape(s, mode)| >= |s|
    ensures Escape(s, mode) == s <==> forall c :: c in s ==> !Special(c, mode)
  {
    if s != "" {
      EscapeSameIff(s[1..], mode);
      var e := EscapeChar(s[0], mode);
      assert s == [s[0]] + s[1..];
      assert Special(s[0], mode) <==> |e| > 1;
      if Escape(s, mode) == s {
        assert |e| == 1 && e == [s[0]];
        assert Escape(s, mode)[1..] == Escape(s[1..], mode);
      }
    }
  }

  /** The references the escaping can produce. */
  const REFERENCES: map<string, char> :=
    map["&lt;" := '<', "&gt;" := '>', "&amp;" := '&', "&quot;" := '"', "&#x9;" := '\t', "&#xA;" := '\n',
        "&#xD;" := '\r']

  /** Where a character first occurs, or the length of the string. */
  function IndexOf(s: string, c: char): (k: nat)
    ensures k <= |s| && (k < |s| ==> s[k] == c)
    ensures forall i :: 0 <= i < k ==> s[i] != c
  {
    if s == "" || s[0] == c then 0 else 1 + IndexOf(s[1..], c)
  }

  /** What an XML processor reads: a reference runs from an ampersand to the next semicolon. */
  function Expand(s: string): string
    decreases |s|
  {
    if s == "" then ""
    else
      var k := IndexOf(s, ';') + 1;
      if s[0] == '&' && k <= |s| && s[..k] in REFERENCES then [REFERENCES[s[..k]]] + Expand(s[k..])
      else [s[0]] + Expand(s[1..])
  }

  lemma EscapeIsReference(c: char, mode: Mode)
    requires mode == AttrMode || mode == TextMode
    ensures var e := EscapeChar(c, mode);
            if e == [c] then c != '&'
            else |e| > 1 && e[0] == '&' && e[|e| - 1] == ';' && (forall i :: 0 <= i < |e| - 1 ==> e[i] != ';')
                 && e in REFERENCES && REFERENCES[e] == c
  {
  }

  lemma ExpandOne(c: char, mode: Mode, rest: string)
    requires mode == AttrMode || mode == TextMode
    ensures Expand(EscapeChar(c, mode) + rest) == [c] + Expand(rest)
  {
    var e := EscapeChar(c, mode);
    var s := e + rest;
    EscapeIsReference(c, mode);
    assert s[|e|..] == rest && s[..|e|] == e;
    if e != [c] {
      assert s[|e| - 1] == ';';
      assert forall i :: 0 <= i < |e| - 1 ==> s[i] == e[i];
      assert IndexOf(s, ';') == |e| - 1;
    }
  }

  /** In attribute values and text, expanding the references gives the original back. */
  lemma {:induction false} ExpandEscape(s: string, mode: Mode)
    requires mode == AttrMode || mode == TextMode
    ensures Expand(Escape(s, mode)) == s
  {
    if s != "" {
      ExpandOne(s[0], mode, Escape(s[1..], mode));
      ExpandEscape(s[1..], mode);
    }
  }

  /** Nothing in an escaped attribute value ends the value or is touched by value normalization. */
  lemma {:induction false} EscapedAttributeIsSafe(s: string)
    ensures forall c :: c in Escape(s, AttrMode) ==> c != '<' && c != '"' && c != '\t' && c != '\n' && c != '\r'
  {
    if s != "" {
      EscapedAttributeIsSafe(s[1..]);
    }
  }

  /** In comments and processing instructions only carriage returns are replaced, so that is not undone. */
  lemma CommentEscapeLoses(mode: Mode)
    requires mode == CommentMode || mode == PIMode
    ensures Escape("\r", mode) == Escape("&#xD;", mode)
  {
    assert "\r"[1..] == "";
    EscapeAppend("&#", "xD;", mode);
    EscapeAppend("&", "#", mode);
    EscapeAppend("xD", ";", mode);
    EscapeAppend("x", "D", mode);
    assert "&#" + "xD;" == "&#xD;";
    assert "&" + "#" == "&#";
    assert "xD" + ";" == "xD;";
    assert "x" + "D" == "xD";
  }
}
