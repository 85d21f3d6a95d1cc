/**
  Public identifiers in XML catalogs: normalization (OASIS XML Catalogs, section 6.2) and the
  publicid URN namespace (section 6.4).
 */
module CatalogNames {
  import opened Ordering

  predicate IsBlank(c: char) {
    c == ' ' || c == '\t' || c == '\n' || c == '\r'
  }

  // ----- Normalization -----

  /** The copying loop: `pending` says a blank is owed, `any` that something was written. */
  function Squeeze(p: string, pending: bool, any: bool): string {
    if p == "" then ""
    else if IsBlank(p[0]) then Squeeze(p[1..], any, any)
    else (if pending then " " else "") + [p[0]] + Squeeze(p[1..], false, true)
  }

  function Normalize(p: string): string {
    Squeeze(p, false, false)
  }

  /** White space, production 3 of XML 1.0. */
  predicate IsSpace(c: char) {
    var n := c as int;
    n == 0x20 || n == 0x9 || n == 0xD || n == 0xA
  }

  /** No white space but single spaces between other characters. */
  predicate IsNormalized(p: string) {
    p != "" && forall i :: 0 <= i < |p| && IsSpace(p[i]) ==> p[i] == ' ' && 0 < i < |p| - 1 && !IsSpace(p[i + 1])
  }

  /** The blank-separated words of a string; `w` is the word being read. */
  function Words(w: string, p: string): seq<string>
    decreases p
  {
    if p == "" then (if w == "" then [] else [w])
    else if IsSpace(p[0]) then (if w == "" then [] else [w]) + Words("", p[1..])
    else Words(w + [p[0]], p[1..])
  }

  lemma {:induction false} SqueezeWords(w: string, p: string, pending: bool)
    requires pending ==> w != ""
    ensures Words(w, Squeeze(p, pending, w != "")) == if pending then [w] + Words("", p) else Words(w, p)
    decreases p
  {
    if p != "" {
      hide Words;
      var t := p[1..];
      var s := Squeeze(t, false, true);
      assert p == [p[0]] + t;
      if IsBlank(p[0]) {
        SqueezeWords(w, t, w != "");
        WordsBlank(w, p[0], t);
      } else if pending {
        assert Squeeze(p, pending, w != "") == [' '] + ([p[0]] + s);
        SqueezeWords([p[0]], t, false);
        WordsBlank(w, ' ', [p[0]] + s);
        WordsOther("", p[0], s);
        WordsOther("", p[0], t);
        assert "" + [p[0]] == [p[0]];
      } else {
        SqueezeWords(w + [p[0]], t, false);
        WordsOther(w, p[0], s);
        WordsOther(w, p[0], t);
        assert Squeeze(p, pending, w != "") == [p[0]] + s;
      }
    }
  }

  lemma WordsBlank(w: string, c: char, t: string)
    requires IsBlank(c)
    ensures Words(w, [c] + t) == if w == "" then Words("", t) else [w] + Words("", t)
  {
    assert ([c] + t)[1..] == t;
    assert [] + Words("", t) == Words("", t);
  }

  lemma WordsOther(w: string, c: char, t: string)
    requires !IsBlank(c)
    ensures Words(w, [c] + t) == Words(w + [c], t)
  {
    assert ([c] + t)[1..] == t;
  }

  /** A word character in front of what may follow one. */
  lemma WordFirst(c: char, s: string)
    requires !IsSpace(c) && (s == "" || IsNormalized("x" + s))
    ensures IsNormalized([c] + s)
  {
    var r, x := [c] + s, "x" + s;
    assert forall i :: 1 <= i < |r| ==> r[i] == x[i];
  }

  /** A normalized string may follow a word character. */
  lemma AfterWord(r: string)
    requires IsNormalized(r)
    ensures IsNormalized("x" + r)
  {
    var x := "x" + r;
    assert forall i :: 1 <= i < |x| ==> x[i] == r[i - 1];
    assert !IsSpace(r[0]);
  }

  /** So may a space and a normalized string. */
  lemma AfterSpace(r: string)
    requires IsNormalized(r)
    ensures IsNormalized("x" + (" " + r))
  {
    var x := "x" + (" " + r);
    assert forall i :: 2 <= i < |x| ==> x[i] == r[i - 2];
    assert !IsSpace(r[0]) && x[1] == ' ' && x[2] == r[0];
  }

  lemma {:induction false} SqueezeShape(p: string, pending: bool, any: bool)
    requires pending ==> any
    ensures var r := Squeeze(p, pending, any);
            && (r != "" && pending ==> |r| > 1 && r[0] == ' ' && IsNormalized(r[1..]))
            && (r != "" && !pending ==> if any then IsNormalized("x" + r) else IsNormalized(r))
    decreases p
  {
    hide IsNormalized, IsSpace;
    if p != "" {
      BlankIsSpace(p[0]);
      if IsBlank(p[0]) {
        SqueezeShape(p[1..], any, any);
        var r := Squeeze(p[1..], any, any);
        if r != "" && any && !pending {
          AfterSpace(r[1..]);
          assert r == " " + r[1..];
        }
      } else {
        SqueezeShape(p[1..], false, true);
        var s := Squeeze(p[1..], false, true);
        var r := [p[0]] + s;
        WordFirst(p[0], s);
        AfterWord(r);
        assert Squeeze(p, pending, any) == (if pending then " " else "") + r;
        assert (" " + r)[1..] == r && "" + r == r;
      }
    }
  }

  lemma BlankIsSpace(c: char)
    ensures IsBlank(c) <==> IsSpace(c)
  {
  }

  /** Normalization keeps the words, and leaves single spaces between them and nothing around. */
  lemma NormalizeCorrect(p: string)
    ensures Words("", Normalize(p)) == Words("", p)
    ensures Normalize(p) == "" || IsNormalized(Normalize(p))
  {
    SqueezeWords("", p, false);
    SqueezeShape(p, false, false);
  }

  lemma {:induction false} SqueezeNormalized(p: string, any: bool)
    requires p == "" || (if any then IsNormalized("x" + p) else IsNormalized(p))
    ensures Squeeze(p, false, any) == p
    decreases |p|
  {
    if p != "" {
      assert any ==> ("x" + p)[1] == p[0];
      if IsBlank(p[0]) {
        var t := p[2..];
        var x := "x" + p;
        assert x[2] == p[1] && |p| > 1 && !IsBlank(p[1]);
        assert p[1..][0] == p[1] && p[1..][1..] == t;
        if t != "" {
          assert forall i :: 1 <= i < |"x" + t| ==> ("x" + t)[i] == x[i + 2];
        }
        SqueezeNormalized(t, true);
        assert p == [' ', p[1]] + t;
      } else {
        var t := p[1..];
        if t != "" {
          var x := "x" + t;
          var y := if any then "x" + p else p;
          assert forall i :: 1 <= i < |x| ==> x[i] == y[i + (if any then 1 else 0)];
        }
        SqueezeNormalized(t, true);
        assert p == [p[0]] + t;
      }
    }
  }

  /** A nonempty identifier is left alone exactly when it is normalized; normalizing twice is normalizing once. */
  lemma NormalizeFixed(p: string)
    ensures p != "" ==> (Normalize(p) == p <==> IsNormalized(p))
    ensures Normalize(Normalize(p)) == Normalize(p)
  {
    NormalizeCorrect(p);
    if IsNormalized(p) { SqueezeNormalized(p, false); }
    SqueezeNormalized(Normalize(p), false);
  }

  /**
    xmlCatalogNormalizePublic: None for an identifier that is already normalized, otherwise the
    normalized copy, written over a copy of the input from the left.
   */
  method NormalizePublic(pubId: string) returns (r: Option<string>)
    ensures r == if IsNormalized(pubId) then None else Some(Normalize(pubId))
  {
    var ok := IsAlreadyNormalized(pubId);
    if ok { return None; }
    var ret := new char[|pubId|](i requires 0 <= i < |pubId| => pubId[i]);
    var q: nat, white, p: nat := 0, false, 0;
    assert pubId[0..] == pubId;
    while p < |pubId|
      invariant q + (if white then 1 else 0) <= p <= |pubId| && (white ==> q > 0)
      invariant ret[..q] + Squeeze(pubId[p..], white, q > 0) == Normalize(pubId)
    {
      ghost var done, rest := ret[..q], pubId[p..];
      assert rest[1..] == pubId[p + 1..];
      if IsBlank(pubId[p]) {
        if q != 0 { white := true; }
      } else {
        ghost var s := Squeeze(pubId[p + 1..], false, true);
        assert done + ((if white then " " else "") + [pubId[p]] + s)
               == done + (if white then " " else "") + [pubId[p]] + s;
        if white {
          ret[q] := ' ';
          q := q + 1;
          white := false;
        }
        assert ret[..q] == done + (if q > |done| then " " else "");
        ghost var done' := ret[..q];
        ret[q] := pubId[p];
        q := q + 1;
        assert ret[..q] == done' + [pubId[p]];
      }
      p := p + 1;
    }
    assert pubId[p..] == "";
    assert ret[..q] + "" == ret[..q];
    r := Some(ret[..q]);
  }

  /** A blank here, if any, is a space after another character. */
  predicate SpaceAfterWord(p: string, i: nat)
    requires i < |p|
  {
    IsBlank(p[i]) ==> p[i] == ' ' && 0 < i && !IsBlank(p[i - 1])
  }

  lemma NormalizedByLookingBack(p: string)
    ensures IsNormalized(p) <==> p != "" && !IsBlank(p[|p| - 1]) && forall i :: 0 <= i < |p| ==> SpaceAfterWord(p, i)
  {
    if p != "" && !IsBlank(p[|p| - 1]) && forall i :: 0 <= i < |p| ==> SpaceAfterWord(p, i) {
      forall i | 0 <= i < |p| && IsBlank(p[i]) ensures p[i] == ' ' && 0 < i < |p| - 1 && !IsBlank(p[i + 1]) {
        assert SpaceAfterWord(p, i) && SpaceAfterWord(p, i + 1);
      }
    }
  }

  /** The first loop of xmlCatalogNormalizePublic. */
  method IsAlreadyNormalized(pubId: string) returns (normalized: bool)
    ensures normalized == IsNormalized(pubId)
  {
    var white, ok, p := true, true, 0;
    while p < |pubId| && ok
      invariant p <= |pubId|
      invariant ok ==> white == (p == 0 || IsBlank(pubId[p - 1]))
      invariant ok <==> forall i :: 0 <= i < p ==> SpaceAfterWord(pubId, i)
    {
      if !IsBlank(pubId[p]) {
        white := false;
      } else if pubId[p] == ' ' && !white {
        white := true;
      } else {
        ok := false;
      }
      assert ok <==> SpaceAfterWord(pubId, p);
      p := p + 1;
    }
    normalized := ok && !white;
    NormalizedByLookingBack(pubId);
  }

  // ----- The publicid URN namespace -----

  const URN_PUBID := "urn:publicid:"

  predicate IsUrn(s: string) {
    URN_PUBID <= s
  }

  /** One step of reading a URN: what is written, and how many characters are consumed. */
  datatype Step = Step(text: string, used: nat)

  function Decode(hex: string): Option<char> {
    if hex == "2B" then Some('+') else if hex == "3A" then Some(':') else if hex == "2F" then Some('/')
    else if hex == "3B" then Some(';') else if hex == "27" then Some('\'') else if hex == "3F" then Some('?')
    else if hex == "23" then Some('#') else if hex == "25" then Some('%') else None
  }

  function ReadStep(u: string): (r: Step)
    requires u != ""
    ensures 1 <= r.used <= |u| && 1 <= |r.text| <= 2
  {
    if u[0] == '+' then Step(" ", 1)
    else if u[0] == ':' then Step("//", 1)
    else if u[0] == ';' then Step("::", 1)
    else if u[0] == '%' && |u| >= 3 && Decode(u[1..3]).Some? then Step([Decode(u[1..3]).value], 3)
    else Step([u[0]], 1)
  }

  const BUFFER_SIZE := 2000

  /** The loop of xmlCatalogUnWrapURN once `i` characters are written; it stops near the end of the buffer. */
  function UnwrapFrom(u: string, i: nat): string
    decreases |u|
  {
    if u == "" || i > BUFFER_SIZE - 4 then ""
    else
      var s := ReadStep(u);
      s.text + UnwrapFrom(u[s.used..], i + |s.text|)
  }

  function Unwrap(urn: string): Option<string> {
    if IsUrn(urn) then Some(UnwrapFrom(urn[|URN_PUBID|..], 0)) else None
  }

  /** xmlCatalogUnWrapURN, over its buffer of 2000 characters; every write is inside it. */
  method UnWrapURN(urn: string) returns (r: Option<string>)
    ensures r == Unwrap(urn)
  {
    if !IsUrn(urn) { return None; }
    var result := new char[BUFFER_SIZE];
    var u := urn[|URN_PUBID|..];
    ghost var total := UnwrapFrom(u, 0);
    var i: nat := 0;
    while u != ""
      invariant i <= BUFFER_SIZE - 2 && result[..i] + UnwrapFrom(u, i) == total
      decreases |u|
    {
      if i > BUFFER_SIZE - 4 { break; }
      var s := ReadStep(u);
      ghost var done, rest := result[..i], UnwrapFrom(u[s.used..], i + |s.text|);
      assert done + (s.text + rest) == done + s.text + rest;
      i := Emit(result, i, s.text);
      u := u[s.used..];
    }
    assert UnwrapFrom(u, i) == "";
    assert result[..i] + "" == result[..i];
    ghost var done := result[..i];
    result[i] := '\0';
    assert result[..i] == done;
    r := Some(result[..i]);
  }

  method Emit(result: array<char>, i: nat, text: string) returns (end: nat)
    requires i + |text| <= result.Length && 1 <= |text| <= 2
    modifies result
    ensures end == i + |text| && result[..end] == old(result[..i]) + text
  {
    result[i] := text[0];
    if |text| == 2 { result[i + 1] := text[1]; }
    end := i + |text|;
  }

  // ----- Transcription and its inverse -----

  /** One step of writing a public identifier as a URN (section 6.4). */
  function WriteStep(p: string): (r: Step)
    requires p != ""
    ensures 1 <= r.used <= 2 && r.used <= |p| && r.text != ""
  {
    if p[0] == ' ' then Step("+", 1)
    else if "//" <= p then Step(":", 2)
    else if "::" <= p then Step(";", 2)
    else if p[0] == '+' then Step("%2B", 1)
    else if p[0] == ':' then Step("%3A", 1)
    else if p[0] == '/' then Step("%2F", 1)
    else if p[0] == ';' then Step("%3B", 1)
    else if p[0] == '\'' then Step("%27", 1)
    else if p[0] == '?' then Step("%3F", 1)
    else if p[0] == '#' then Step("%23", 1)
    else if p[0] == '%' then Step("%25", 1)
    else Step([p[0]], 1)
  }

  function TranscribeRest(p: string): string
    decreases |p|
  {
    if p == "" then "" else WriteStep(p).text + TranscribeRest(p[WriteStep(p).used..])
  }

  function Transcribe(p: string): string {
    URN_PUBID + TranscribeRest(p)
  }

  lemma ReadAfterWrite(p: string, rest: string)
    requires p != ""
    ensures var w := WriteStep(p);
            ReadStep(w.text + rest) == Step(p[..w.used], |w.text|)
  {
    var w := WriteStep(p);
    var u := w.text + rest;
    assert forall k :: 0 <= k < |w.text| ==> u[k] == w.text[k];
    if |w.text| == 3 {
      assert u[1..3] == w.text[1..3];
    }
    if "//" <= p { assert p[..2] == "//"; }
    if "::" <= p { assert p[..2] == "::"; }
  }

  /** The characters of `p` that come back when `i` are written already. */
  function Survives(p: string, i: nat): string
    decreases |p|
  {
    if p == "" || i > BUFFER_SIZE - 4 then ""
    else p[..WriteStep(p).used] + Survives(p[WriteStep(p).used..], i + WriteStep(p).used)
  }

  lemma {:induction false} UnwrapTranscribed(p: string, i: nat)
    ensures UnwrapFrom(TranscribeRest(p), i) == Survives(p, i)
    decreases |p|
  {
    hide WriteStep, ReadStep;
    if p != "" {
      var w := WriteStep(p);
      var rest := TranscribeRest(p[w.used..]);
      ReadAfterWrite(p, rest);
      assert (w.text + rest)[|w.text|..] == rest;
      UnwrapTranscribed(p[w.used..], i + w.used);
    }
  }

  /** The last step of writing `p` starts here. */
  function LastStart(p: string): nat
    requires p != ""
    decreases |p|
  {
    var w := WriteStep(p);
    if w.used == |p| then 0 else w.used + LastStart(p[w.used..])
  }

  lemma {:induction false} SurvivesIff(p: string, i: nat)
    ensures Survives(p, i) == p <==> p == "" || i + LastStart(p) <= BUFFER_SIZE - 4
    ensures Survives(p, i) <= p
    decreases |p|
  {
    hide WriteStep;
    if p != "" {
      var k := WriteStep(p).used;
      assert p == p[..k] + p[k..];
      SurvivesIff(p[k..], i + k);
      if i <= BUFFER_SIZE - 4 {
        var s := Survives(p[k..], i + k);
        assert Survives(p, i)[k..] == s;
        assert s == p[k..] <==> Survives(p, i) == p;
        if k == |p| { assert p[k..] == ""; }
      }
    }
  }

  lemma {:induction false} LastStartBound(p: string)
    requires p != ""
    ensures |p| - 2 <= LastStart(p) < |p|
    decreases |p|
  {
    var k := WriteStep(p).used;
    if k != |p| { LastStartBound(p[k..]); }
  }

  lemma UnwrapSurvives(p: string)
    ensures Unwrap(Transcribe(p)) == Some(Survives(p, 0))
  {
    hide UnwrapFrom, TranscribeRest, Survives;
    assert Transcribe(p)[|URN_PUBID|..] == TranscribeRest(p);
    UnwrapTranscribed(p, 0);
  }

  /**
    Unwrapping undoes the transcription exactly when the last step of the identifier fits into
    the buffer: for every identifier of at most 1997 characters, and for none above 1998.
   */
  lemma UnwrapInvertsTranscribe(p: string)
    ensures Unwrap(Transcribe(p)) == Some(p) <==> p == "" || LastStart(p) <= 1996
    ensures |p| <= 1997 ==> Unwrap(Transcribe(p)) == Some(p)
    ensures |p| > 1998 ==> Unwrap(Transcribe(p)) != Some(p)
    ensures Unwrap(Transcribe(p)).Some? && Unwrap(Transcribe(p)).value <= p
  {
    hide Unwrap, Transcribe, Survives, LastStart;
    UnwrapSurvives(p);
    SurvivesIff(p, 0);
    if p != "" { LastStartBound(p); }
  }

  // ----- What is left alone -----

  /** The eight characters that have an escape, in the order of section 6.4. */
  const ESCAPES := ["2B", "3A", "2F", "3B", "27", "3F", "23", "25"]

  /** Nothing at this place of a URN stands for something else. */
  predicate Itself(u: string, k: nat)
    requires k < |u|
  {
    u[k] !in "+:;" && (u[k] == '%' && k + 3 <= |u| ==> u[k + 1..k + 3] !in ESCAPES)
  }

  lemma ItselfRead(u: string)
    requires u != "" && Itself(u, 0)
    ensures ReadStep(u) == Step([u[0]], 1)
  {
    if |u| >= 3 {
      var hex := u[1..3];
      assert hex == u[0 + 1..0 + 3];
      assert u[0] == '%' ==> forall k :: 0 <= k < |ESCAPES| ==> ESCAPES[k] != hex;
    }
  }

  lemma ItselfTail(u: string, k: nat)
    requires k + 1 < |u| && Itself(u, k + 1)
    ensures Itself(u[1..], k)
  {
    if k + 3 <= |u[1..]| { assert u[1..][k + 1..k + 3] == u[k + 2..k + 4]; }
  }

  /** A URN without signs that stand for something else is read as it is, up to 1997 characters. */
  lemma {:induction false} UnwrapLeaves(u: string, i: nat)
    requires i <= 1997 && forall k :: 0 <= k < |u| ==> Itself(u, k)
    ensures UnwrapFrom(u, i) == if i + |u| <= 1997 then u else u[..1997 - i]
    decreases |u|
  {
    hide ReadStep, Itself;
    if u != "" && i < 1997 {
      var t := u[1..];
      ItselfRead(u);
      forall k | 0 <= k < |t| ensures Itself(t, k) { ItselfTail(u, k); }
      UnwrapLeaves(t, i + 1);
      assert u == [u[0]] + t;
    }
  }

  lemma UrnLeaves(u: string)
    requires forall k :: 0 <= k < |u| ==> Itself(u, k)
    ensures Unwrap("urn:publicid:" + u) == Some(if |u| <= 1997 then u else u[..1997])
  {
    hide UnwrapFrom, Itself;
    assert ("urn:publicid:" + u)[|URN_PUBID|..] == u;
    UnwrapLeaves(u, 0);
  }

  // ----- Nested URNs come to an end -----

  function Percents(s: string): nat {
    if s == "" then 0 else (if s[0] == '%' then 1 else 0) + Percents(s[1..])
  }

  /** How many more times an identifier can be unwrapped, at most. */
  function Weight(s: string): nat {
    if IsUrn(s) then 1 + Percents(s) else 0
  }

  /** Every colon belongs to a pair. */
  predicate ColonsPaired(s: string)
    decreases |s|
  {
    if s == "" then true
    else if s[0] == ':' then |s| > 1 && s[1] == ':' && ColonsPaired(s[2..])
    else ColonsPaired(s[1..])
  }

  lemma UrnColons(s: string)
    requires IsUrn(s)
    ensures !ColonsPaired(s)
  {
    assert s[0] == 'u' && s[1] == 'r' && s[2] == 'n' && s[3] == ':' && s[4] == 'p';
    assert !ColonsPaired(s[3..]);
    assert s[2..][1..] == s[3..];
    assert !ColonsPaired(s[2..]);
    assert s[1..][1..] == s[2..];
    assert !ColonsPaired(s[1..]);
  }

  lemma {:induction false} PercentsAppend(a: string, b: string)
    ensures Percents(a + b) == Percents(a) + Percents(b)
  {
    if a == "" {
      assert a + b == b;
    } else {
      assert (a + b)[1..] == a[1..] + b;
      PercentsAppend(a[1..], b);
    }
  }

  /** One step of unwrapping never adds a percent sign; it uses one up to write a colon alone. */
  lemma StepPercents(u: string)
    requires u != ""
    ensures var s := ReadStep(u);
            && Percents(s.text) <= Percents(u[..s.used])
            && (Percents(s.text) == Percents(u[..s.used]) ==> s.text == "::" || ':' !in s.text)
  {
    var s := ReadStep(u);
    var v := u[..s.used];
    if s.used == 1 {
      assert v == [u[0]];
      assert s.text[1..] == "" || s.text[1..] == s.text[1..2];
    } else {
      assert v == ['%'] + v[1..];
      assert s.text[1..] == "";
    }
  }

  lemma {:induction false} PairedAppend(text: string, rest: string)
    requires (text == "::" || (':' !in text)) && ColonsPaired(rest)
    ensures ColonsPaired(text + rest)
    decreases text
  {
    if text == "::" {
      assert (text + rest)[2..] == rest;
    } else if text == "" {
      assert text + rest == rest;
    } else {
      assert (text + rest)[1..] == text[1..] + rest;
      PairedAppend(text[1..], rest);
    }
  }

  lemma {:induction false} UnwrapPercents(u: string, i: nat)
    ensures Percents(UnwrapFrom(u, i)) <= Percents(u)
    ensures Percents(UnwrapFrom(u, i)) == Percents(u) ==> ColonsPaired(UnwrapFrom(u, i))
    decreases |u|
  {
    if u != "" && i <= BUFFER_SIZE - 4 {
      var s := ReadStep(u);
      var rest := UnwrapFrom(u[s.used..], i + |s.text|);
      UnwrapPercents(u[s.used..], i + |s.text|);
      StepPercents(u);
      PercentsAppend(s.text, rest);
      PercentsAppend(u[..s.used], u[s.used..]);
      assert u == u[..s.used] + u[s.used..];
      if Percents(UnwrapFrom(u, i)) == Percents(u) { PairedAppend(s.text, rest); }
    }
  }

  lemma {:induction false} SqueezePercents(p: string, pending: bool, any: bool)
    ensures Percents(Squeeze(p, pending, any)) <= Percents(p)
    decreases p
  {
    if p != "" {
      if IsBlank(p[0]) {
        SqueezePercents(p[1..], any, any);
      } else {
        var s := Squeeze(p[1..], false, true);
        SqueezePercents(p[1..], false, true);
        PercentsAppend(if pending then " " else "", [p[0]] + s);
        assert (if pending then " " else "") + [p[0]] + s == (if pending then " " else "") + ([p[0]] + s);
        assert ([p[0]] + s)[1..] == s;
        assert Percents(" ") == 0 by { assert " "[1..] == ""; }
      }
    }
  }

  lemma {:induction false} SqueezePaired(p: string, pending: bool, any: bool)
    requires ColonsPaired(p)
    ensures ColonsPaired(Squeeze(p, pending, any))
    decreases |p|
  {
    if p != "" {
      if IsBlank(p[0]) {
        SqueezePaired(p[1..], any, any);
      } else {
        var gap := if pending then " " else "";
        if p[0] == ':' {
          var s := Squeeze(p[2..], false, true);
          SqueezePaired(p[2..], false, true);
          assert p[1..][0] == ':' && p[1..][1..] == p[2..];
          assert Squeeze(p, pending, any) == gap + ("::" + s);
          PairedAppend("::", s);
          PairedAppend(gap, "::" + s);
        } else {
          var s := Squeeze(p[1..], false, true);
          SqueezePaired(p[1..], false, true);
          assert Squeeze(p, pending, any) == gap + ([p[0]] + s);
          PairedAppend([p[0]], s);
          PairedAppend(gap, [p[0]] + s);
        }
      }
    }
  }

  /** Unwrapping makes an identifier lighter, also when the result is normalized again. */
  lemma UnwrapLighter(s: string)
    requires IsUrn(s)
    ensures Weight(Unwrap(s).value) < Weight(s)
    ensures Weight(Normalize(Unwrap(s).value)) < Weight(s)
  {
    var t := s[|URN_PUBID|..];
    var r := UnwrapFrom(t, 0);
    assert s == URN_PUBID + t;
    PercentsAppend(URN_PUBID, t);
    UnwrapPercents(t, 0);
    SqueezePercents(r, false, false);
    if IsUrn(r) { UrnColons(r); }
    if IsUrn(Normalize(r)) {
      UrnColons(Normalize(r));
      if ColonsPaired(r) { SqueezePaired(r, false, false); }
    }
  }
}
