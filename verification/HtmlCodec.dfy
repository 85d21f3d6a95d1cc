/**
  What the HTML escaping and the attribute reader promise together: escaping is undone by
  reading, and the escaping can be stopped and taken up again anywhere.
 */
module HtmlCodec {
  import opened Ordering
  import opened HtmlEntities

  // ----- The entity table -----

  predicate IsEntityName(name: seq<Byte>) {
    name != [] && IsNameStart(name[0]) && forall i :: 0 <= i < |name| ==> IsNameByte(name[i])
  }

  /** Every row can be found again by its name. */
  ghost predicate Named(table: Table) {
    && (forall e :: e in table ==> IsEntityName(e.name))
    && (forall e, f :: e in table && f in table && e.name == f.name ==> e == f)
  }

  ghost predicate Ascending(table: Table) {
    forall i, j :: 0 <= i < j < |table| ==> table[i].value < table[j].value
  }

  /** The early exit of the lookup by value loses nothing on an ascending table. */
  lemma {:induction false} ByValueFinds(table: Table, c: nat)
    requires Ascending(table)
    ensures ByValue(table, c).Some? <==> exists e :: e in table && e.value == c
  {
    if table != [] && table[0].value < c {
      assert table == [table[0]] + table[1..];
      ByValueFinds(table[1..], c);
    } else if table != [] && table[0].value == c {
      assert table[0] in table;
    }
  }

  /** The lookups by value and by name are inverse to each other. */
  lemma {:induction false} LookupsAgree(table: Table, e: Entity)
    requires Named(table) && Ascending(table) && e in table
    ensures ByName(table, e.name) == Some(e)
    ensures ByValue(table, e.value) == Some(e)
  {
    ByValueFinds(table, e.value);
    var i :| 0 <= i < |table| && table[i] == e;
    var f := ByValue(table, e.value).value;
    var j :| 0 <= j < |table| && table[j] == f;
    assert !(i < j) && !(j < i);
  }

  // ----- UTF-8 -----

  /** One trailing byte takes the value read so far to the next. */
  lemma TrailStep(s: seq<Byte>, i: nat, n: nat, x: nat)
    requires i < n <= |s| && s[i] == 0x80 + x % 0x40
    ensures Trail(s, i, n, x / 0x40) == Trail(s, i + 1, n, x)
  {
    assert s[i] % 0x40 == x % 0x40;
  }

  lemma Halves(c: nat)
    ensures c / 0x40 / 0x40 == c / 0x1000 && c / 0x1000 / 0x40 == c / 0x40000
  {
  }

  lemma Payload(c: nat)
    ensures 0x80 <= c < 0x800 ==> c / 0x40 < 0x20 && (0xC0 + c / 0x40 % 0x20) % 0x20 == c / 0x40
    ensures 0x800 <= c < 0x10000 ==> c / 0x1000 < 0x10 && (0xE0 + c / 0x1000 % 0x10) % 0x10 == c / 0x1000
    ensures 0x10000 <= c < 0x200000 ==> c / 0x40000 < 0x8 && (0xF0 + c / 0x40000 % 0x8) % 0x8 == c / 0x40000
  {
  }

  lemma Utf8Lead(c: nat, s: seq<Byte>)
    requires 0x80 <= c < 0x200000 && |s| >= |Utf8(c)| && s[0] == Utf8(c)[0]
    ensures ReadFront(s) == Trail(s, 1, |Utf8(c)|,
              if c < 0x800 then c / 0x40 else if c < 0x10000 then c / 0x1000 else c / 0x40000)
  {
    Payload(c);
  }

  /** Reading a character from its UTF-8 bytes. */
  lemma Utf8Front(c: nat, rest: seq<Byte>)
    requires c < 0x200000
    ensures ReadFront(Utf8(c) + rest) == Char(c, |Utf8(c)|)
  {
    var u := Utf8(c);
    var s := u + rest;
    assert forall k :: 0 <= k < |u| ==> s[k] == u[k];
    if c >= 0x80 {
      Utf8Lead(c, s);
      Halves(c);
      if c >= 0x10000 { TrailStep(s, 1, 4, c / 0x1000); }
      if c >= 0x800 { TrailStep(s, |u| - 2, |u|, c / 0x40); }
      TrailStep(s, |u| - 1, |u|, c);
    }
  }

  // ----- Numbers -----

  /** The value of a run of decimal digits read after the value `val`. */
  function Fold(ds: seq<Byte>, val: nat): nat
    requires forall i :: 0 <= i < |ds| ==> IsDigit(ds[i])
  {
    if ds == [] then val else assert IsDigit(ds[0]); Fold(ds[1..], val * 10 + ds[0] - 48)
  }

  lemma {:induction false} FoldLast(ds: seq<Byte>, d: Byte, val: nat)
    requires IsDigit(d) && forall i :: 0 <= i < |ds| ==> IsDigit(ds[i])
    ensures Fold(ds + [d], val) == Fold(ds, val) * 10 + d - 48
    decreases |ds|
  {
    if ds == [] {
      assert [] + [d] == [d] && [d][1..] == [];
    } else {
      assert (ds + [d])[1..] == ds[1..] + [d];
      FoldLast(ds[1..], d, val * 10 + ds[0] - 48);
    }
  }

  lemma {:induction false} FoldDecimal(n: nat)
    ensures Fold(Decimal(n), 0) == n
  {
    if n >= 10 {
      FoldDecimal(n / 10);
      FoldLast(Decimal(n / 10), 48 + n % 10, 0);
    } else {
      assert [48 + n][1..] == [];
    }
  }

  /** What stands at a position. */
  predicate Has(s: seq<Byte>, i: nat, part: seq<Byte>) {
    i + |part| <= |s| && s[i..i + |part|] == part
  }

  lemma HasAt(s: seq<Byte>, i: nat, part: seq<Byte>, k: nat)
    requires Has(s, i, part) && k < |part|
    ensures i + k < |s| && s[i + k] == part[k]
  {
    assert s[i..i + |part|][k] == part[k];
  }

  lemma HasParts(s: seq<Byte>, i: nat, a: seq<Byte>, b: seq<Byte>)
    requires Has(s, i, a + b)
    ensures Has(s, i, a) && Has(s, i + |a|, b)
  {
    assert s[i..i + |a|] == (a + b)[..|a|] == a;
    assert s[i + |a|..i + |a + b|] == (a + b)[|a|..] == b;
  }

  lemma {:induction false} DigitsRead(s: seq<Byte>, i: nat, ds: seq<Byte>, val: nat)
    requires forall k :: 0 <= k < |ds| ==> IsDigit(ds[k])
    requires Has(s, i, ds) && At(s, i + |ds|) == SEMICOLON
    ensures Digits(s, i, false, val) == Value(Fold(ds, val), i + |ds| + 1)
    decreases |ds|
  {
    if ds != [] {
      HasAt(s, i, ds, 0);
      assert [ds[0]] + ds[1..] == ds;
      HasParts(s, i, [ds[0]], ds[1..]);
      DigitsRead(s, i + 1, ds[1..], val * 10 + ds[0] - 48);
    }
  }

  lemma DecimalIsDigits(n: nat)
    ensures forall k :: 0 <= k < |Decimal(n)| ==> IsDigit(Decimal(n)[k])
  {
  }

  lemma DecimalRead(s: seq<Byte>, i: nat, n: nat)
    requires Has(s, i, Decimal(n) + [SEMICOLON])
    ensures Digits(s, i, false, 0) == Value(n, i + |Decimal(n)| + 1)
  {
    DecimalIsDigits(n);
    HasParts(s, i, Decimal(n), [SEMICOLON]);
    HasAt(s, i + |Decimal(n)|, [SEMICOLON], 0);
    DigitsRead(s, i, Decimal(n), 0);
    FoldDecimal(n);
  }

  // ----- Reading back one character -----

  lemma ReadPlain(table: Table, s: seq<Byte>, i: nat, c: Byte)
    requires Has(s, i, [c]) && c < 0x80 && c != AMP && c != 0
    ensures ParseOne(table, s, i) == Some(Parsed(Utf8(c), i + 1))
  {
    HasAt(s, i, [c], 0);
  }

  lemma ParseReference(table: Table, s: seq<Byte>, i: nat, v: Value)
    requires i + 1 < |s| && s[i] == AMP && s[i + 1] == HASH && CharRef(s, i) == v
    ensures ParseOne(table, s, i) == Some(Parsed(Utf8(v.val), v.pos))
  {
    hide Utf8, CharRef;
  }

  lemma ReadCharRef(s: seq<Byte>, i: nat, c: nat)
    requires i + 1 < |s| && Has(s, i + 2, Decimal(c) + [SEMICOLON]) && IsChar(c)
    ensures CharRef(s, i) == Value(c, i + |Decimal(c)| + 3)
  {
    hide Decimal;
    DecimalRead(s, i + 2, c);
    DecimalIsDigits(c);
    HasAt(s, i + 2, Decimal(c) + [SEMICOLON], 0);
    assert IsDigit(s[i + 2]);
  }

  lemma ReadReference(table: Table, s: seq<Byte>, i: nat, c: nat)
    requires Has(s, i, [AMP, HASH] + (Decimal(c) + [SEMICOLON])) && IsChar(c)
    ensures ParseOne(table, s, i) == Some(Parsed(Utf8(c), i + |Decimal(c)| + 3))
  {
    hide Decimal, ParseOne, CharRef, Utf8, IsChar, Has;
    HasParts(s, i, [AMP, HASH], Decimal(c) + [SEMICOLON]);
    HasAt(s, i, [AMP, HASH], 0);
    HasAt(s, i, [AMP, HASH], 1);
    ReadCharRef(s, i, c);
    ParseReference(table, s, i, Value(c, i + |Decimal(c)| + 3));
  }

  lemma NameRead(s: seq<Byte>, i: nat, name: seq<Byte>)
    requires Has(s, i, name + [SEMICOLON]) && IsEntityName(name)
    ensures Name(s, i) == Some(name) && At(s, i + |name|) == SEMICOLON
  {
    HasParts(s, i, name, [SEMICOLON]);
    HasAt(s, i + |name|, [SEMICOLON], 0);
    HasAt(s, i, name, 0);
    forall j | i <= j < i + |name|
      ensures IsNameByte(s[j])
    {
      HasAt(s, i, name, j - i);
    }
    assert NameEnd(s, i) == i + |name|;
  }

  lemma ReadEntity(table: Table, s: seq<Byte>, i: nat, e: Entity)
    requires Has(s, i, [AMP] + (e.name + [SEMICOLON])) && Named(table) && e in table
    ensures ParseOne(table, s, i) == Some(Parsed(Utf8(e.value), i + |e.name| + 2))
  {
    hide Utf8, Name, Has, CurrentChar, CharRef;
    HasParts(s, i, [AMP], e.name + [SEMICOLON]);
    HasAt(s, i, [AMP], 0);
    HasAt(s, i + 1, e.name + [SEMICOLON], 0);
    NameRead(s, i + 1, e.name);
    assert ByName(table, e.name) == Some(e);
  }

  /** Whatever was written for a character is read as that character. */
  lemma ReadTranslation(table: Table, s: seq<Byte>, i: nat, c: nat, quote: nat)
    requires Has(s, i, Translate(table, c, quote)) && Named(table) && IsChar(c)
    ensures ParseOne(table, s, i) == Some(Parsed(Utf8(c), i + |Translate(table, c, quote)|))
  {
    hide ParseOne, Has, Decimal, Utf8, ByValue;
    if IsPlain(c, quote) {
      ReadPlain(table, s, i, c);
    } else {
      match ByValue(table, c)
      case Some(e) =>
        assert [AMP] + e.name + [SEMICOLON] == [AMP] + (e.name + [SEMICOLON]);
        ReadEntity(table, s, i, e);
      case None =>
        assert [AMP, HASH] + Decimal(c) + [SEMICOLON] == [AMP, HASH] + (Decimal(c) + [SEMICOLON]);
        ReadReference(table, s, i, c);
    }
  }

  // ----- The whole value -----

  ghost predicate Chars(cs: seq<nat>) {
    forall i :: 0 <= i < |cs| ==> IsChar(cs[i])
  }

  function TranslateAll(table: Table, cs: seq<nat>, quote: nat): seq<Byte> {
    if cs == [] then [] else Translate(table, cs[0], quote) + TranslateAll(table, cs[1..], quote)
  }

  lemma {:induction false} EncodeUtf8(table: Table, cs: seq<nat>, quote: nat)
    requires Chars(cs)
    ensures Encode(table, Utf8All(cs), None, quote) == Run(true, |Utf8All(cs)|, TranslateAll(table, cs, quote))
  {
    hide Translate;
    if cs != [] {
      var rest := Utf8All(cs[1..]);
      Utf8Front(cs[0], rest);
      assert (Utf8(cs[0]) + rest)[|Utf8(cs[0])|..] == rest;
      EncodeUtf8(table, cs[1..], quote);
    }
  }

  /** A translation starts with an ampersand or with a byte that is neither the quote nor zero. */
  lemma TranslationStart(table: Table, c: nat, quote: nat)
    requires IsChar(c) && quote != AMP
    ensures Translate(table, c, quote)[0] != quote && Translate(table, c, quote)[0] != 0
  {
  }

  /** The first character of what was written: it does not end the value, and it is read back. */
  lemma ReadFirst(table: Table, s: seq<Byte>, i: nat, c: nat, quote: Byte)
    requires Named(table) && IsChar(c) && quote != AMP && Has(s, i, Translate(table, c, quote))
    ensures i < |s| && s[i] != 0 && s[i] != quote
    ensures ParseOne(table, s, i) == Some(Parsed(Utf8(c), i + |Translate(table, c, quote)|))
  {
    hide ParseOne, Translate, Utf8, Has;
    var t := Translate(table, c, quote);
    HasAt(s, i, t, 0);
    TranslationStart(table, c, quote);
    ReadTranslation(table, s, i, c, quote);
  }

  ghost predicate ReadsAs(table: Table, s: seq<Byte>, i: nat, cs: seq<nat>, quote: Byte) {
    ParseAttribute(table, s, i, quote) == Some(Parsed(Utf8All(cs), i + |TranslateAll(table, cs, quote)|))
  }

  lemma ParseStep(table: Table, s: seq<Byte>, i: nat, quote: Byte)
    requires i < |s| && s[i] != 0 && s[i] != quote && quote != 0 && ParseOne(table, s, i).Some?
    ensures var p := ParseOne(table, s, i).value;
            var rest := ParseAttribute(table, s, p.pos, quote);
            rest.Some? ==> ParseAttribute(table, s, i, quote) == Some(Parsed(p.out + rest.value.out, rest.value.pos))
  {
    hide ParseOne;
  }

  lemma ReadsMore(table: Table, s: seq<Byte>, i: nat, cs: seq<nat>, quote: Byte)
    requires cs != [] && i < |s| && s[i] != 0 && s[i] != quote && quote != 0
    requires ParseOne(table, s, i) == Some(Parsed(Utf8(cs[0]), i + |Translate(table, cs[0], quote)|))
    requires ReadsAs(table, s, i + |Translate(table, cs[0], quote)|, cs[1..], quote)
    ensures ReadsAs(table, s, i, cs, quote)
  {
    hide Translate, Utf8, ParseOne, ParseAttribute;
    ParseStep(table, s, i, quote);
    AllSplit(table, cs, quote);
  }

  lemma AllSplit(table: Table, cs: seq<nat>, quote: Byte)
    requires cs != []
    ensures Utf8All(cs) == Utf8(cs[0]) + Utf8All(cs[1..])
    ensures |TranslateAll(table, cs, quote)| == |Translate(table, cs[0], quote)| + |TranslateAll(table, cs[1..], quote)|
  {
    hide Translate, Utf8;
  }

  lemma HasTranslations(table: Table, s: seq<Byte>, i: nat, cs: seq<nat>, quote: Byte)
    requires cs != [] && Has(s, i, TranslateAll(table, cs, quote) + [quote])
    ensures Has(s, i, Translate(table, cs[0], quote))
    ensures Has(s, i + |Translate(table, cs[0], quote)|, TranslateAll(table, cs[1..], quote) + [quote])
  {
    hide Translate, Has;
    var t, rest := Translate(table, cs[0], quote), TranslateAll(table, cs[1..], quote);
    assert TranslateAll(table, cs, quote) + [quote] == t + (rest + [quote]);
    HasParts(s, i, t, rest + [quote]);
  }

  lemma ReadsNone(table: Table, s: seq<Byte>, i: nat, cs: seq<nat>, quote: Byte)
    requires cs == [] && Has(s, i, TranslateAll(table, cs, quote) + [quote])
    ensures ReadsAs(table, s, i, cs, quote)
  {
    HasAt(s, i, [] + [quote], 0);
  }

  lemma {:induction false} ReadAll(table: Table, s: seq<Byte>, i: nat, cs: seq<nat>, quote: Byte)
    requires Named(table) && Chars(cs) && quote != AMP && quote != 0
    requires Has(s, i, TranslateAll(table, cs, quote) + [quote])
    ensures ReadsAs(table, s, i, cs, quote)
    decreases |cs|
  {
    hide Translate, Utf8, ParseOne, ParseAttribute, Has, IsChar, ReadsAs, TranslateAll, Utf8All;
    if cs == [] {
      ReadsNone(table, s, i, cs, quote);
    } else {
      HasTranslations(table, s, i, cs, quote);
      ReadFirst(table, s, i, cs[0], quote);
      ReadAll(table, s, i + |Translate(table, cs[0], quote)|, cs[1..], quote);
      ReadsMore(table, s, i, cs, quote);
    }
  }

  /**
    Escaping a string of XML characters for a quoted attribute value and reading the value back
    up to that quote gives exactly the bytes of the string.
   */
  lemma RoundTrip(table: Table, cs: seq<nat>, quote: Byte, tail: seq<Byte>)
    requires Named(table) && Chars(cs) && (quote == 34 || quote == 39)
    ensures var run := Encode(table, Utf8All(cs), None, quote);
            && run.ok && run.consumed == |Utf8All(cs)|
            && ParseAttribute(table, run.out + [quote] + tail, 0, quote) == Some(Parsed(Utf8All(cs), |run.out|))
  {
    hide Translate, Encode, ParseAttribute, Utf8All, TranslateAll, IsChar;
    EncodeUtf8(table, cs, quote);
    var part := TranslateAll(table, cs, quote) + [quote];
    assert (part + tail)[0..0 + |part|] == part;
    ReadAll(table, part + tail, 0, cs, quote);
  }

  // ----- Stopping and going on -----

  lemma SliceSlice(input: seq<Byte>, a: nat, b: nat)
    requires a + b <= |input|
    ensures input[a..][b..] == input[a + b..]
  {
  }

  lemma ThenAssociative(a: Run, b: Run, c: Run)
    ensures Then(a, Then(b, c)) == Then(Then(a, b), c)
  {
    assert (a.out + b.out) + c.out == a.out + (b.out + c.out);
  }

  lemma ThenNothing(input: seq<Byte>, r: Run)
    ensures Then(Run(true, 0, []), r) == r && input[0..] == input
  {
    assert [] + r.out == r.out;
  }

  /** The unlimited run is `r` followed by the unlimited run over what `r` left. */
  ghost predicate Resumes(table: Table, input: seq<Byte>, quote: nat, r: Run) {
    r.consumed <= |input| && Encode(table, input, None, quote)
      == Then(r, Encode(table, input[r.consumed..], None, quote))
  }

  lemma ResumesNothing(table: Table, input: seq<Byte>, quote: nat)
    ensures Resumes(table, input, quote, Run(true, 0, []))
  {
    hide ReadFront, Translate;
    ThenNothing(input, Encode(table, input, None, quote));
  }

  lemma ResumesAgain(table: Table, input: seq<Byte>, quote: nat, r: Run, f: Run)
    requires Resumes(table, input, quote, r) && Resumes(table, input[r.consumed..], quote, f)
    ensures Resumes(table, input, quote, Then(r, f))
  {
    hide Encode;
    SliceSlice(input, r.consumed, f.consumed);
    ThenAssociative(r, f, Encode(table, input[r.consumed + f.consumed..], None, quote));
  }

  /** A run that cannot write anything. */
  lemma NoStep(table: Table, input: seq<Byte>, room: Option<nat>, quote: nat)
    requires !CanStep(table, input, room, quote)
    ensures Resumes(table, input, quote, Encode(table, input, room, quote))
  {
    hide ReadFront, Translate;
    if Encode(table, input, room, quote).ok {
      ResumesNothing(table, input, quote);
    } else {
      assert input[0..] == input;
    }
  }

  /** A run that writes one character. */
  lemma OneStep(table: Table, input: seq<Byte>, quote: nat)
    requires CanStep(table, input, None, quote)
    ensures var f := ReadFront(input);
            Resumes(table, input, quote, Run(true, f.used, Translate(table, f.c, quote)))
  {
    hide ReadFront, Translate;
  }

  /** A run with little room, followed by an unlimited run over what it left, is the unlimited run. */
  lemma {:induction false} Restart(table: Table, input: seq<Byte>, room: Option<nat>, quote: nat)
    ensures Resumes(table, input, quote, Encode(table, input, room, quote))
    decreases |input|
  {
    hide ReadFront, Translate, Resumes;
    if CanStep(table, input, room, quote) {
      var f := ReadFront(input);
      var t := Translate(table, f.c, quote);
      OneStep(table, input, quote);
      Restart(table, input[f.used..], Left(room, t), quote);
      ResumesAgain(table, input, quote, Run(true, f.used, t), Encode(table, input[f.used..], Left(room, t), quote));
    } else {
      NoStep(table, input, room, quote);
    }
  }

  lemma {:induction false} TrailPrefix(input: seq<Byte>, i: nat, n: nat, c: nat, k: nat)
    requires i <= n <= k <= |input|
    ensures Trail(input[..k], i, n, c) == Trail(input, i, n, c)
    decreases n - i
  {
    if i < n && IsTrailing(input[i]) {
      TrailPrefix(input, i + 1, n, c * 0x40 + input[i] % 0x40, k);
    }
  }

  /** Only the bytes of a character decide how it is read. */
  lemma FrontPrefix(input: seq<Byte>, k: nat)
    requires input != [] && ReadFront(input).Char? && ReadFront(input).used <= k <= |input|
    ensures ReadFront(input[..k]) == ReadFront(input)
  {
    var d := input[0];
    if d >= 0xC0 {
      var n := if d < 0xE0 then 2 else if d < 0xF0 then 3 else 4;
      TrailPrefix(input, 1, n, if n == 2 then d % 0x20 else if n == 3 then d % 0x10 else d % 0x8, k);
    }
  }

  /** The consumed bytes are whole characters, and exactly their translation was written. */
  lemma {:induction false} ConsumedIsTranslated(table: Table, input: seq<Byte>, room: Option<nat>, quote: nat)
    ensures var r := Encode(table, input, room, quote);
            Encode(table, input[..r.consumed], None, quote) == Run(true, r.consumed, r.out)
    decreases |input|
  {
    hide ReadFront, Translate;
    if CanStep(table, input, room, quote) {
      var f := ReadFront(input);
      var left := Left(room, Translate(table, f.c, quote));
      ConsumedIsTranslated(table, input[f.used..], left, quote);
      StepOnPrefix(table, input, f.used + Encode(table, input[f.used..], left, quote).consumed, quote);
    }
  }

  lemma StepOnPrefix(table: Table, input: seq<Byte>, k: nat, quote: nat)
    requires CanStep(table, input, None, quote) && ReadFront(input).used <= k <= |input|
    ensures var f := ReadFront(input);
            Encode(table, input[..k], None, quote) ==
            Then(Run(true, f.used, Translate(table, f.c, quote)),
                 Encode(table, input[f.used..][..k - f.used], None, quote))
  {
    hide Translate, Trail;
    FrontPrefix(input, k);
    assert input[..k][ReadFront(input).used..] == input[ReadFront(input).used..][..k - ReadFront(input).used];
  }

  /** A run goes on as long as it can: to the end, to something that is no character, or until room is short. */
  lemma {:induction false} StopsForAReason(table: Table, input: seq<Byte>, room: Option<nat>, quote: nat)
    ensures var r := Encode(table, input, room, quote);
            var left := input[r.consumed..];
            && !CanStep(table, left, Left(room, r.out), quote)
            && (r.ok <==> left == [] || !ReadFront(left).Bad?)
    decreases |input|
  {
    hide ReadFront, Translate;
    if CanStep(table, input, room, quote) {
      var f := ReadFront(input);
      var left := Left(room, Translate(table, f.c, quote));
      StopsForAReason(table, input[f.used..], left, quote);
      SliceSlice(input, f.used, Encode(table, input[f.used..], left, quote).consumed);
    } else {
      assert input[0..] == input;
    }
  }

  /** Repeated calls, each with its own room; an error ends the series. */
  function Feed(table: Table, input: seq<Byte>, rooms: seq<nat>, quote: nat): (r: Run)
    ensures r.consumed <= |input|
    decreases |rooms|
  {
    if rooms == [] then Run(true, 0, [])
    else
      var r := Encode(table, input, Some(rooms[0]), quote);
      if !r.ok then r else Then(r, Feed(table, input[r.consumed..], rooms[1..], quote))
  }

  /** However the output is cut into pieces, the pieces put together are a prefix of the one-shot result. */
  lemma {:induction false} FeedIsPrefix(table: Table, input: seq<Byte>, rooms: seq<nat>, quote: nat)
    ensures Resumes(table, input, quote, Feed(table, input, rooms, quote))
    decreases |rooms|
  {
    hide Encode, Resumes;
    if rooms == [] {
      ResumesNothing(table, input, quote);
    } else {
      var r := Encode(table, input, Some(rooms[0]), quote);
      Restart(table, input, Some(rooms[0]), quote);
      if r.ok {
        FeedIsPrefix(table, input[r.consumed..], rooms[1..], quote);
        ResumesAgain(table, input, quote, r, Feed(table, input[r.consumed..], rooms[1..], quote));
      }
    }
  }

  // ----- Progress -----

  /** Entity names are at most eight bytes long. */
  ghost predicate ShortNames(table: Table) {
    forall e :: e in table ==> |e.name| <= 8
  }

  const ENOUGH := 11

  function Pow10(k: nat): nat {
    if k == 0 then 1 else 10 * Pow10(k - 1)
  }

  lemma {:induction false} DecimalLength(n: nat, k: nat)
    requires k >= 1 && n < Pow10(k)
    ensures |Decimal(n)| <= k
  {
    if n >= 10 {
      DecimalLength(n / 10, k - 1);
    }
  }

  lemma FrontBound(input: seq<Byte>)
    requires input != []
    ensures ReadFront(input).Char? ==> ReadFront(input).c < 0x200000
  {
    var d := input[0];
    if 0xC0 <= d < 0xF8 {
      var n := if d < 0xE0 then 2 else if d < 0xF0 then 3 else 4;
      if n <= |input| {
        TrailBound(input, 1, n, if n == 2 then d % 0x20 else if n == 3 then d % 0x10 else d % 0x8);
      }
    }
  }

  lemma {:induction false} TrailBound(input: seq<Byte>, i: nat, n: nat, c: nat)
    requires i <= n <= |input| && 1 <= i <= n <= 4
    requires c < (if n - i == 3 then 0x8 else if n - i == 2 then 0x200 else if n - i == 1 then 0x8000 else 0x200000)
    ensures Trail(input, i, n, c).Char? ==> Trail(input, i, n, c).c < 0x200000
    decreases n - i
  {
    if i < n && IsTrailing(input[i]) {
      TrailBound(input, i + 1, n, c * 0x40 + input[i] % 0x40);
    }
  }

  lemma TranslationLength(table: Table, c: nat, quote: nat)
    requires ShortNames(table) && c < 0x200000
    ensures |Translate(table, c, quote)| <= ENOUGH
  {
    assert Pow10(7) == 10000000 by { assert Pow10(4) == 10000; assert Pow10(6) == 1000000; }
    DecimalLength(c, 7);
  }

  ghost predicate Roomy(rooms: seq<nat>) {
    forall i :: 0 <= i < |rooms| ==> rooms[i] >= ENOUGH
  }

  /** With enough room, what stops a run is not the room. */
  lemma EnoughRoom(table: Table, input: seq<Byte>, room: nat, quote: nat)
    requires ShortNames(table) && room >= ENOUGH
    ensures CanStep(table, input, Some(room), quote) == CanStep(table, input, None, quote)
  {
    hide ReadFront, Translate;
    if input != [] && ReadFront(input).Char? {
      FrontBound(input);
      TranslationLength(table, ReadFront(input).c, quote);
    }
  }

  lemma {:induction false} NothingFed(table: Table, input: seq<Byte>, rooms: seq<nat>, quote: nat)
    requires !CanStep(table, input, None, quote)
    ensures Encode(table, input, None, quote).ok ==>
            Feed(table, input, rooms, quote) == Encode(table, input, None, quote) == Run(true, 0, [])
    decreases |rooms|
  {
    hide ReadFront, Translate;
    if rooms != [] {
      assert !CanStep(table, input, Some(rooms[0]), quote);
      ThenNothing(input, Run(true, 0, []));
      NothingFed(table, input, rooms[1..], quote);
    }
  }

  /** With room for eleven bytes in every call, as many calls as there are bytes, and one more, finish the work. */
  lemma {:induction false} FeedCompletes(table: Table, input: seq<Byte>, rooms: seq<nat>, quote: nat)
    requires ShortNames(table) && |rooms| > |input| && Roomy(rooms)
    ensures Feed(table, input, rooms, quote) == Encode(table, input, None, quote)
    decreases |rooms|
  {
    hide ReadFront, Translate;
    var r := Encode(table, input, Some(rooms[0]), quote);
    EnoughRoom(table, input, rooms[0], quote);
    if !r.ok {
      BadEnds(table, input, Some(rooms[0]), quote);
    } else if CanStep(table, input, None, quote) {
      assert Roomy(rooms[1..]);
      FeedCompletes(table, input[r.consumed..], rooms[1..], quote);
      Restart(table, input, Some(rooms[0]), quote);
    } else {
      NothingFed(table, input, rooms, quote);
    }
  }

  /** A run that ends with an error is the unlimited run. */
  lemma BadEnds(table: Table, input: seq<Byte>, room: Option<nat>, quote: nat)
    requires !Encode(table, input, room, quote).ok
    ensures Encode(table, input, None, quote) == Encode(table, input, room, quote)
  {
    hide ReadFront, Translate;
    var r := Encode(table, input, room, quote);
    Restart(table, input, room, quote);
    StopsForAReason(table, input, room, quote);
    assert r.out + [] == r.out;
  }
}
