/**
  What the attribute reader makes of its input, said by a grammar of attribute values and not by
  the reader: characters, numeric references in either base, entity references, and ampersands
  that stand for themselves.
 */
module HtmlReading {
  import opened Ordering
  import opened HtmlEntities
  import opened HtmlCodec

  // ----- UTF-8 -----

  lemma TrailAt(s: seq<Byte>, i: nat, c: nat, k: nat)
    requires 0x80 <= c < 0x200000 && Has(s, i, Utf8(c)) && 0 < k < |Utf8(c)|
    ensures i + k < |s| && IsTrailing(s[i + k]) && s[i + k] == Utf8(c)[k]
  {
    HasAt(s, i, Utf8(c), k);
  }

  lemma TwoBytes(c: nat)
    requires 0x80 <= c < 0x800
    ensures (0xC0 + c / 0x40 % 0x20) % 0x20 * 0x40 + (0x80 + c % 0x40) % 0x40 == c
  {
    Payload(c);
  }

  lemma ThreeBytes(c: nat)
    requires 0x800 <= c < 0x10000
    ensures (0xE0 + c / 0x1000 % 0x10) % 0x10 * 0x1000 + (0x80 + c / 0x40 % 0x40) % 0x40 * 0x40
            + (0x80 + c % 0x40) % 0x40 == c
  {
    Payload(c);
    assert c / 0x1000 == c / 0x40 / 0x40;
    assert c / 0x40 == c / 0x1000 * 0x40 + c / 0x40 % 0x40;
  }

  lemma FourBytes(c: nat)
    requires 0x10000 <= c < 0x200000
    ensures (0xF0 + c / 0x40000 % 0x8) % 0x8 * 0x40000 + (0x80 + c / 0x1000 % 0x40) % 0x40 * 0x1000
            + (0x80 + c / 0x40 % 0x40) % 0x40 * 0x40 + (0x80 + c % 0x40) % 0x40 == c
  {
    Payload(c);
    assert c / 0x1000 == c / 0x40 / 0x40 && c / 0x40000 == c / 0x1000 / 0x40;
    assert c / 0x40 == c / 0x1000 * 0x40 + c / 0x40 % 0x40;
    assert c / 0x1000 == c / 0x40000 * 0x40 + c / 0x1000 % 0x40;
  }

  /** The reader's own decoding, too, inverts UTF-8. */
  lemma CharacterRead(s: seq<Byte>, i: nat, c: nat)
    requires 0 < c < 0x200000 && Has(s, i, Utf8(c))
    ensures i < |s| && CurrentChar(s, i) == Some((c, |Utf8(c)|))
  {
    HasAt(s, i, Utf8(c), 0);
    if 0x80 <= c {
      TrailAt(s, i, c, 1);
      if 0x800 <= c { TrailAt(s, i, c, 2); }
      if 0x10000 <= c { TrailAt(s, i, c, 3); }
      if c < 0x800 { TwoBytes(c); } else if c < 0x10000 { ThreeBytes(c); } else { FourBytes(c); }
    }
  }

  /**
    The decoding of the reader and that of the encoder agree, except on a zero byte, which is read
    as a blank, and on a trailing byte that stands where a character begins.
   */
  lemma DecodersAgree(s: seq<Byte>, i: nat)
    requires i < |s|
    ensures s[i] == 0 ==> CurrentChar(s, i) == Some((32, 1))
    ensures s[i] != 0 && !IsTrailing(s[i]) ==>
            CurrentChar(s, i) == match ReadFront(s[i..])
                                 case Char(c, used) => Some((c, used))
                                 case _ => None
  {
    var t := s[i..];
    assert forall k :: 0 <= k < |t| ==> t[k] == s[i + k];
    assert t != [] && t[0] == s[i];
    if s[i] >= 0xC0 && s[i] < 0xF8 {
      var n := if s[i] < 0xE0 then 2 else if s[i] < 0xF0 then 3 else 4;
      if |t| >= n { TrailsAgree(t, n, if n == 2 then s[i] % 0x20 else if n == 3 then s[i] % 0x10 else s[i] % 0x8); }
    }
  }

  lemma TrailsAgree(t: seq<Byte>, n: nat, c: nat)
    requires 2 <= n <= 4 && n <= |t|
    ensures Trail(t, 1, n, c) ==
            if !IsTrailing(t[1]) then Bad
            else if n == 2 then Char(c * 0x40 + t[1] % 0x40, 2)
            else if !IsTrailing(t[2]) then Bad
            else if n == 3 then Char((c * 0x40 + t[1] % 0x40) * 0x40 + t[2] % 0x40, 3)
            else if !IsTrailing(t[3]) then Bad
            else Char(((c * 0x40 + t[1] % 0x40) * 0x40 + t[2] % 0x40) * 0x40 + t[3] % 0x40, 4)
  {
    var a := c * 0x40 + t[1] % 0x40;
    TrailOnce(t, 1, n, c);
    if n >= 3 { TrailOnce(t, 2, n, a); }
    if n >= 4 { TrailOnce(t, 3, n, a * 0x40 + t[2] % 0x40); }
  }

  lemma TrailOnce(t: seq<Byte>, i: nat, n: nat, c: nat)
    requires i < n <= |t|
    ensures Trail(t, i, n, c) ==
            if !IsTrailing(t[i]) then Bad
            else if i + 1 == n then Char(c * 0x40 + t[i] % 0x40, n) else Trail(t, i + 1, n, c * 0x40 + t[i] % 0x40)
  {
  }

  /** How many bytes a character takes, by its first: 0 for a byte no character begins with. */
  function Width(b: Byte): nat {
    if b <= 0x7F then 1 else if b <= 0xBF then 0 else if b <= 0xDF then 2 else if b <= 0xEF then 3
    else if b <= 0xF7 then 4 else 0
  }

  /** The bits of a first byte that belong to the character. */
  function LeadBits(b: Byte): nat
    requires Width(b) > 0
  {
    b as int - (if b <= 0x7F then 0 else if b <= 0xDF then 0xC0 else if b <= 0xEF then 0xE0 else 0xF0)
  }

  /** The number written by the bytes of a character, six bits to each after the first. */
  function SixBits(t: seq<Byte>, n: nat): int
    requires 0 < n <= |t| && Width(t[0]) > 0
  {
    if n == 1 then LeadBits(t[0]) else SixBits(t, n - 1) * 64 + (t[n - 1] as int - 0x80)
  }

  predicate Continued(t: seq<Byte>, n: nat) {
    n <= |t| && forall k :: 1 <= k < n ==> 0x80 <= t[k] <= 0xBF
  }

  lemma SixBitsAre(t: seq<Byte>, n: nat)
    requires 0 < n <= |t| && n == Width(t[0])
    ensures SixBits(t, n) ==
            var a := LeadBits(t[0]);
            if n == 1 then a
            else
              var b := a * 64 + (t[1] as int - 0x80);
              if n == 2 then b
              else
                var c := b * 64 + (t[2] as int - 0x80);
                if n == 3 then c else c * 64 + (t[3] as int - 0x80)
  {
    assert SixBits(t, 1) == LeadBits(t[0]);
    if n >= 2 { assert SixBits(t, 2) == LeadBits(t[0]) * 64 + (t[1] as int - 0x80); }
    if n >= 3 { assert SixBits(t, 3) == SixBits(t, 2) * 64 + (t[2] as int - 0x80); }
  }

  lemma TrailIs(t: seq<Byte>, n: nat)
    requires 1 < n <= |t| && n == Width(t[0])
    ensures var r := Trail(t, 1, n, LeadBits(t[0]));
            && r.Char? == Continued(t, n) && !r.Short?
            && (r.Char? ==> r.c == SixBits(t, n) && r.used == n)
  {
    hide SixBits, Trail;
    SixBitsAre(t, n);
    TrailsAgree(t, n, LeadBits(t[0]));
  }

  lemma LeadIs(t: seq<Byte>)
    requires t != []
    ensures var n := Width(t[0]);
            ReadFront(t) ==
            if n == 0 then Bad
            else if |t| < n then Short
            else if n == 1 then Char(t[0], 1)
            else Trail(t, 1, n, LeadBits(t[0]))
  {
    hide Trail;
  }

  /** What the encoder reads: a character of as many bytes as its first one asks for, or too few of them, or none. */
  lemma FrontIs(t: seq<Byte>)
    requires t != []
    ensures var n := Width(t[0]);
            && (ReadFront(t).Short? <==> |t| < n)
            && (ReadFront(t).Char? <==> n > 0 && Continued(t, n))
            && (ReadFront(t).Char? ==> ReadFront(t).c == SixBits(t, n) && ReadFront(t).used == n)
  {
    hide Trail, ReadFront;
    LeadIs(t);
    if 1 < Width(t[0]) <= |t| { TrailIs(t, Width(t[0])); }
  }

  /**
    Where the reader goes on at a byte that is no ampersand: at ASCII, and at any other byte but
    C0 and those above F7, if the bytes it asks for follow. A trailing byte asks for one.
   */
  lemma RawReadIff(table: Table, s: seq<Byte>, i: nat)
    requires i < |s| && s[i] != 38
    ensures var n := if 0x80 <= s[i] <= 0xBF then 2 else Width(s[i]);
            ParseOne(table, s, i).Some? <==> s[i] != 0xC0 && n > 0 && Continued(s[i..], n)
  {
    var t := s[i..];
    assert forall k :: 0 <= k < |t| ==> t[k] == s[i + k];
  }

  // ----- Numbers -----

  const LOWER: seq<Byte> := [48, 49, 50, 51, 52, 53, 54, 55, 56, 57, 97, 98, 99, 100, 101, 102]
  const UPPER: seq<Byte> := [48, 49, 50, 51, 52, 53, 54, 55, 56, 57, 65, 66, 67, 68, 69, 70]

  /** The hexadecimal digits, in either case, in the order of their values. */
  lemma HexDigit(b: Byte, v: nat)
    ensures HexValue(b) == Some(v) <==> v < 16 && (b == LOWER[v] || b == UPPER[v])
  {
  }

  predicate DigitOf(hex: bool, b: Byte) {
    IsDigit(b) || (hex && (65 <= b <= 70 || 97 <= b <= 102))
  }

  function DigitValue(b: Byte): nat
    requires DigitOf(true, b)
  {
    if IsDigit(b) then b - 48 else if b >= 97 then b - 87 else b - 55
  }

  lemma NoDigit(b: Byte)
    requires !DigitOf(true, b)
    ensures HexValue(b).None?
  {
  }

  predicate AllDigits(hex: bool, ds: seq<Byte>) {
    forall k :: 0 <= k < |ds| ==> DigitOf(hex, ds[k])
  }

  /** The number that digits stand for: the last one counts once. */
  function Positional(hex: bool, ds: seq<Byte>): nat
    requires AllDigits(hex, ds)
  {
    if ds == [] then 0
    else
      var k := |ds| - 1;
      Positional(hex, ds[..k]) * (if hex then 16 else 10) + DigitValue(ds[k])
  }

  lemma DigitStep(s: seq<Byte>, k: nat, hex: bool, val: nat)
    requires k < |s| && DigitOf(hex, s[k])
    ensures Digits(s, k, hex, val) == Digits(s, k + 1, hex, val * (if hex then 16 else 10) + DigitValue(s[k]))
  {
    HexDigit(s[k], DigitValue(s[k]));
  }

  lemma DigitsEnd(s: seq<Byte>, j: nat, hex: bool, val: nat)
    requires !DigitOf(hex, At(s, j))
    ensures Digits(s, j, hex, val) == Value(val, if At(s, j) == SEMICOLON then j + 1 else j)
  {
    if hex { NoDigit(At(s, j)); }
  }

  lemma PositionalStep(s: seq<Byte>, i: nat, k: nat, hex: bool)
    requires i <= k < |s| && AllDigits(hex, s[i..k + 1])
    ensures AllDigits(hex, s[i..k]) && DigitOf(hex, s[k])
    ensures Positional(hex, s[i..k + 1]) == Positional(hex, s[i..k]) * (if hex then 16 else 10) + DigitValue(s[k])
  {
    assert s[i..k + 1][..k - i] == s[i..k] && s[i..k + 1][k - i] == s[k];
    assert forall n :: 0 <= n < k - i ==> s[i..k][n] == s[i..k + 1][n];
  }

  lemma Shorter(s: seq<Byte>, i: nat, k: nat, j: nat, hex: bool)
    requires i <= k <= j <= |s| && AllDigits(hex, s[i..j])
    ensures AllDigits(hex, s[i..k])
  {
    assert forall n :: 0 <= n < k - i ==> s[i..k][n] == s[i..j][n];
  }

  lemma {:induction false} DigitsFrom(s: seq<Byte>, i: nat, k: nat, j: nat, hex: bool)
    requires i <= k <= j <= |s| && AllDigits(hex, s[i..j]) && !DigitOf(hex, At(s, j))
    ensures AllDigits(hex, s[i..k])
    ensures Digits(s, k, hex, Positional(hex, s[i..k])) ==
            Value(Positional(hex, s[i..j]), if At(s, j) == SEMICOLON then j + 1 else j)
    decreases j - k
  {
    hide AllDigits, Digits, Positional, DigitValue;
    Shorter(s, i, k, j, hex);
    if k == j {
      DigitsEnd(s, j, hex, Positional(hex, s[i..j]));
    } else {
      Shorter(s, i, k + 1, j, hex);
      PositionalStep(s, i, k, hex);
      DigitStep(s, k, hex, Positional(hex, s[i..k]));
      DigitsFrom(s, i, k + 1, j, hex);
    }
  }

  /** Digits are read as the number they stand for, up to the first byte that is none; a semicolon is skipped. */
  lemma NumberRead(s: seq<Byte>, i: nat, hex: bool, ds: seq<Byte>)
    requires Has(s, i, ds) && AllDigits(hex, ds) && !DigitOf(hex, At(s, i + |ds|))
    ensures Digits(s, i, hex, 0) ==
            Value(Positional(hex, ds), i + |ds| + if At(s, i + |ds|) == SEMICOLON then 1 else 0)
  {
    assert s[i..i] == [];
    DigitsFrom(s, i, i, i + |ds|, hex);
  }

  // ----- A grammar of attribute values -----

  /**
    What an attribute value is made of. `end` of a number is a semicolon or nothing; a known
    entity has a semicolon, and any other word after an ampersand stands for itself.
   */
  datatype Piece =
    | Literal(c: nat)
    | Number(hex: bool, x: Byte, digits: seq<Byte>, closed: bool)
    | Known(e: Entity)
    | Word(name: seq<Byte>)
    | Ampersand

  function Close(closed: bool): seq<Byte> {
    if closed then [SEMICOLON] else []
  }

  function Text(p: Piece): (r: seq<Byte>)
    ensures r != []
  {
    match p
    case Literal(c) => Utf8(c)
    case Number(hex, x, digits, closed) => [AMP, HASH] + ((if hex then [x] else []) + (digits + Close(closed)))
    case Known(e) => [AMP] + (e.name + [SEMICOLON])
    case Word(name) => [AMP] + name
    case Ampersand => [AMP]
  }

  function Meaning(p: Piece): seq<Byte>
    requires p.Number? ==> AllDigits(p.hex, p.digits)
  {
    match p
    case Literal(c) => Utf8(c)
    case Number(hex, _, digits, _) => var n := Positional(hex, digits); Utf8(if IsChar(n) then n else 0)
    case Known(e) => Utf8(e.value)
    case Word(name) => [AMP] + name
    case Ampersand => [AMP]
  }

  /** What ends a value: its quote, or for an unquoted one a blank or the end of the tag; and the end of input. */
  predicate Ends(stop: Byte, b: Byte) {
    b == 0 || if stop == 0 then b in {9, 10, 13, 32, 62} else b == stop
  }

  /** The piece is one, and the byte after it does not belong to it. */
  ghost predicate Legal(table: Table, p: Piece, next: Byte, stop: Byte) {
    match p
    case Literal(c) => IsChar(c) && c != 38 && (c < 0x80 ==> !Ends(stop, c))
    case Number(hex, x, digits, closed) =>
      && AllDigits(hex, digits) && (hex ==> x == 120 || x == 88)
      && (!closed ==> !DigitOf(hex, next) && next != 59)
      && (!hex && digits == [] && !closed ==> next != 120 && next != 88)
    case Known(e) => e in table
    case Word(name) =>
      IsEntityName(name) && !IsNameByte(next) && next < 0x80 &&
      (next == 59 ==> forall e :: e in table ==> e.name != name)
    case Ampersand => !IsNameStart(next) && next != 35 && next < 0x80
  }

  function TextAll(ps: seq<Piece>): seq<Byte> {
    if ps == [] then [] else Text(ps[0]) + TextAll(ps[1..])
  }

  /** The first byte of some pieces with `end` behind them. */
  function First(ps: seq<Piece>, end: Byte): Byte {
    if ps == [] then end else Text(ps[0])[0]
  }

  ghost predicate AllLegal(table: Table, ps: seq<Piece>, end: Byte, stop: Byte) {
    ps != [] ==> Legal(table, ps[0], First(ps[1..], end), stop) && AllLegal(table, ps[1..], end, stop)
  }

  ghost function MeaningAll(table: Table, ps: seq<Piece>, end: Byte, stop: Byte): seq<Byte>
    requires AllLegal(table, ps, end, stop)
  {
    if ps == [] then [] else Meaning(ps[0]) + MeaningAll(table, ps[1..], end, stop)
  }

  // ----- Piece by piece -----

  lemma LiteralPiece(table: Table, s: seq<Byte>, i: nat, p: Piece, next: Byte, stop: Byte)
    requires p.Literal? && Has(s, i, Text(p)) && Legal(table, p, next, stop)
    ensures ParseOne(table, s, i) == Some(Parsed(Meaning(p), i + |Text(p)|))
  {
    hide CurrentChar, Has;
    CharacterRead(s, i, p.c);
    HasAt(s, i, Utf8(p.c), 0);
  }

  lemma NumberHas(s: seq<Byte>, i: nat, p: Piece)
    requires p.Number? && Has(s, i, Text(p))
    ensures var j := i + 2 + if p.hex then 1 else 0;
            && i + 1 < |s| && s[i] == AMP && s[i + 1] == HASH && (p.hex ==> At(s, i + 2) == p.x)
            && Has(s, j, p.digits) && j + |p.digits + Close(p.closed)| == i + |Text(p)|
            && (p.closed ==> At(s, j + |p.digits|) == SEMICOLON)
  {
    hide Has;
    var mark := if p.hex then [p.x] else [];
    HasParts(s, i, [AMP, HASH], mark + (p.digits + Close(p.closed)));
    HasParts(s, i + 2, mark, p.digits + Close(p.closed));
    HasParts(s, i + 2 + |mark|, p.digits, Close(p.closed));
    HasAt(s, i, [AMP, HASH], 0);
    HasAt(s, i, [AMP, HASH], 1);
    if p.hex { HasAt(s, i + 2, mark, 0); }
    if p.closed { HasAt(s, i + 2 + |mark| + |p.digits|, Close(p.closed), 0); }
  }

  lemma NumberPiece(table: Table, s: seq<Byte>, i: nat, p: Piece, next: Byte, stop: Byte)
    requires p.Number? && Has(s, i, Text(p)) && Legal(table, p, next, stop) && At(s, i + |Text(p)|) == next
    ensures ParseOne(table, s, i) == Some(Parsed(Meaning(p), i + |Text(p)|))
  {
    hide Has, Digits, Positional, Utf8, AllDigits, IsChar;
    NumberHas(s, i, p);
    var j := i + 2 + if p.hex then 1 else 0;
    FirstDigit(s, j, p.hex, p.digits);
    NumberRead(s, j, p.hex, p.digits);
    var n := Positional(p.hex, p.digits);
    assert CharRef(s, i) == Value(if IsChar(n) then n else 0, i + |Text(p)|);
    ParseReference(table, s, i, CharRef(s, i));
  }

  /** A number in base ten does not start like one in base sixteen. */
  lemma FirstDigit(s: seq<Byte>, j: nat, hex: bool, ds: seq<Byte>)
    requires Has(s, j, ds) && AllDigits(hex, ds)
    ensures ds != [] ==> j < |s| && DigitOf(hex, s[j])
  {
    if ds != [] { HasAt(s, j, ds, 0); }
  }

  lemma WordRead(s: seq<Byte>, i: nat, name: seq<Byte>)
    requires Has(s, i, name) && IsEntityName(name) && !IsNameByte(At(s, i + |name|)) && At(s, i + |name|) < 0x80
    ensures Name(s, i) == Some(name)
  {
    HasAt(s, i, name, 0);
    forall j | i <= j < i + |name| ensures IsNameByte(s[j]) {
      HasAt(s, i, name, j - i);
    }
    assert NameEnd(s, i) == i + |name|;
  }

  lemma WordPiece(table: Table, s: seq<Byte>, i: nat, p: Piece, next: Byte, stop: Byte)
    requires (p.Word? || p.Ampersand?) && Has(s, i, Text(p)) && Legal(table, p, next, stop)
    requires At(s, i + |Text(p)|) == next
    ensures ParseOne(table, s, i) == Some(Parsed(Meaning(p), i + |Text(p)|))
  {
    hide Has, NameEnd, CurrentChar, CharRef;
    HasAt(s, i, Text(p), 0);
    if p.Word? {
      HasParts(s, i, [AMP], p.name);
      HasAt(s, i + 1, p.name, 0);
      WordRead(s, i + 1, p.name);
    }
  }

  lemma PieceRead(table: Table, s: seq<Byte>, i: nat, p: Piece, next: Byte, stop: Byte)
    requires Named(table) && Has(s, i, Text(p)) && Legal(table, p, next, stop) && At(s, i + |Text(p)|) == next
    ensures ParseOne(table, s, i) == Some(Parsed(Meaning(p), i + |Text(p)|))
  {
    hide ParseOne, Has, Utf8;
    match p
    case Literal(_) => LiteralPiece(table, s, i, p, next, stop);
    case Number(_, _, _, _) => NumberPiece(table, s, i, p, next, stop);
    case Known(e) => ReadEntity(table, s, i, e);
    case _ => WordPiece(table, s, i, p, next, stop);
  }

  lemma PieceStarts(table: Table, p: Piece, next: Byte, stop: Byte)
    requires Legal(table, p, next, stop) && (stop == 0 || stop == 34 || stop == 39)
    ensures !Ends(stop, Text(p)[0])
  {
  }

  lemma StopsIff(s: seq<Byte>, i: nat, stop: Byte)
    ensures Stops(s, i, stop) <==> Ends(stop, At(s, i))
  {
  }

  lemma {:induction false} PiecesRead(table: Table, s: seq<Byte>, i: nat, ps: seq<Piece>, stop: Byte)
    requires Named(table) && (stop == 0 || stop == 34 || stop == 39) && Has(s, i, TextAll(ps))
    requires var end := At(s, i + |TextAll(ps)|); Ends(stop, end) && AllLegal(table, ps, end, stop)
    ensures var end := At(s, i + |TextAll(ps)|);
            ParseAttribute(table, s, i, stop) == Some(Parsed(MeaningAll(table, ps, end, stop), i + |TextAll(ps)|))
    decreases |ps|
  {
    hide ParseOne, Has, Legal, Text, Meaning, Ends, Stops, Named;
    StopsIff(s, i, stop);
    if ps != [] {
      var p, rest := ps[0], ps[1..];
      var end := At(s, i + |TextAll(ps)|);
      HasParts(s, i, Text(p), TextAll(rest));
      NextIs(s, i + |Text(p)|, rest, end);
      PieceRead(table, s, i, p, First(rest, end), stop);
      PieceStarts(table, p, First(rest, end), stop);
      HasAt(s, i, Text(p), 0);
      PiecesRead(table, s, i + |Text(p)|, rest, stop);
    }
  }

  lemma NextIs(s: seq<Byte>, i: nat, ps: seq<Piece>, end: Byte)
    requires Has(s, i, TextAll(ps)) && At(s, i + |TextAll(ps)|) == end
    ensures At(s, i) == First(ps, end)
  {
    hide Has, Text;
    if ps != [] { HasAt(s, i, TextAll(ps), 0); }
  }

  /**
    The reader reads every value of the grammar as what it means, quoted or not, and stops at
    its end.
   */
  lemma GrammarRead(table: Table, ps: seq<Piece>, stop: Byte, end: Byte, tail: seq<Byte>)
    requires Named(table) && (stop == 0 || stop == 34 || stop == 39) && Ends(stop, end)
    requires AllLegal(table, ps, end, stop)
    ensures ParseAttribute(table, TextAll(ps) + [end] + tail, 0, stop) ==
            Some(Parsed(MeaningAll(table, ps, end, stop), |TextAll(ps)|))
  {
    hide ParseAttribute, AllLegal, MeaningAll, TextAll;
    var s := TextAll(ps) + [end] + tail;
    assert s[0..|TextAll(ps)|] == TextAll(ps) && s[|TextAll(ps)|] == end;
    PiecesRead(table, s, 0, ps, stop);
  }

  // ----- Values without references -----

  function Literals(cs: seq<nat>): (ps: seq<Piece>)
    ensures |ps| == |cs|
  {
    if cs == [] then [] else [Literal(cs[0])] + Literals(cs[1..])
  }

  lemma {:induction false} LiteralsLegal(table: Table, cs: seq<nat>, end: Byte, stop: Byte)
    requires Chars(cs) && forall i :: 0 <= i < |cs| ==> cs[i] != 38 && (cs[i] < 0x80 ==> !Ends(stop, cs[i]))
    ensures AllLegal(table, Literals(cs), end, stop)
    ensures TextAll(Literals(cs)) == Utf8All(cs) == MeaningAll(table, Literals(cs), end, stop)
  {
    hide Utf8, Ends, IsChar;
    if cs != [] {
      LiteralsLegal(table, cs[1..], end, stop);
      assert Literals(cs)[1..] == Literals(cs[1..]);
    }
  }

  /** A value that is written in plain UTF-8, with no ampersand and nothing that ends it, is read as it is. */
  lemma LiteralRead(table: Table, cs: seq<nat>, stop: Byte, end: Byte, tail: seq<Byte>)
    requires Named(table) && (stop == 0 || stop == 34 || stop == 39) && Ends(stop, end)
    requires Chars(cs) && forall i :: 0 <= i < |cs| ==> cs[i] != 38 && (cs[i] < 0x80 ==> !Ends(stop, cs[i]))
    ensures ParseAttribute(table, Utf8All(cs) + [end] + tail, 0, stop) == Some(Parsed(Utf8All(cs), |Utf8All(cs)|))
  {
    hide ParseAttribute, AllLegal, MeaningAll, TextAll, Ends;
    LiteralsLegal(table, cs, end, stop);
    GrammarRead(table, Literals(cs), stop, end, tail);
  }

  // ----- What is written -----

  /** Decimal digits stand for the number, and start with no zero in vain. */
  lemma {:induction false} DecimalIs(n: nat)
    ensures AllDigits(false, Decimal(n)) && Positional(false, Decimal(n)) == n
    ensures n >= 10 ==> Decimal(n)[0] != 48
    ensures n < 10 ==> |Decimal(n)| == 1
  {
    var ds := Decimal(n);
    if n >= 10 {
      DecimalIs(n / 10);
      assert ds[..|ds| - 1] == Decimal(n / 10) && ds[|ds| - 1] == 48 + n % 10;
      assert n / 10 < 10 ==> Decimal(n / 10) == [48 + n / 10];
    } else {
      assert ds[..0] == [];
    }
  }

  /**
    What is written for a character: itself if it is ASCII and neither the quote nor one of the
    three signs of markup; otherwise the entity of the table that has its value; and only if there
    is none its number.
   */
  lemma TranslationIs(table: Table, c: nat, quote: nat)
    requires Ascending(table)
    ensures var t := Translate(table, c, quote);
            if c < 0x80 && c != quote && c !in {38, 60, 62} then t == [c]
            else
              && (forall e :: e in table && e.value == c ==> t == [38] + e.name + [59])
              && ((forall e :: e in table ==> e.value != c) ==>
                    exists ds :: t == [38, 35] + ds + [59] && AllDigits(false, ds) && Positional(false, ds) == c
                                 && (c >= 10 ==> ds[0] != 48))
  {
    hide Decimal;
    ByValueFinds(table, c);
    DecimalIs(c);
    forall e | e in table && e.value == c ensures ByValue(table, c) == Some(e) {
      OneRow(table, e, ByValue(table, c).value);
    }
    if ByValue(table, c).None? {
      assert [AMP, HASH] + Decimal(c) + [SEMICOLON] == [38, 35] + Decimal(c) + [59];
    }
  }

  lemma OneRow(table: Table, e: Entity, f: Entity)
    requires Ascending(table) && e in table && f in table && e.value == f.value
    ensures e == f
  {
    var i :| 0 <= i < |table| && table[i] == e;
    var j :| 0 <= j < |table| && table[j] == f;
    assert !(i < j) && !(j < i);
  }

  // ----- Classes of characters -----

  /** The characters of XML 1.0, production 2. */
  lemma XmlCharacter(c: nat)
    ensures IsChar(c) <==>
            c in {0x9, 0xA, 0xD} || 0x20 <= c <= 0xD7FF || 0xE000 <= c <= 0xFFFD || 0x10000 <= c <= 0x10FFFF
  {
  }

  predicate IsLetter(c: char) {
    'a' <= c <= 'z' || 'A' <= c <= 'Z'
  }

  /** ASCII names begin with a letter, an underscore or a colon, and go on with these, digits, dots and hyphens. */
  lemma NameAlphabet(b: Byte)
    ensures IsNameStart(b) <==> IsLetter(b as char) || b as char == '_' || b as char == ':'
    ensures IsNameByte(b) <==>
            IsNameStart(b) || '0' <= b as char <= '9' || b as char == '.' || b as char == '-'
  {
  }

  /** A run of name characters from `i` to a byte above 7F at `j`, which begins with one that may begin a name. */
  predicate RunsInto(s: seq<Byte>, i: nat, j: nat) {
    i <= j && At(s, j) >= 0x80 && (i < j ==> IsNameStart(At(s, i))) && forall k :: i <= k < j ==> IsNameByte(At(s, k))
  }

  /** The name that is read is the longest one there, or none; it is left open where it runs into a byte above 7F. */
  lemma NameIs(s: seq<Byte>, i: nat)
    requires i <= |s|
    ensures Name(s, i).None? <==> exists j: nat :: RunsInto(s, i, j)
    ensures match Name(s, i)
            case None => true
            case Some(n) =>
              && (n == [] <==> !IsNameStart(At(s, i))) && (forall b :: b in n ==> IsNameByte(b))
              && s[i..i + |n|] == n && (n != [] ==> !IsNameByte(At(s, i + |n|)))
  {
    var e := NameEnd(s, i);
    assert i < e ==> At(s, i) == s[i];
    if Name(s, i).None? {
      if At(s, i) >= 0x80 {
        assert RunsInto(s, i, i);
      } else {
        assert forall k :: i <= k < e ==> At(s, k) == s[k];
        assert RunsInto(s, i, e);
      }
    }
  }
}
