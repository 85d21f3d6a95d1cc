/**
  HTML escaping and its inverse, as functions: htmlEncodeEntities turns UTF-8 into ASCII with
  entity and character references, htmlParseHTMLAttribute reads an attribute value back.
 */
module HtmlEntities {
  import opened Ordering

  /** A row of the entity table. */
  datatype Entity = Entity(value: nat, name: seq<Byte>)
  type Table = seq<Entity>

  // ----- Characters -----

  /** IS_CHAR */
  predicate IsChar(c: nat) {
    if c < 0x100 then c == 0x9 || c == 0xA || c == 0xD || c >= 0x20
    else c <= 0xD7FF || 0xE000 <= c <= 0xFFFD || 0x10000 <= c <= 0x10FFFF
  }

  /** The bytes written for a character value. */
  function Utf8(c: nat): seq<Byte> {
    if c < 0x80 then [c]
    else if c < 0x800 then [0xC0 + c / 0x40 % 0x20, 0x80 + c % 0x40]
    else if c < 0x10000 then [0xE0 + c / 0x1000 % 0x10, 0x80 + c / 0x40 % 0x40, 0x80 + c % 0x40]
    else [0xF0 + c / 0x40000 % 0x8, 0x80 + c / 0x1000 % 0x40, 0x80 + c / 0x40 % 0x40, 0x80 + c % 0x40]
  }

  function Utf8All(cs: seq<nat>): seq<Byte> {
    if cs == [] then [] else Utf8(cs[0]) + Utf8All(cs[1..])
  }

  predicate IsTrailing(b: Byte) {
    0x80 <= b < 0xC0
  }

  // ----- Encoding -----

  /** What the encoder finds at the start of its input. */
  datatype Front = Bad | Short | Char(c: nat, used: nat)

  /** The trailing bytes after a lead byte with payload `c`. */
  function Trail(input: seq<Byte>, i: nat, n: nat, c: nat): (r: Front)
    requires i <= n <= |input|
    ensures r.Char? ==> r.used == n
    decreases n - i
  {
    if i == n then Char(c, n)
    else if !IsTrailing(input[i]) then Bad
    else Trail(input, i + 1, n, c * 0x40 + input[i] % 0x40)
  }

  function ReadFront(input: seq<Byte>): (r: Front)
    requires input != []
    ensures r.Char? ==> 1 <= r.used <= |input|
  {
    var d := input[0];
    if d < 0x80 then Char(d, 1)
    else if d < 0xC0 then Bad
    else
      var n := if d < 0xE0 then 2 else if d < 0xF0 then 3 else 4;
      if d >= 0xF8 then Bad
      else if |input| < n then Short
      else Trail(input, 1, n, if n == 2 then d % 0x20 else if n == 3 then d % 0x10 else d % 0x8)
  }

  /** htmlEntityValueLookup: stops at the first row that is not below the value. */
  function ByValue(table: Table, c: nat): (r: Option<Entity>)
    ensures r.Some? ==> r.value in table && r.value.value == c
  {
    if table == [] || table[0].value > c then None
    else if table[0].value == c then Some(table[0])
    else ByValue(table[1..], c)
  }

  /** htmlEntityLookup */
  function ByName(table: Table, name: seq<Byte>): (r: Option<Entity>)
    ensures r.Some? ==> r.value in table && r.value.name == name
    ensures r.None? ==> forall e :: e in table ==> e.name != name
  {
    if table == [] then None
    else if table[0].name == name then Some(table[0])
    else ByName(table[1..], name)
  }

  /** Decimal digits, as printed by %u. */
  function Decimal(n: nat): (r: seq<Byte>)
    ensures |r| >= 1 && forall i :: 0 <= i < |r| ==> '0' as int <= r[i] <= '9' as int
  {
    if n < 10 then [48 + n] else Decimal(n / 10) + [48 + n % 10]
  }

  const AMP: Byte := 38
  const HASH: Byte := 35
  const SEMICOLON: Byte := 59
  const LT: Byte := 60
  const GT: Byte := 62

  predicate IsPlain(c: nat, quote: nat) {
    c < 0x80 && c != quote && c != AMP && c != LT && c != GT
  }

  /** What is written for one character. */
  function Translate(table: Table, c: nat, quote: nat): (r: seq<Byte>)
    ensures r != []
  {
    if IsPlain(c, quote) then [c]
    else
      match ByValue(table, c)
      case Some(e) => [AMP] + e.name + [SEMICOLON]
      case None => [AMP, HASH] + Decimal(c) + [SEMICOLON]
  }

  /** The end of an encoding run: ok is false for a malformed input (-2). */
  datatype Run = Run(ok: bool, consumed: nat, out: seq<Byte>)

  /** Gluing a run to the run over what it left. */
  function Then(r: Run, rest: Run): Run {
    Run(rest.ok, r.consumed + rest.consumed, r.out + rest.out)
  }

  /** The room left after writing `t`. */
  function Left(room: Option<nat>, t: seq<Byte>): Option<nat>
    requires Fits(room, t)
  {
    if room.Some? then Some(room.value - |t|) else None
  }

  predicate Fits(room: Option<nat>, t: seq<Byte>) {
    room.Some? ==> |t| <= room.value
  }

  /** A run can go on when the next character is complete and its translation fits. */
  predicate CanStep(table: Table, input: seq<Byte>, room: Option<nat>, quote: nat) {
    input != [] && ReadFront(input).Char? && Fits(room, Translate(table, ReadFront(input).c, quote))
  }

  /** htmlEncodeEntities with room for `room` bytes; no limit when room is None. */
  function Encode(table: Table, input: seq<Byte>, room: Option<nat>, quote: nat): (r: Run)
    ensures r.consumed <= |input| && Fits(room, r.out)
    decreases |input|
  {
    if CanStep(table, input, room, quote) then
      var f := ReadFront(input);
      var t := Translate(table, f.c, quote);
      Then(Run(true, f.used, t), Encode(table, input[f.used..], Left(room, t), quote))
    else
      Run(input == [] || !ReadFront(input).Bad?, 0, [])
  }

  // ----- Decoding -----

  /** The byte at a position; the input ends with a zero byte. */
  function At(s: seq<Byte>, i: nat): Byte {
    if i < |s| then s[i] else 0
  }

  /** htmlCurrentChar on UTF-8: value and length, or None for a sequence that is not UTF-8. */
  function CurrentChar(s: seq<Byte>, i: nat): (r: Option<(nat, nat)>)
    requires i < |s|
    ensures r.Some? ==> 1 <= r.value.1 && i + r.value.1 <= |s|
  {
    var c := s[i];
    if c < 0x80 then Some((if c == 0 then 32 else c, 1))
    else if !IsTrailing(At(s, i + 1)) then None
    else if c >= 0xE0 then
      if !IsTrailing(At(s, i + 2)) then None
      else if c >= 0xF0 then
        if c >= 0xF8 || !IsTrailing(At(s, i + 3)) then None
        else Some((c % 0x8 * 0x40000 + At(s, i + 1) % 0x40 * 0x1000 + At(s, i + 2) % 0x40 * 0x40
                   + At(s, i + 3) % 0x40, 4))
      else Some((c % 0x10 * 0x1000 + At(s, i + 1) % 0x40 * 0x40 + At(s, i + 2) % 0x40, 3))
    else Some((c % 0x20 * 0x40 + At(s, i + 1) % 0x40, 2))
  }

  predicate IsDigit(b: Byte) {
    48 <= b <= 57
  }

  function HexValue(b: Byte): Option<nat> {
    if IsDigit(b) then Some(b - 48)
    else if 97 <= b <= 102 then Some(b - 97 + 10)
    else if 65 <= b <= 70 then Some(b - 65 + 10)
    else None
  }

  /** A value and the position after what was read. */
  datatype Value = Value(val: nat, pos: nat)

  /** The digits of a character reference, up to a semicolon or the first other character. */
  function Digits(s: seq<Byte>, i: nat, hex: bool, val: nat): (r: Value)
    ensures i <= r.pos && (i <= |s| ==> r.pos <= |s|)
    decreases |s| - i
  {
    if At(s, i) == SEMICOLON then Value(val, i + 1)
    else if hex && HexValue(At(s, i)).Some? then Digits(s, i + 1, hex, val * 16 + HexValue(At(s, i)).value)
    else if !hex && IsDigit(At(s, i)) then Digits(s, i + 1, hex, val * 10 + (At(s, i) - 48))
    else Value(val, i)
  }

  /** htmlParseCharRef at an ampersand followed by a hash sign; an invalid character is read as 0. */
  function CharRef(s: seq<Byte>, i: nat): (r: Value)
    requires i + 1 < |s|
    ensures i + 1 < r.pos <= |s|
  {
    var hex := At(s, i + 2) == 120 || At(s, i + 2) == 88;
    var v := Digits(s, if hex then i + 3 else i + 2, hex, 0);
    Value(if IsChar(v.val) then v.val else 0, v.pos)
  }

  predicate IsNameStart(b: Byte) {
    97 <= b <= 122 || 65 <= b <= 90 || b == 95 || b == 58
  }

  predicate IsNameByte(b: Byte) {
    IsNameStart(b) || IsDigit(b) || b == 45 || b == 46
  }

  function NameEnd(s: seq<Byte>, i: nat): (r: nat)
    requires i <= |s|
    ensures i <= r <= |s| && (forall k :: i <= k < r ==> IsNameByte(s[k])) && (r < |s| ==> !IsNameByte(s[r]))
    decreases |s| - i
  {
    if i < |s| && IsNameByte(s[i]) then NameEnd(s, i + 1) else i
  }

  /**
    htmlParseName on ASCII: None stands for a name next to a non-ASCII byte, which needs the
    letter tables; an empty name means there is none.
   */
  function Name(s: seq<Byte>, i: nat): (r: Option<seq<Byte>>)
    requires i <= |s|
    ensures r.Some? ==> i + |r.value| <= |s|
  {
    if At(s, i) >= 0x80 then None
    else if !IsNameStart(At(s, i)) then Some([])
    else if At(s, NameEnd(s, i)) >= 0x80 then None
    else Some(s[i..NameEnd(s, i)])
  }

  datatype Parsed = Parsed(out: seq<Byte>, pos: nat)

  /** One round of the loop of htmlParseHTMLAttribute: the bytes written and where it goes on. */
  function ParseOne(table: Table, s: seq<Byte>, i: nat): (r: Option<Parsed>)
    requires i < |s|
    ensures r.Some? ==> i < r.value.pos <= |s|
  {
    if s[i] == AMP && At(s, i + 1) == HASH then
      var v := CharRef(s, i);
      Some(Parsed(Utf8(v.val), v.pos))
    else if s[i] == AMP then
      match Name(s, i + 1)
      case None => None
      case Some(name) =>
        var end := i + 1 + |name|;
        if name == [] then Some(Parsed([AMP], end))
        else if At(s, end) == SEMICOLON && ByName(table, name).Some? then
          Some(Parsed(Utf8(ByName(table, name).value.value), end + 1))
        else Some(Parsed([AMP] + name, end))
    else
      match CurrentChar(s, i)
      case None => None
      case Some(p) => if s[i] == 0xC0 then None else Some(Parsed(Utf8(p.0), i + p.1))
  }

  predicate IsBlankByte(b: Byte) {
    b == 0x20 || 0x9 <= b <= 0xA || b == 0xD
  }

  /** Where the loop of htmlParseHTMLAttribute ends; stop 0 means an unquoted value. */
  predicate Stops(s: seq<Byte>, i: nat, stop: Byte) {
    At(s, i) == 0 || At(s, i) == stop || (stop == 0 && (At(s, i) == GT || IsBlankByte(At(s, i))))
  }

  /** htmlParseHTMLAttribute from position i, or None where the input is not UTF-8. */
  function ParseAttribute(table: Table, s: seq<Byte>, i: nat, stop: Byte): (r: Option<Parsed>)
    ensures r.Some? && i <= |s| ==> i <= r.value.pos <= |s|
    decreases |s| - i
  {
    if Stops(s, i, stop) then Some(Parsed([], i))
    else
      match ParseOne(table, s, i)
      case None => None
      case Some(p) =>
        match ParseAttribute(table, s, p.pos, stop)
        case None => None
        case Some(rest) => Some(Parsed(p.out + rest.out, rest.pos))
  }
}
