/**
  The loops of the HTML escaping and of the attribute reader: bytes written into an output
  array, a position moved over the input, a translation buffer that doubles.
 */
module HtmlMachine {
  import opened Ordering
  import opened HtmlEntities

  // ----- htmlEncodeEntities -----

  method EntityValueLookup(table: Table, value: nat) returns (r: Option<Entity>)
    ensures r == ByValue(table, value)
  {
    var i := 0;
    assert table[0..] == table;
    while i < |table|
      invariant 0 <= i <= |table| && ByValue(table[i..], value) == ByValue(table, value)
    {
      if table[i].value >= value {
        if table[i].value > value { break; }
        return Some(table[i]);
      }
      assert table[i..][1..] == table[i + 1..];
      i := i + 1;
    }
    r := None;
  }

  /** The lead byte and the loop over the trailing bytes. */
  method ReadSequence(input: seq<Byte>, pos: nat) returns (f: Front)
    requires pos < |input|
    ensures f == ReadFront(input[pos..])
  {
    var d := input[pos];
    var c: nat, trailing: nat := d, 0;
    if d < 0x80 {
    } else if d < 0xC0 {
      return Bad;
    } else if d < 0xE0 {
      c, trailing := d % 0x20, 1;
    } else if d < 0xF0 {
      c, trailing := d % 0x10, 2;
    } else if d < 0xF8 {
      c, trailing := d % 0x8, 3;
    } else {
      return Bad;
    }
    var cur := pos + 1;
    if |input| - cur < trailing { return Short; }
    ghost var n := 1 + trailing;
    while trailing > 0
      invariant pos < cur && cur + trailing == pos + n <= |input|
      invariant Trail(input[pos..], cur - pos, n, c) == ReadFront(input[pos..])
    {
      d := input[cur];
      if !IsTrailing(d) { return Bad; }
      c := c * 0x40 + d % 0x40;
      cur := cur + 1;
      trailing := trailing - 1;
    }
    f := Char(c, cur - pos);
  }

  method Store(out: array<Byte>, at: nat, bytes: seq<Byte>)
    requires at + |bytes| <= out.Length
    modifies out
    ensures out[..at + |bytes|] == old(out[..at]) + bytes
    ensures out[at + |bytes|..] == old(out[at + |bytes|..])
  {
    for i := 0 to |bytes|
      invariant out[..at + i] == old(out[..at]) + bytes[..i]
      invariant out[at + |bytes|..] == old(out[at + |bytes|..])
    {
      out[at + i] := bytes[i];
    }
  }

  /** What was done and what is to come make up the whole run. */
  ghost predicate Encoded(table: Table, input: seq<Byte>, quote: nat, size: nat, consumed: nat, done: seq<Byte>) {
    && consumed <= |input| && |done| <= size
    && Encode(table, input, Some(size), quote) ==
       Then(Run(true, consumed, done), Encode(table, input[consumed..], Some(size - |done|), quote))
  }

  lemma EncodedStart(table: Table, input: seq<Byte>, quote: nat, size: nat)
    ensures Encoded(table, input, quote, size, 0, [])
  {
    hide Encode;
    assert input[0..] == input;
    var r := Encode(table, input, Some(size), quote);
    assert [] + r.out == r.out;
  }

  lemma EncodedStep(table: Table, input: seq<Byte>, quote: nat, size: nat, consumed: nat, done: seq<Byte>)
    requires Encoded(table, input, quote, size, consumed, done)
    requires CanStep(table, input[consumed..], Some(size - |done|), quote)
    ensures var f := ReadFront(input[consumed..]);
            Encoded(table, input, quote, size, consumed + f.used, done + Translate(table, f.c, quote))
  {
    hide Translate, ReadFront;
    var f := ReadFront(input[consumed..]);
    var t := Translate(table, f.c, quote);
    assert input[consumed..][f.used..] == input[consumed + f.used..];
    var rest := Encode(table, input[consumed + f.used..], Some(size - |done| - |t|), quote);
    assert (done + t) + rest.out == done + (t + rest.out);
  }

  lemma EncodedEnd(table: Table, input: seq<Byte>, quote: nat, size: nat, consumed: nat, done: seq<Byte>)
    requires Encoded(table, input, quote, size, consumed, done)
    requires !CanStep(table, input[consumed..], Some(size - |done|), quote)
    ensures var left := input[consumed..];
            Encode(table, input, Some(size), quote) == Run(left == [] || !ReadFront(left).Bad?, consumed, done)
  {
    hide Translate, ReadFront;
    assert done + [] == done;
  }

  /** htmlEncodeEntities: never writes past the output, and nothing after what it reports. */
  method EncodeEntities(table: Table, input: seq<Byte>, out: array<Byte>, quote: nat)
    returns (ok: bool, consumed: nat, written: nat)
    modifies out
    ensures written <= out.Length
    ensures Run(ok, consumed, out[..written]) == Encode(table, input, Some(out.Length), quote)
    ensures out[written..] == old(out[written..])
  {
    hide Encode, Encoded, Translate, ReadFront;
    consumed, written := 0, 0;
    EncodedStart(table, input, quote, out.Length);
    assert out[..0] == [];
    while consumed < |input|
      invariant consumed <= |input| && written <= out.Length
      invariant Encoded(table, input, quote, out.Length, consumed, out[..written])
      invariant out[written..] == old(out[written..])
    {
      var f := ReadSequence(input, consumed);
      if !f.Char? {
        EncodedEnd(table, input, quote, out.Length, consumed, out[..written]);
        return !f.Bad?, consumed, written;
      }
      var t := TranslationOf(table, f.c, quote);
      if written + |t| > out.Length {
        break;
      }
      EncodedStep(table, input, quote, out.Length, consumed, out[..written]);
      assert old(out[written..])[|t|..] == old(out[written + |t|..]);
      assert out[written..][|t|..] == out[written + |t|..];
      Store(out, written, t);
      written := written + |t|;
      consumed := consumed + f.used;
    }
    EncodedEnd(table, input, quote, out.Length, consumed, out[..written]);
    ok := true;
  }

  method TranslationOf(table: Table, c: nat, quote: nat) returns (t: seq<Byte>)
    ensures t == Translate(table, c, quote)
  {
    if c < 0x80 && c != quote && c != AMP && c != LT && c != GT {
      t := [c];
    } else {
      var ent := EntityValueLookup(table, c);
      var cp := if ent.None? then [HASH] + Decimal(c) else ent.value.name;
      t := [AMP] + cp + [SEMICOLON];
      assert [AMP] + ([HASH] + Decimal(c)) == [AMP, HASH] + Decimal(c);
    }
  }

  // ----- The translation buffer -----

  const BUFFER_SIZE := 100

  /** growBuffer, when fewer than a hundred cells are left. */
  method MakeRoom(buffer: array<Byte>, out: nat) returns (b: array<Byte>)
    requires BUFFER_SIZE <= buffer.Length && out <= buffer.Length
    ensures b == buffer || fresh(b)
    ensures BUFFER_SIZE <= b.Length && out <= b.Length - 100 && b[..out] == buffer[..out]
  {
    if out <= buffer.Length - 100 { return buffer; }
    b := new Byte[2 * buffer.Length];
    for i := 0 to buffer.Length
      invariant forall k :: 0 <= k < i ==> b[k] == buffer[k]
    {
      b[i] := buffer[i];
    }
  }

  /** How many bytes are still to come when the next one takes the bits above `div`. */
  function Remaining(div: nat): nat {
    if div == 0 then 0 else if div == 1 then 1 else if div == 0x40 then 2 else 3
  }

  lemma Utf8Byte(c: nat, div: nat)
    requires div in {1, 0x40, 0x1000} && Remaining(div) < |Utf8(c)|
    ensures Utf8(c)[|Utf8(c)| - Remaining(div)] == 0x80 + c / div % 0x40
    ensures Remaining(div / 0x40) == Remaining(div) - 1 && div / 0x40 in {0, 1, 0x40}
  {
  }

  /** The bytes of a character, six bits at a time. */
  method EmitChar(buffer: array<Byte>, start: nat, c: nat) returns (out: nat)
    requires start + 4 <= buffer.Length
    modifies buffer
    ensures start < out <= start + 4 && buffer[..out] == old(buffer[..start]) + Utf8(c)
  {
    var div: nat;
    ghost var u := Utf8(c);
    if c < 0x80 {
      buffer[start], div := c, 0;
    } else if c < 0x800 {
      buffer[start], div := 0xC0 + c / 0x40 % 0x20, 0x1;
    } else if c < 0x10000 {
      buffer[start], div := 0xE0 + c / 0x1000 % 0x10, 0x40;
    } else {
      buffer[start], div := 0xF0 + c / 0x40000 % 0x8, 0x1000;
    }
    assert |u| == 1 + Remaining(div) && buffer[start] == u[0];
    out := start + 1;
    hide Utf8;
    while div > 0
      invariant div in {0, 0x1, 0x40, 0x1000} && out + Remaining(div) == start + |u| && start < out
      invariant buffer[..out] == old(buffer[..start]) + u[..out - start]
    {
      Utf8Byte(c, div);
      buffer[out] := 0x80 + c / div % 0x40;
      out := out + 1;
      div := div / 0x40;
    }
    assert u[..|u|] == u;
  }

  // ----- The reader -----

  class AttributeReader {
    const text: seq<Byte>
    var cur: nat

    ghost predicate Valid()
      reads this
    {
      cur <= |text|
    }

    constructor (text: seq<Byte>)
      ensures Valid() && this.text == text && cur == 0
    {
      this.text := text;
      cur := 0;
    }

    /** htmlParseCharRef; away from a character reference it reports an error and stays. */
    method ParseCharRef() returns (c: nat)
      requires Valid()
      modifies this
      ensures Valid()
      ensures if At(text, old(cur)) == AMP && At(text, old(cur) + 1) == HASH
              then Value(c, cur) == CharRef(text, old(cur))
              else c == 0 && cur == old(cur)
    {
      var val: nat := 0;
      if At(text, cur) == AMP && At(text, cur + 1) == HASH {
        if At(text, cur + 2) == 120 || At(text, cur + 2) == 88 {
          cur := cur + 3;
          val := ParseDigits(true);
        } else {
          cur := cur + 2;
          val := ParseDigits(false);
        }
      }
      c := if IsChar(val) then val else 0;
    }

    /** The two digit loops, and the semicolon after them. */
    method ParseDigits(hex: bool) returns (val: nat)
      requires Valid()
      modifies this
      ensures Valid() && Value(val, cur) == Digits(text, old(cur), hex, 0)
    {
      val := 0;
      while At(text, cur) != SEMICOLON
        invariant old(cur) <= cur && Valid()
        invariant Digits(text, cur, hex, val) == Digits(text, old(cur), hex, 0)
        decreases |text| - cur
      {
        var b := At(text, cur);
        if hex && HexValue(b).Some? {
          val := val * 16 + HexValue(b).value;
        } else if !hex && IsDigit(b) {
          val := val * 10 + (b - 48);
        } else {
          break;
        }
        cur := cur + 1;
      }
      if At(text, cur) == SEMICOLON {
        cur := cur + 1;
      }
    }

    /** htmlParseName, on ASCII: without a name the position stays. */
    method ParseName() returns (ascii: bool, name: seq<Byte>)
      requires Valid()
      modifies this
      ensures Valid()
      ensures match Name(text, old(cur))
              case None => !ascii
              case Some(n) => ascii && name == n && cur == old(cur) + |n|
    {
      ascii, name := true, [];
      if At(text, cur) >= 0x80 { return false, []; }
      if !IsNameStart(At(text, cur)) { return; }
      var pos := cur;
      while pos < |text| && IsNameByte(text[pos])
        invariant cur <= pos <= |text| && NameEnd(text, pos) == NameEnd(text, cur)
      {
        pos := pos + 1;
      }
      if At(text, pos) >= 0x80 { return false, []; }
      name := text[cur..pos];
      cur := pos;
    }

    /** htmlParseEntityRef at an ampersand: the name, empty if there is none, and the row found for it. */
    method ParseEntityRef(table: Table) returns (ascii: bool, name: seq<Byte>, ent: Option<Entity>)
      requires Valid() && cur < |text| && text[cur] == AMP
      modifies this
      ensures Valid()
      ensures match Name(text, old(cur) + 1)
              case None => !ascii
              case Some(n) =>
                var end := old(cur) + 1 + |n|;
                && ascii && name == n
                && ent == (if n != [] && At(text, end) == SEMICOLON then ByName(table, n) else None)
                && cur == (if ent.Some? then end + 1 else end)
    {
      ent := None;
      cur := cur + 1;
      ascii, name := ParseName();
      if ascii && name != [] && At(text, cur) == SEMICOLON {
        ent := EntityLookup(table, name);
        if ent.Some? {
          cur := cur + 1;
        }
      }
    }

    /** htmlEntityLookup */
    static method EntityLookup(table: Table, name: seq<Byte>) returns (r: Option<Entity>)
      ensures r == ByName(table, name)
    {
      assert table[0..] == table;
      for i := 0 to |table|
        invariant ByName(table[i..], name) == ByName(table, name)
      {
        if table[i].name == name { return Some(table[i]); }
        assert table[i..][1..] == table[i + 1..];
      }
      r := None;
    }

    /** Cells that are free whenever the loop of htmlParseHTMLAttribute comes round. */
    ghost predicate Room(buffer: array<Byte>, out: nat) {
      BUFFER_SIZE <= buffer.Length && out <= buffer.Length - 96
    }

    /** One round at a character reference. */
    method CharRefRound(ghost table: Table, buffer: array<Byte>, start: nat) returns (b: array<Byte>, out: nat)
      requires Valid() && Room(buffer, start)
      requires cur + 1 < |text| && text[cur] == AMP && text[cur + 1] == HASH
      modifies this, buffer
      ensures Valid() && (b == buffer || fresh(b)) && Room(b, out) && start <= out
      ensures b[..start] == old(buffer[..start])
      ensures ParseOne(table, text, old(cur)) == Some(Parsed(b[start..out], cur))
    {
      hide CharRef, Utf8;
      var c := ParseCharRef();
      out := EmitChar(buffer, start, c);
      assert buffer[..out][start..] == Utf8(c) && buffer[..out][..start] == old(buffer[..start]);
      b := MakeRoom(buffer, out);
      assert b[start..out] == b[..out][start..];
      assert b[..start] == b[..out][..start];
    }

    /** One round at an ampersand that starts no character reference. */
    method EntityRound(table: Table, buffer: array<Byte>, start: nat) returns (ascii: bool, b: array<Byte>, out: nat)
      requires Valid() && Room(buffer, start)
      requires cur < |text| && text[cur] == AMP && At(text, cur + 1) != HASH
      modifies this, buffer
      ensures Valid() && (b == buffer || fresh(b)) && Room(b, out) && start <= out
      ensures b[..start] == old(buffer[..start])
      ensures match ParseOne(table, text, old(cur))
              case None => !ascii
              case Some(p) => ascii && p == Parsed(b[start..out], cur)
    {
      hide Name, Utf8, ByName, CharRef, CurrentChar;
      b, out := buffer, start;
      var name, ent;
      ascii, name, ent := ParseEntityRef(table);
      if !ascii { return; }
      if name == [] {
        buffer[start] := AMP;
        out := start + 1;
        assert buffer[..out][start..] == [AMP] && buffer[..out][..start] == old(buffer[..start]);
        b := MakeRoom(buffer, out);
      } else if ent.None? {
        buffer[start] := AMP;
        out := start + 1;
        assert buffer[..out][start..] == [AMP] && buffer[..out][..start] == old(buffer[..start]);
        b, out := CopyName(buffer, out, name);
        assert b[..out][..start] == b[..start + 1][..start];
        assert b[..out][start..] == b[..start + 1][start..] + name;
      } else {
        b := MakeRoom(buffer, start);
        assert b[..start] == old(buffer[..start]);
        out := EmitChar(b, start, ent.value.value);
        assert b[..out][start..] == Utf8(ent.value.value) && b[..out][..start] == old(buffer[..start]);
      }
      assert b[start..out] == b[..out][start..];
      assert b[..start] == b[..out][..start];
    }

    /** The name of an unknown entity, copied with a check before every byte. */
    method CopyName(buffer: array<Byte>, start: nat, name: seq<Byte>) returns (b: array<Byte>, out: nat)
      requires BUFFER_SIZE <= buffer.Length && start <= buffer.Length - 95 && name != []
      modifies buffer
      ensures (b == buffer || fresh(b)) && Room(b, out) && out == start + |name|
      ensures b[..out] == old(buffer[..start]) + name
    {
      b, out := buffer, start;
      for i := 0 to |name|
        invariant b == buffer || fresh(b)
        invariant BUFFER_SIZE <= b.Length && out == start + i && out <= b.Length - (if i == 0 then 95 else 99)
        invariant b[..out] == old(buffer[..start]) + name[..i]
      {
        b := MakeRoom(b, out);
        b[out] := name[i];
        out := out + 1;
        assert b[..out] == b[..out - 1] + [name[i]];
      }
    }

    /** One round at any other character. */
    method CharRound(ghost table: Table, buffer: array<Byte>, start: nat) returns (utf8: bool, b: array<Byte>, out: nat)
      requires Valid() && Room(buffer, start) && cur < |text| && text[cur] != AMP
      modifies this, buffer
      ensures Valid() && (b == buffer || fresh(b)) && Room(b, out) && start <= out
      ensures b[..start] == old(buffer[..start])
      ensures match ParseOne(table, text, old(cur))
              case None => !utf8
              case Some(p) => utf8 && p == Parsed(b[start..out], cur)
    {
      hide CurrentChar, Utf8, Name, CharRef, ByName;
      out := start;
      b := MakeRoom(buffer, start);
      var c := CurrentChar(text, cur);
      if c.None? || text[cur] == 0xC0 { return false, b, out; }
      out := EmitChar(b, start, c.value.0);
      assert b[..out][start..] == Utf8(c.value.0) && b[..out][..start] == old(buffer[..start]);
      cur := cur + c.value.1;
      utf8 := true;
      assert b[start..out] == b[..out][start..];
      assert b[..start] == b[..out][..start];
    }

    /** What was read so far and what is to come make up the whole value. */
    ghost predicate Underway(table: Table, start: nat, stop: Byte, pos: nat, done: seq<Byte>) {
      && start <= pos <= |text|
      && match ParseAttribute(table, text, pos, stop)
         case None => ParseAttribute(table, text, start, stop) == None
         case Some(rest) => ParseAttribute(table, text, start, stop) == Some(Parsed(done + rest.out, rest.pos))
    }

    lemma UnderwayStart(table: Table, start: nat, stop: Byte)
      requires start <= |text|
      ensures Underway(table, start, stop, start, [])
    {
      hide ParseAttribute;
      var r := ParseAttribute(table, text, start, stop);
      if r.Some? { assert [] + r.value.out == r.value.out; }
    }

    lemma UnderwayStep(table: Table, start: nat, stop: Byte, pos: nat, done: seq<Byte>)
      requires Underway(table, start, stop, pos, done) && pos < |text| && !Stops(text, pos, stop)
      ensures match ParseOne(table, text, pos)
              case None => ParseAttribute(table, text, start, stop) == None
              case Some(p) => Underway(table, start, stop, p.pos, done + p.out)
    {
      hide ParseOne, Stops;
      var one := ParseOne(table, text, pos);
      if one.Some? {
        var r := ParseAttribute(table, text, one.value.pos, stop);
        if r.Some? { assert (done + one.value.out) + r.value.out == done + (one.value.out + r.value.out); }
      }
    }

    /** One round of the loop, at any character. */
    method Round(table: Table, buffer: array<Byte>, start: nat) returns (utf8: bool, b: array<Byte>, out: nat)
      requires Valid() && Room(buffer, start) && cur < |text|
      modifies this, buffer
      ensures Valid() && (b == buffer || fresh(b)) && Room(b, out) && start <= out
      ensures b[..start] == old(buffer[..start])
      ensures match ParseOne(table, text, old(cur))
              case None => !utf8
              case Some(p) => utf8 && p == Parsed(b[start..out], cur)
    {
      hide ParseOne;
      if text[cur] == AMP {
        if At(text, cur + 1) == HASH {
          b, out := CharRefRound(table, buffer, start);
          utf8 := true;
        } else {
          utf8, b, out := EntityRound(table, buffer, start);
        }
      } else {
        utf8, b, out := CharRound(table, buffer, start);
      }
    }

    /**
      htmlParseHTMLAttribute: reads up to `stop` and writes a zero-terminated value, never past
      the end of the buffer. utf8 is false where the input is not UTF-8 or a name is not ASCII.
     */
    method ParseHTMLAttribute(table: Table, stop: Byte) returns (utf8: bool, buffer: array<Byte>, length: nat)
      requires Valid()
      modifies this
      ensures Valid() && fresh(buffer)
      ensures match ParseAttribute(table, text, old(cur), stop)
              case None => !utf8
              case Some(p) => && utf8 && length < buffer.Length
                              && p == Parsed(buffer[..length], cur) && buffer[length] == 0
    {
      hide ParseAttribute, ParseOne, Underway;
      ghost var start := cur;
      buffer := new Byte[BUFFER_SIZE];
      length, utf8 := 0, true;
      UnderwayStart(table, start, stop);
      assert buffer[..0] == [];
      while !Stops(text, cur, stop)
        invariant Valid() && fresh(buffer) && Room(buffer, length)
        invariant Underway(table, start, stop, cur, buffer[..length])
        decreases |text| - cur
      {
        ghost var done, pos := buffer[..length], cur;
        ghost var from := length;
        UnderwayStep(table, start, stop, cur, done);
        utf8, buffer, length := Round(table, buffer, length);
        if !utf8 { return; }
        assert buffer[..length] == buffer[..from] + buffer[from..length];
      }
      UnderwayEnd(table, start, stop, cur, buffer[..length]);
      buffer[length] := 0;
    }

    lemma UnderwayEnd(table: Table, start: nat, stop: Byte, pos: nat, done: seq<Byte>)
      requires Underway(table, start, stop, pos, done) && Stops(text, pos, stop)
      ensures ParseAttribute(table, text, start, stop) == Some(Parsed(done, pos))
    {
      assert done + [] == done;
    }
  }
}
