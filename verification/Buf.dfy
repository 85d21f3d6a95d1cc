/**
  The growable buffer of buf.c: five allocation schemes over one backing array, and an I/O mode
  in which the content starts inside the allocation. Whatever happens to the memory, the buffer
  is a sequence of bytes.
 */
module Buf {
  import opened Ordering

  datatype Scheme = DoubleIt | Exact | Immutable | IO | Hybrid | Bounded

  const BASE_SIZE := 4096
  const MAX_TEXT := 10000000
  const INT_MAX := 0x7FFF_FFFF
  const UINT_MAX := 0xFFFF_FFFF
  const NO_MEMORY := 2

  /** What UPDATE_COMPAT stores for a size. */
  function Compat(n: nat): nat {
    if n < INT_MAX then n else INT_MAX
  }

  /** A signed int that stands for a size. */
  predicate Agrees(stored: nat, n: nat) {
    stored == if n < 0x7FFF_FFFF then n else 0x7FFF_FFFF
  }

  /** xmlStrlen: up to the first zero byte. */
  function StrLen(s: seq<Byte>): (n: nat)
    ensures n <= |s| && (forall i :: 0 <= i < n ==> s[i] != 0) && (n < |s| ==> s[n] == 0)
  {
    if s == [] || s[0] == 0 then 0 else 1 + StrLen(s[1..])
  }

  // ----- Memory -----

  /** The cell `k` after `part` was stored at `to`. */
  ghost function Stored(was: seq<Byte>, to: nat, part: seq<Byte>, k: nat): Byte
    requires k < |was|
  {
    if to <= k < to + |part| then part[k - to] else was[k]
  }

  ghost predicate IsStored(mem: seq<Byte>, was: seq<Byte>, to: nat, part: seq<Byte>) {
    |mem| == |was| && to + |part| <= |was| && forall k: nat :: k < |was| ==> mem[k] == Stored(was, to, part, k)
  }

  lemma StoredHere(mem: seq<Byte>, was: seq<Byte>, to: nat, part: seq<Byte>)
    requires IsStored(mem, was, to, part)
    ensures mem[to..to + |part|] == part
  {
  }

  lemma StoredElsewhere(mem: seq<Byte>, was: seq<Byte>, to: nat, part: seq<Byte>, lo: nat, hi: nat)
    requires IsStored(mem, was, to, part) && lo <= hi <= |was| && (hi <= to || to + |part| <= lo)
    ensures mem[lo..hi] == was[lo..hi]
  {
  }

  lemma Halves(s: seq<Byte>, lo: nat, middle: nat, hi: nat)
    requires lo <= middle <= hi <= |s|
    ensures s[lo..hi] == s[lo..middle] + s[middle..hi]
  {
  }

  /** After `bytes` were stored at `c`: they, and the `u` bytes behind them, which stand where they stood. */
  lemma InFront(mem: seq<Byte>, was: seq<Byte>, c: nat, bytes: seq<Byte>, u: nat)
    requires |mem| == |was| && c + |bytes| + u < |was|
    requires mem[c..c + |bytes|] == bytes && mem[c + |bytes|..] == was[c + |bytes|..]
    ensures mem[c..c + |bytes| + u] == bytes + was[c + |bytes|..c + |bytes| + u]
    ensures mem[c + |bytes| + u] == was[c + |bytes| + u]
  {
    var m := c + |bytes|;
    Halves(mem, c, m, m + u);
    assert mem[m..m + u] == mem[m..][..u] && was[m..m + u] == was[m..][..u];
    assert mem[m + u] == mem[m..][u] && was[m + u] == was[m..][u];
  }

  lemma SliceSlice(s: seq<Byte>, lo: nat, hi: nat, k: nat)
    requires lo + k <= hi <= |s|
    ensures s[lo..hi][k..] == s[lo + k..hi]
  {
  }

  lemma SliceFront(s: seq<Byte>, lo: nat, hi: nat, k: nat)
    requires lo + k <= hi <= |s|
    ensures s[lo..hi][..k] == s[lo..lo + k]
  {
  }

  /** memmove: the two ranges may overlap. */
  method Move(mem: array<Byte>, from: nat, to: nat, n: nat)
    requires from + n <= mem.Length && to + n <= mem.Length
    modifies mem
    ensures IsStored(mem[..], old(mem[..]), to, old(mem[from..from + n]))
  {
    ghost var was := mem[..];
    ghost var part := mem[from..from + n];
    if to <= from {
      for i := 0 to n
        invariant forall k: nat :: k < mem.Length ==> mem[k] == Stored(was, to, part[..i], k)
      {
        assert mem[from + i] == was[from + i] == part[i];
        mem[to + i] := mem[from + i];
      }
    } else {
      for i := n downto 0
        invariant forall k: nat :: k < mem.Length ==> mem[k] == Stored(was, to + i, part[i..], k)
      {
        assert mem[from + i] == was[from + i] == part[i];
        mem[to + i] := mem[from + i];
      }
    }
    assert part[..n] == part && part[0..] == part;
  }

  /** What memmove is for: the bytes are there afterwards. */
  method MoveRange(mem: array<Byte>, from: nat, to: nat, n: nat)
    requires from + n <= mem.Length && to + n <= mem.Length
    modifies mem
    ensures mem[to..to + n] == old(mem[from..from + n])
  {
    hide IsStored;
    ghost var was := mem[..];
    Move(mem, from, to, n);
    StoredHere(mem[..], was, to, was[from..from + n]);
  }

  method Write(mem: array<Byte>, to: nat, bytes: seq<Byte>)
    requires to + |bytes| <= mem.Length
    modifies mem
    ensures IsStored(mem[..], old(mem[..]), to, bytes)
  {
    ghost var was := mem[..];
    for i := 0 to |bytes|
      invariant forall k: nat :: k < mem.Length ==> mem[k] == Stored(was, to, bytes[..i], k)
    {
      mem[to + i] := bytes[i];
    }
    assert bytes[..|bytes|] == bytes;
  }

  /** What memcpy is for: the bytes are there, and what stands behind them is untouched. */
  method WriteRange(mem: array<Byte>, to: nat, bytes: seq<Byte>)
    requires to + |bytes| <= mem.Length
    modifies mem
    ensures mem[to..to + |bytes|] == bytes && mem[to + |bytes|..] == old(mem[to + |bytes|..])
  {
    hide IsStored;
    ghost var was := mem[..];
    Write(mem, to, bytes);
    StoredHere(mem[..], was, to, bytes);
    StoredElsewhere(mem[..], was, to, bytes, to + |bytes|, mem.Length);
  }

  /** realloc: what fits is kept, the rest is undefined. */
  method Realloc(mem: array<Byte>, n: nat) returns (copy: array<Byte>)
    ensures fresh(copy) && copy.Length == n
    ensures forall k: nat :: k < n && k < mem.Length ==> copy[k] == mem[k]
  {
    copy := new Byte[n];
    for i := 0 to if n < mem.Length then n else mem.Length
      invariant forall k: nat :: k < i ==> copy[k] == mem[k]
    {
      copy[i] := mem[i];
    }
  }

  /** A new allocation with a copy of `used`, and a zero after it. */
  method NewCopy(used: seq<Byte>, n: nat) returns (copy: array<Byte>)
    requires |used| < n
    ensures fresh(copy) && copy.Length == n && copy[..|used|] == used && copy[|used|] == 0
  {
    copy := new Byte[n];
    for i := 0 to |used|
      invariant copy[..i] == used[..i]
    {
      copy[i] := used[i];
    }
    copy[|used|] := 0;
  }

  // ----- The new size of xmlBufResize -----

  /** Doubling until it is enough; None when the next step would not fit an unsigned int. */
  function Doubled(n: nat, size: nat): (r: Option<nat>)
    requires 1 <= n
    ensures r.Some? ==> size <= r.value && n <= r.value
    ensures r.Some? && n <= UINT_MAX ==> r.value <= UINT_MAX
    ensures size <= UINT_MAX / 2 ==> r.Some?
    decreases size - n
  {
    if size <= n then Some(n)
    else if n > UINT_MAX / 2 then None
    else Doubled(2 * n, size)
  }

  /** The size the scheme chooses for a buffer of `have` cells, `use` of them used, that needs `size`. */
  function NewSize(alloc: Scheme, have: nat, use: nat, size: nat): (r: Option<nat>)
    requires use <= have <= size
    ensures r.Some? ==> size <= r.value
  {
    match alloc
    case IO => Doubled(if have > 0 then 2 * have else size + 10, size)
    case DoubleIt => Doubled(if have > 0 then 2 * have else size + 10, size)
    case Hybrid => if use < BASE_SIZE then Some(size) else Doubled(2 * have, size)
    case _ => Some(size + 10)
  }

  function Pow2(k: nat): nat {
    if k == 0 then 1 else 2 * Pow2(k - 1)
  }

  /** Doubling goes on exactly until it is enough, and fails only where the number has passed half the range. */
  lemma {:induction false} DoubledIs(n: nat, size: nat) returns (k: nat)
    requires 1 <= n
    ensures match Doubled(n, size)
            case Some(r) => r == n * Pow2(k) && size <= r && (k > 0 ==> n * Pow2(k - 1) < size)
            case None => UINT_MAX / 2 < n * Pow2(k) < size
    decreases size - n
  {
    k := 0;
    if n < size && n <= UINT_MAX / 2 {
      k := DoubledIs(2 * n, size);
      assert n * Pow2(k + 1) == 2 * n * Pow2(k);
      assert k > 0 ==> n * Pow2(k) == 2 * n * Pow2(k - 1);
      k := k + 1;
    }
  }

  /**
    What growing costs: the doubling schemes take the first doubling that is enough, at least
    one; the others take what is needed, and little more.
   */
  lemma NewSizeIs(alloc: Scheme, have: nat, use: nat, size: nat) returns (k: nat)
    requires 0 < have && use <= have <= size <= 0x7FFF_FFFF
    ensures var n := NewSize(alloc, have, use, size).value;
            if alloc == IO || alloc == DoubleIt || (alloc == Hybrid && use >= 4096)
            then n == 2 * have * Pow2(k) && (k > 0 ==> 2 * have * Pow2(k - 1) < size)
            else n == if alloc == Hybrid then size else size + 10
  {
    NewSizeFits(alloc, have, use, size);
    k := DoubledIs(2 * have, size);
  }

  /** Within the range of int no scheme fails, and no computation leaves the range of unsigned int. */
  lemma NewSizeFits(alloc: Scheme, have: nat, use: nat, size: nat)
    requires use <= have <= size <= INT_MAX
    ensures NewSize(alloc, have, use, size).Some? && NewSize(alloc, have, use, size).value <= UINT_MAX
  {
    if have > 0 {
      var r := Doubled(2 * have, size);
      assert r.Some? && r.value <= UINT_MAX;
    }
  }

  /** The size after growing: nothing happens while there is room; otherwise it doubles, if that helps. */
  function GrownSize(size: nat, use: nat, len: nat, bounded: bool): nat {
    if use + len < size then size
    else
      var n := if len < size then 2 * size else use + len + 100;
      if bounded && n > 10_000_000 then 10_000_000 else n
  }

  // ----- The buffer -----

  /** The pointers of a parser input, as positions in the allocation its buffer uses. */
  datatype Input = Input(base: int, cur: int, end: int)

  class XmlBuf {
    /** The allocation; `content` is a position in it, except that a null content has no cells. */
    var mem: array<Byte>
    var content: nat
    var absent: bool
    /** contentIO is set: then it is the start of the allocation. */
    var io: bool
    var use: nat
    var size: nat
    var alloc: Scheme
    var compatUse: nat
    var compatSize: nat
    var error: bool

    /** The compatibility fields agree, so CHECK_COMPAT changes nothing. */
    ghost predicate InSync()
      reads this`use, this`size, this`compatUse, this`compatSize
    {
      Agrees(compatUse, use) && Agrees(compatSize, size)
    }

    /** The content lies inside the allocation, and there is a cell after it. */
    ghost predicate Layout()
      reads this`mem, this`content, this`absent, this`io, this`use, this`size, this`alloc
    {
      && content + size <= mem.Length
      && (if absent then size == 0 && use == 0 && content == 0 && !io
          else if alloc == Immutable then use <= size
          else use < size)
      && (io ==> alloc == IO)
      && (content > 0 ==> io || alloc == Immutable)
    }

    ghost predicate Shape()
      reads this
    {
      InSync() && Layout()
    }

    /** The byte after the content is zero. */
    ghost predicate Terminated()
      requires Shape()
      reads this, mem
    {
      absent || alloc == Immutable || mem[content + use] == 0
    }

    ghost predicate Valid()
      reads this, mem
    {
      Shape() && Terminated()
    }

    /** What the buffer stands for. */
    ghost function Contents(): seq<Byte>
      requires Layout()
      reads this`mem, this`content, this`absent, this`io, this`use, this`size, this`alloc, mem
    {
      mem[content..content + use]
    }

    /** Sizes that a signed int can hold, so that no unsigned computation wraps. */
    ghost predicate Small(n: nat)
      reads this
    {
      size <= INT_MAX && n <= INT_MAX
    }

    /** xmlBufCreateSize */
    constructor (size: nat, scheme: Scheme)
      requires scheme != Immutable
      ensures Valid() && fresh(mem) && Contents() == [] && alloc == scheme && !error && !io
      ensures this.size == if size > 0 then size + 2 else 0
    {
      var n := if size > 0 then size + 2 else 0;
      var a := new Byte[n](_ => 0);
      mem, content, absent, io := a, 0, n == 0, false;
      use, this.size, alloc, error := 0, n, scheme, false;
      compatUse, compatSize := 0, Compat(n);
    }

    /** A zero byte behind the content. */
    method PutZero()
      requires content + use < mem.Length
      modifies mem
      ensures mem[content..content + use] == old(mem[content..content + use]) && mem[content + use] == 0
    {
      mem[content + use] := 0;
    }

    /** Ends the content with a zero byte and updates the compatibility fields. */
    method Seal()
      requires Layout() && alloc != Immutable && !absent
      modifies this`compatUse, this`compatSize, mem
      ensures Valid() && Contents() == old(Contents())
    {
      PutZero();
      compatSize, compatUse := Compat(size), Compat(use);
    }

    /** CHECK_COMPAT: takes over what code compiled against the old structure has stored. */
    method CheckCompat()
      modifies this`use, this`size
      ensures old(InSync()) ==> use == old(use) && size == old(size)
    {
      if size != compatSize && compatSize < INT_MAX { size := compatSize; }
      if use != compatUse && compatUse < INT_MAX { use := compatUse; }
    }

    /** xmlBufSetAllocationScheme: a buffer that is immutable or in I/O mode stays so; switching to I/O reports -1. */
    method SetAllocationScheme(scheme: Scheme) returns (r: int)
      requires Valid()
      modifies this`alloc, this`io
      ensures Valid() && Contents() == old(Contents())
      ensures alloc == (if error || old(alloc) == Immutable || old(alloc) == IO then old(alloc) else scheme)
      ensures r == 0 <==> !error && old(alloc) != Immutable && old(alloc) != IO && scheme != IO
    {
      if error || alloc == Immutable || alloc == IO { return -1; }
      if scheme != IO {
        alloc := scheme;
        return 0;
      }
      alloc, io := IO, !absent;
      r := -1;
    }

    /** xmlBufEmpty */
    method Empty()
      requires Valid() && alloc != Immutable
      modifies this, mem
      ensures Valid() && mem == old(mem) && alloc == old(alloc) && error == old(error)
      ensures Contents() == if error then old(Contents()) else []
      ensures !error && io ==> content == 0 && size == old(size) + old(content)
    {
      if error || absent { return; }
      CheckCompat();
      use := 0;
      if alloc == IO && io {
        size := size + content;
        content := 0;
      }
      Seal();
    }

    /**
      Where the content starts after losing `len` bytes: at the start again when most of an I/O
      buffer lies before it.
     */
    ghost function NewStart(start: nat, size: nat, len: nat): int
      reads this
    {
      if len == 0 || !(io || alloc == Immutable) then start
      else if io && start + len >= size - len then 0
      else start + len
    }

    /** xmlBufShrink: drops the first `len` bytes, or nothing. */
    method Shrink(len: nat) returns (removed: nat)
      requires Valid()
      modifies this, mem
      ensures Valid() && mem == old(mem) && alloc == old(alloc) && error == old(error)
      ensures removed == if error || len > old(use) then 0 else len
      ensures Contents() == old(Contents())[removed..]
      ensures content + size == old(content) + old(size) && content == NewStart(old(content), old(size), removed)
    {
      if error { return 0; }
      CheckCompat();
      if len == 0 || len > use { return 0; }
      removed := len;
      assert !absent;
      hide Contents, Layout;
      if alloc == Immutable || (alloc == IO && io) {
        Slide(len);
      } else {
        MoveDown(len);
      }
    }

    /** The content starts `len` bytes later. */
    method Advance(len: nat)
      requires Layout() && len <= use && !absent && (io || alloc == Immutable)
      modifies this`content, this`size, this`use
      ensures Layout() && Contents() == old(Contents())[len..]
      ensures content == old(content) + len && size == old(size) - len && use == old(use) - len
    {
      SliceSlice(mem[..], content, content + use, len);
      content, size, use := content + len, size - len, use - len;
    }

    /** The content starts `len` bytes later; when most of an I/O buffer lies behind it, it moves back. */
    method Slide(len: nat)
      requires Valid() && len <= use && !absent && (io || alloc == Immutable)
      modifies this`content, this`size, this`use, this`compatUse, this`compatSize, mem
      ensures Valid() && Contents() == old(Contents())[len..]
      ensures content + size == old(content) + old(size)
      ensures content == if io && old(content) + len >= old(size) - len then 0 else old(content) + len
    {
      hide Contents, Layout;
      Advance(len);
      if alloc == IO && io && content >= size {
        MoveToStart();
      }
      compatSize, compatUse := Compat(size), Compat(use);
    }

    /** The content moves to the start of its allocation, which gives its space back. */
    method MoveToStart()
      requires Layout() && !absent && alloc == IO
      modifies this`content, this`size, mem
      ensures Layout() && Contents() == old(Contents())
      ensures content == 0 && size == old(content) + old(size) && mem[use] == 0
    {
      MoveRange(mem, content, 0, use);
      content, size := 0, size + content;
      mem[use] := 0;
    }

    /** The bytes after the first `len` move to the front. */
    method MoveDown(len: nat)
      requires Shape() && alloc != Immutable && !absent && len <= use
      modifies this`use, this`compatUse, this`compatSize, mem
      ensures Valid() && Contents() == old(Contents())[len..]
    {
      SliceSlice(mem[..], content, content + use, len);
      use := use - len;
      MoveRange(mem, content + len, content, use);
      Seal();
    }

    /** The last `len` bytes are gone. */
    method Cut(len: nat)
      requires Shape() && alloc != Immutable && !absent && len <= use
      modifies this`use, this`compatUse, this`compatSize, mem
      ensures Valid() && Contents() == old(Contents())[..old(use) - len]
    {
      SliceFront(mem[..], content, content + use, use - len);
      use := use - len;
      Seal();
    }

    /** xmlBufErase: drops the last `len` bytes, or nothing. */
    method Erase(len: nat) returns (r: int)
      requires Valid() && alloc != Immutable && (absent ==> len > 0)
      modifies this, mem
      ensures Valid() && mem == old(mem) && alloc == old(alloc) && error == old(error)
      ensures r == if error || len > old(use) then -1 else 0
      ensures Contents() == if r == 0 then old(Contents())[..old(use) - len] else old(Contents())
    {
      if error { return -1; }
      CheckCompat();
      if len > use { return -1; }
      Cut(len);
      r := 0;
    }

    /**
      xmlBufAddLen: counts `len` bytes that were stored behind the content. When they fill the
      buffer to its last cell, -1 is returned although they are counted, and nothing ends them.
     */
    method AddLen(len: nat) returns (r: int)
      requires Valid()
      modifies this, mem
      ensures mem == old(mem) && alloc == old(alloc) && error == old(error) && content == old(content)
              && size == old(size)
      ensures r == 0 <==> !error && len < size - old(use)
      ensures r == 0 ==> Valid() && Contents() == old(mem[content..content + use + len])
      ensures r != 0 && (error || len > size - old(use)) ==> Valid() && Contents() == old(Contents())
      ensures !error && len == size - old(use) ==> r == -1 && use == size && (Shape() <==> absent || alloc == Immutable)
    {
      if error { return -1; }
      CheckCompat();
      if len > size - use { return -1; }
      use := use + len;
      compatSize, compatUse := Compat(size), Compat(use);
      if size > use {
        PutZero();
        r := 0;
      } else {
        r := -1;
      }
    }

    /** The reallocation of xmlBufGrowInternal and xmlBufResize: the content stays where it is in the allocation. */
    method Reallocate(newSize: nat)
      requires Shape() && alloc != Immutable && use < newSize
      modifies this
      ensures Shape() && fresh(mem) && !absent && size == newSize && mem.Length == content + size
      ensures content == old(content) && use == old(use) && alloc == old(alloc) && error == old(error) && io == old(io)
      ensures Contents() == old(Contents())
      ensures old(Terminated()) && !old(absent) ==> Terminated()
    {
      var a := Realloc(mem, content + newSize);
      mem := a;
      absent, size := false, newSize;
      compatSize, compatUse := Compat(size), Compat(use);
      assert use > 0 ==> !old(absent);
    }

    /**
      xmlBufGrowInternal: afterwards there is room for more than `len` bytes. Only when there was
      no content at all is the byte after it undefined.
     */
    method GrowInternal(len: nat) returns (room: nat)
      requires Valid()
      modifies this
      ensures Shape() && Contents() == old(Contents()) && alloc == old(alloc) && use == old(use)
              && content == old(content)
      ensures !old(absent) || absent ==> Valid()
      ensures mem == old(mem) || fresh(mem)
      ensures old(error) || alloc == Immutable ==>
              room == 0 && error == old(error) && mem == old(mem) && size == old(size)
      ensures alloc != Immutable && !error ==> use + len < size && room == size - use
      ensures alloc != Immutable && !error ==> size == GrownSize(old(size), use, len, alloc == Bounded)
      ensures error && !old(error) ==> alloc == Bounded && room == 0 && (use + len >= MAX_TEXT || size >= MAX_TEXT)
    {
      if error { return 0; }
      CheckCompat();
      if alloc == Immutable { return 0; }
      if use + len < size { return size - use; }
      var newSize := if size > len then size * 2 else use + len + 100;
      if alloc == Bounded {
        if use + len >= MAX_TEXT || size >= MAX_TEXT {
          error := true;
          return 0;
        }
        if newSize >= MAX_TEXT { newSize := MAX_TEXT; }
      }
      Reallocate(newSize);
      room := size - use;
    }

    /** The loops of xmlBufResize over newSize. */
    static method DoubleUp(start: nat, size: nat) returns (r: Option<nat>)
      requires 1 <= start
      ensures r == Doubled(start, size)
    {
      var newSize := start;
      while size > newSize
        invariant 1 <= newSize && Doubled(newSize, size) == Doubled(start, size)
        decreases size - newSize
      {
        if newSize > UINT_MAX / 2 { return None; }
        newSize := newSize * 2;
      }
      r := Some(newSize);
    }

    method ChooseSize(wanted: nat) returns (r: Option<nat>)
      requires Shape() && use <= size <= wanted
      ensures r == NewSize(alloc, size, use, wanted)
    {
      match alloc
      case IO => r := DoubleUp(if size > 0 then size * 2 else wanted + 10, wanted);
      case DoubleIt => r := DoubleUp(if size > 0 then size * 2 else wanted + 10, wanted);
      case Hybrid =>
        if use < BASE_SIZE {
          r := Some(wanted);
        } else {
          r := DoubleUp(size * 2, wanted);
        }
      case _ => r := Some(wanted + 10);
    }

    /** xmlBufResize: room for at least `wanted` cells, and the same content. */
    method Resize(wanted: nat) returns (ok: bool)
      requires Shape() && Small(wanted) && (wanted == 0 && absent ==> alloc != Hybrid)
      modifies this, mem
      ensures Shape() && Contents() == old(Contents()) && alloc == old(alloc) && use == old(use)
      ensures old(Terminated()) && (!old(absent) || absent) ==> Valid()
      ensures mem == old(mem) || fresh(mem)
      ensures ok ==> size >= wanted && size >= old(size) && error == old(error)
      ensures ok ==> if wanted < old(size) then size == old(size) && mem == old(mem)
                     else Some(size) == NewSize(alloc, old(size), use, wanted)
      ensures ok <==> !old(error) && alloc != Immutable && !(alloc == Bounded && wanted >= 10_000_000)
      ensures error == (old(error) || (alloc == Bounded && wanted >= MAX_TEXT))
    {
      if error { return false; }
      CheckCompat();
      if alloc == Immutable { return false; }
      if alloc == Bounded && wanted >= MAX_TEXT {
        error := true;
        return false;
      }
      if wanted < size { return true; }
      hide Contents, NewSize, Doubled;
      NewSizeFits(alloc, size, use, wanted);
      var chosen := ChooseSize(wanted);
      var newSize := chosen.value;
      Settle(newSize);
      ok := true;
    }

    /** The last part of xmlBufResize: where the content goes. */
    method Settle(newSize: nat)
      requires Shape() && alloc != Immutable && size <= newSize && use < newSize
      modifies this, mem
      ensures Shape() && Contents() == old(Contents()) && alloc == old(alloc) && use == old(use) && error == old(error)
      ensures old(Terminated()) && !old(absent) ==> Terminated()
      ensures size == newSize && !absent && (mem == old(mem) || fresh(mem))
    {
      if alloc == IO && io {
        if content > newSize {
          MoveToStart();
          size := newSize;
          compatSize, compatUse := Compat(size), Compat(use);
        } else {
          Reallocate(newSize);
        }
      } else if absent || size - use < 100 {
        Reallocate(newSize);
      } else {
        CopyOut(newSize);
      }
    }

    /** The content moves to new memory. */
    method CopyOut(newSize: nat)
      requires Shape() && alloc != Immutable && !absent && !io && size <= newSize && use < newSize
      modifies this
      ensures Shape() && Terminated() && Contents() == old(Contents()) && alloc == old(alloc) && use == old(use)
      ensures error == old(error) && size == newSize && !absent && fresh(mem)
    {
      var a := NewCopy(mem[content..content + use], newSize);
      mem, size := a, newSize;
      compatSize, compatUse := Compat(size), Compat(use);
    }

    /** The length a caller means: -1 asks for the bytes before the first zero. */
    static function LengthOf(str: seq<Byte>, len: int): int {
      if len < 0 then StrLen(str) else len
    }

    /** The arguments of xmlBufAdd and xmlBufAddHead that are worth working on. */
    ghost predicate Writable(str: seq<Byte>, len: int)
      reads this
    {
      -1 <= len <= |str| && Small(use + LengthOf(str, len) + 2)
    }

    /** The buffer has reached the limit of its scheme. */
    ghost predicate OverLimit(need: nat)
      reads this
    {
      alloc == Bounded && need > size && need >= MAX_TEXT
    }

    /** Space for `need` cells, or an error. */
    method MakeSpace(need: nat) returns (r: int)
      requires Shape() && alloc != Immutable && !error && Small(need) && need > 0
      modifies this, mem
      ensures Shape() && Contents() == old(Contents()) && alloc == old(alloc) && use == old(use)
      ensures old(Terminated()) && (!old(absent) || absent) ==> Valid()
      ensures mem == old(mem) || fresh(mem)
      ensures r == if old(OverLimit(need)) then -1 else 0
      ensures error == old(OverLimit(need))
      ensures r == 0 ==> size >= need
      ensures r != 0 ==> absent == old(absent)
    {
      if need > size {
        if alloc == Bounded && need >= MAX_TEXT {
          error := true;
          return -1;
        }
        var ok := Resize(need);
        if !ok { return NO_MEMORY; }
      }
      r := 0;
    }

    /** xmlBufAdd: appends `len` bytes, whatever the scheme; a full bounded buffer keeps what it has. */
    method Add(str: seq<Byte>, len: int) returns (r: int)
      requires Valid() && (len >= -1 ==> Writable(str, len))
      modifies this, mem
      ensures Valid() && alloc == old(alloc) && (mem == old(mem) || fresh(mem))
      ensures var n := LengthOf(str, len);
              var refused := old(error) || alloc == Immutable || len < -1;
              var full := n > 0 && old(OverLimit(use + (if n >= 0 then n else 0) + 2));
              && (r == 0 <==> !refused && !full)
              && error == (old(error) || (!refused && full))
              && Contents() == if r == 0 then old(Contents()) + str[..n] else old(Contents())
    {
      if error { return -1; }
      CheckCompat();
      if alloc == Immutable || len < -1 { return -1; }
      var n := if len < 0 then StrLen(str) else len;
      if n == 0 {
        assert str[..0] == [];
        return 0;
      }
      r := MakeSpace(use + n + 2);
      if r != 0 { return; }
      Append(str[..n]);
    }

    /** Storing bytes behind the content. */
    method Append(bytes: seq<Byte>)
      requires Shape() && alloc != Immutable && !absent && use + |bytes| < size
      modifies this`use, this`compatUse, this`compatSize, mem
      ensures Valid() && Contents() == old(Contents()) + bytes
    {
      WriteBack(bytes);
      Seal();
    }

    method WriteBack(bytes: seq<Byte>)
      requires content + use + |bytes| <= mem.Length
      modifies this`use, mem
      ensures use == old(use) + |bytes|
      ensures mem[content..content + use] == old(mem[content..content + use]) + bytes
    {
      hide IsStored;
      ghost var was := mem[..];
      Write(mem, content + use, bytes);
      StoredHere(mem[..], was, content + use, bytes);
      StoredElsewhere(mem[..], was, content + use, bytes, content, content + use);
      ghost var middle := content + use;
      use := use + |bytes|;
      Halves(mem[..], content, middle, content + use);
    }

    /** The bytes move up, and leave a gap. */
    method MoveUp(n: nat)
      requires Layout() && alloc != Immutable && !absent && use + n < size
      modifies mem
      ensures Layout() && content + n + use <= mem.Length && mem[content + n..content + n + use] == old(Contents())
    {
      MoveRange(mem, content, content + n, use);
    }

    /** Storing bytes in front of the content, which moves up. */
    method Prepend(bytes: seq<Byte>)
      requires Shape() && alloc != Immutable && !absent && use + |bytes| < size
      modifies this`use, this`compatUse, this`compatSize, mem
      ensures Valid() && Contents() == bytes + old(Contents())
    {
      hide Contents, Layout;
      MoveUp(|bytes|);
      WriteFront(bytes);
      Seal();
    }

    /** Storing bytes before what stands behind their place. */
    method WriteFront(bytes: seq<Byte>)
      requires Layout() && !absent && alloc != Immutable && use + |bytes| < size
      modifies this`use, mem
      ensures Layout() && use == old(use) + |bytes|
      ensures Contents() == bytes + old(mem[content + |bytes|..content + |bytes| + use])
      ensures mem[content + use] == old(mem[content + |bytes| + use])
    {
      ghost var was := mem[..];
      WriteRange(mem, content, bytes);
      InFront(mem[..], was, content, bytes, use);
      use := use + |bytes|;
    }

    /** Storing bytes into the space that an earlier shrink left in front of the content. */
    method IntoGap(bytes: seq<Byte>)
      requires Valid() && alloc == IO && io && !absent && |bytes| <= content
      modifies this`content, this`size, this`use, this`compatUse, this`compatSize, mem
      ensures Valid() && Contents() == bytes + old(Contents()) && content == old(content) - |bytes|
    {
      content, size := content - |bytes|, size + |bytes|;
      WriteFront(bytes);
      compatSize, compatUse := Compat(size), Compat(use);
    }

    /** xmlBufAddHead: prepends, into the space an earlier shrink left if there is enough of it. */
    method AddHead(str: seq<Byte>, len: int) returns (r: int)
      requires Valid() && (len >= -1 ==> Writable(str, len))
      modifies this, mem
      ensures Valid() && alloc == old(alloc) && (mem == old(mem) || fresh(mem))
      ensures var n := LengthOf(str, len);
              var refused := old(error) || alloc == Immutable || len < -1 || (len == -1 && n == 0);
              var full := n > 0 && old(OverLimit(use + (if n >= 0 then n else 0) + 2));
              && (r == 0 <==> !refused && !full)
              && error == (old(error) || (!refused && full))
              && Contents() == (if r == 0 then str[..n] + old(Contents()) else old(Contents()))
              && (r == 0 && old(io) && old(content) > n ==> mem == old(mem) && content == old(content) - n)
    {
      if error { return -1; }
      CheckCompat();
      if alloc == Immutable || len < -1 { return -1; }
      if len == 0 {
        assert str[..0] == [];
        return 0;
      }
      var n := if len < 0 then StrLen(str) else len;
      if n <= 0 { return -1; }
      if alloc == IO && io && content > n {
        IntoGap(str[..n]);
        return 0;
      }
      r := MakeSpace(use + n + 2);
      if r != 0 { return; }
      Prepend(str[..n]);
    }

    // ----- Input pointers -----

    /** xmlBufGetInputBase: how far the base of an input is behind the content; outside the buffer is an error. */
    method GetInputBase(input: Input) returns (base: int)
      requires Valid()
      modifies this`error, this`use, this`size
      ensures Valid() && Contents() == old(Contents()) && size == old(size) && use == old(use)
      ensures var inside := content <= input.base <= content + size;
              if old(error) then base == -1 && error
              else error == !inside && base == if inside then input.base - content else 0
    {
      if error { return -1; }
      CheckCompat();
      base := input.base - content;
      if base < 0 || base > size {
        error := true;
        base := 0;
      }
    }

    /** xmlBufSetInputBaseCur */
    method SetInputBaseCur(input: Input, base: nat, cur: nat) returns (r: int, moved: Input)
      requires Valid()
      modifies this`use, this`size
      ensures Valid() && use == old(use) && size == old(size)
      ensures r == if error then -1 else 0
      ensures moved == if error then input else Input(content + base, content + base + cur, content + use)
    {
      if error { return -1, input; }
      CheckCompat();
      r := 0;
      moved := Input(content + base, content + base + cur, content + use);
    }

    /**
      Growing a buffer under an input: the same bytes, and the pointers stand where they stood
      among them, wherever the bytes are now.
     */
    method GrowUnder(input: Input, len: nat) returns (moved: Input)
      requires Valid() && !error && !absent
      requires content <= input.base <= input.cur <= input.end == content + use
      modifies this
      ensures Valid() && Contents() == old(Contents())
      ensures !error ==>
              moved.base - content == old(input.base - content) && moved.cur - content == old(input.cur - content)
      ensures !error ==> moved.end == content + use
    {
      var base := GetInputBase(input);
      var cur := input.cur - input.base;
      var _ := GrowInternal(len);
      if error { return input; }
      var _, to := SetInputBaseCur(input, base, cur);
      moved := to;
    }
  }
}
