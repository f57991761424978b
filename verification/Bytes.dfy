/** Bytes, 32-bit words and the buffer primitives (memset, memcpy, word stores)
    that every other module is written with. */
module Bytes {

  type byte = b: int | 0 <= b < 0x100
  type u32 = n: int | 0 <= n < 0x1_0000_0000

  const U32_RANGE := 0x1_0000_0000

  datatype Option<+T> = None | Some(value: T)

  // C's unsigned arithmetic on 32 bits.
  function Wrap32(n: int): (w: u32)
    ensures 0 <= n < U32_RANGE ==> w == n
  {
    n % U32_RANGE
  }

  function Min(a: int, b: int): (m: int)
    ensures m <= a && m <= b && (m == a || m == b)
  {
    if a <= b then a else b
  }

  // ---------------------------------------------------------------- words

  // A little-endian 32-bit word, as the target stores it.
  function Le32(n: u32): (s: seq<byte>)
    ensures |s| == 4
  {
    [n % 0x100, n / 0x100 % 0x100, n / 0x1_0000 % 0x100, n / 0x100_0000]
  }

  function U32At(s: seq<byte>, off: nat): u32
    requires off + 4 <= |s|
  {
    var a: int, b: int, c: int, d: int := s[off], s[off + 1], s[off + 2], s[off + 3];
    a + 0x100 * b + 0x1_0000 * c + 0x100_0000 * d
  }

  lemma WordRoundTrip(n: u32)
    ensures U32At(Le32(n), 0) == n
  {
    assert n / 0x1_0000 == n / 0x100 / 0x100;
    assert n / 0x100_0000 == n / 0x1_0000 / 0x100;
  }

  // A field whose bytes are a stored word reads back as that word.
  lemma WordInField(s: seq<byte>, off: nat, n: u32)
    requires off + 4 <= |s| && s[off..off + 4] == Le32(n)
    ensures U32At(s, off) == n
  {
    WordRoundTrip(n);
    var w := s[off..off + 4];
    assert U32At(w, 0) == U32At(s, off);
  }

  // Conversely, four bytes are the stored form of the word they hold.
  lemma FieldOfWord(s: seq<byte>, off: nat)
    requires off + 4 <= |s|
    ensures Le32(U32At(s, off)) == s[off..off + 4]
  {
    var a: int, b: int, c: int, d: int := s[off], s[off + 1], s[off + 2], s[off + 3];
    var n := a + 0x100 * b + 0x1_0000 * c + 0x100_0000 * d;
    assert n == a + 0x100 * (b + 0x100 * (c + 0x100 * d));
    assert n / 0x100 == b + 0x100 * (c + 0x100 * d);
    assert n / 0x1_0000 == n / 0x100 / 0x100 == c + 0x100 * d;
    assert n / 0x100_0000 == n / 0x1_0000 / 0x100 == d;
  }

  // ---------------------------------------------------------------- big numbers

  // OS2IP of section 4.2 of RFC 8017: the value of a big-endian byte string.
  function Os2ip(s: seq<byte>): nat
  {
    if s == [] then 0 else Os2ip(s[..|s| - 1]) * 0x100 + s[|s| - 1]
  }

  // The value of a little-endian byte string.
  function LittleEndian(s: seq<byte>): nat
  {
    if s == [] then 0 else s[0] + 0x100 * LittleEndian(s[1..])
  }

  lemma {:induction false} Os2ipLeadingZeros(n: nat, s: seq<byte>)
    ensures Os2ip(Zeros(n) + s) == Os2ip(s)
    decreases n + |s|
  {
    if s == [] {
      assert Zeros(n) + s == Zeros(n);
      if n > 0 {
        assert Zeros(n)[..n - 1] == Zeros(n - 1) + [];
        Os2ipLeadingZeros(n - 1, []);
      }
    } else {
      assert (Zeros(n) + s)[..n + |s| - 1] == Zeros(n) + s[..|s| - 1];
      Os2ipLeadingZeros(n, s[..|s| - 1]);
    }
  }

  // ---------------------------------------------------------------- padding

  function Zeros(n: nat): (s: seq<byte>)
    ensures |s| == n
    ensures forall i :: 0 <= i < n ==> s[i] == 0
  {
    seq(n, _ => 0)
  }

  function Padded(d: seq<byte>, n: nat): (s: seq<byte>)
    requires |d| <= n
    ensures |s| == n && d <= s
  {
    d + Zeros(n - |d|)
  }

  function LeftPadded(d: seq<byte>, n: nat): (s: seq<byte>)
    requires |d| <= n
    ensures |s| == n && s[n - |d|..] == d
  {
    Zeros(n - |d|) + d
  }

  // The string without its trailing zeros: what survives a copy into a zeroed
  // field whose length is not transmitted.
  function StripZeros(s: seq<byte>): (t: seq<byte>)
    ensures t <= s
    ensures t == [] || t[|t| - 1] != 0
  {
    if s == [] || s[|s| - 1] != 0 then s else StripZeros(s[..|s| - 1])
  }

  lemma {:induction false} StripPadding(d: seq<byte>, n: nat)
    requires |d| <= n
    ensures StripZeros(Padded(d, n)) == StripZeros(d)
    decreases n
  {
    if |d| < n {
      assert Padded(d, n)[..n - 1] == Padded(d, n - 1);
      StripPadding(d, n - 1);
    } else {
      assert Padded(d, n) == d;
    }
  }

  // ---------------------------------------------------------------- ranges

  // Half-open byte ranges.
  datatype Range = Range(lo: nat, hi: nat)

  predicate Within(i: nat, ranges: seq<Range>)
  {
    exists k :: 0 <= k < |ranges| && ranges[k].lo <= i < ranges[k].hi
  }

  predicate Inside(ranges: seq<Range>, size: nat)
  {
    forall i :: 0 <= i < |ranges| ==> ranges[i].hi <= size
  }

  // ---------------------------------------------------------------- stores

  function Overwrite(s: seq<byte>, off: nat, d: seq<byte>): (r: seq<byte>)
    requires off + |d| <= |s|
    ensures |r| == |s|
  {
    seq(|s|, i requires 0 <= i < |s| => if off <= i < off + |d| then d[i - off] else s[i])
  }

  lemma OverwriteAt(s: seq<byte>, off: nat, d: seq<byte>)
    requires off + |d| <= |s|
    ensures var r := Overwrite(s, off, d);
            r[off..off + |d|] == d && r[..off] == s[..off] && r[off + |d|..] == s[off + |d|..]
  {
  }

  lemma OverwriteAll(s: seq<byte>, d: seq<byte>)
    requires |d| == |s|
    ensures Overwrite(s, 0, d) == d
  {
  }

  // A store leaves every slice it does not meet as it was.
  lemma OverwriteElsewhere(s: seq<byte>, off: nat, d: seq<byte>, lo: nat, hi: nat)
    requires off + |d| <= |s| && lo <= hi <= |s|
    requires hi <= off || off + |d| <= lo
    ensures Overwrite(s, off, d)[lo..hi] == s[lo..hi]
  {
  }

  // What a read of up to n bytes leaves in a zeroed buffer of n bytes.
  function Filled(n: nat, reply: seq<byte>): (s: seq<byte>)
    ensures |s| == n
  {
    Overwrite(Zeros(n), 0, reply[..Min(|reply|, n)])
  }

  // memset to zero, the only value the library fills with.
  method Clear(a: array<byte>, off: nat, n: nat)
    requires off + n <= a.Length
    modifies a
    ensures a[..] == Overwrite(old(a[..]), off, Zeros(n))
  {
    for i := 0 to n
      invariant forall k :: 0 <= k < a.Length ==> a[k] == if off <= k < off + i then 0 else old(a[k])
    {
      a[off + i] := 0;
    }
    assert a[..] == Overwrite(old(a[..]), off, Zeros(n));
  }

  method MemCpy(dst: array<byte>, dstOff: nat, src: array<byte>, srcOff: nat, n: nat)
    requires dst != src
    requires dstOff + n <= dst.Length && srcOff + n <= src.Length
    modifies dst
    ensures dst[..] == Overwrite(old(dst[..]), dstOff, old(src[..])[srcOff..srcOff + n])
  {
    for i := 0 to n
      invariant forall k :: 0 <= k < dst.Length ==>
        dst[k] == if dstOff <= k < dstOff + i then src[srcOff + k - dstOff] else old(dst[k])
    {
      dst[dstOff + i] := src[srcOff + i];
    }
    assert dst[..] == Overwrite(old(dst[..]), dstOff, src[srcOff..srcOff + n]);
  }

  // memcpy from memory that the caller only reads.
  method Store(dst: array<byte>, off: nat, d: seq<byte>)
    requires off + |d| <= dst.Length
    modifies dst
    ensures dst[..] == Overwrite(old(dst[..]), off, d)
  {
    for i := 0 to |d|
      invariant forall k :: 0 <= k < dst.Length ==> dst[k] == if off <= k < off + i then d[k - off] else old(dst[k])
    {
      dst[off + i] := d[i];
    }
    assert dst[..] == Overwrite(old(dst[..]), off, d);
  }

  method PutU32(a: array<byte>, off: nat, v: u32)
    requires off + 4 <= a.Length
    modifies a
    ensures a[..] == Overwrite(old(a[..]), off, Le32(v))
  {
    var w := Le32(v);
    a[off], a[off + 1], a[off + 2], a[off + 3] := w[0], w[1], w[2], w[3];
    assert a[..] == Overwrite(old(a[..]), off, w);
  }

  // A C pointer to one 32-bit word.
  class U32Cell {
    var value: u32
    constructor (value: u32)
      ensures this.value == value
    {
      this.value := value;
    }
  }

  // What a pointer points at, None for a null pointer.
  ghost function Contents(a: array?<byte>): Option<seq<byte>>
    reads a
  {
    if a == null then None else Some(a[..])
  }

  ghost function Value(c: U32Cell?): Option<u32>
    reads c
  {
    if c == null then None else Some(c.value)
  }
}
