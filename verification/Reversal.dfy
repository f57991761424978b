/** The two byte-reversal routines: the in-place XOR swap of the keymaster and
    the unrolled copy of the TEE layer. */
module Reversal {
  import opened Bytes

  function Reversed(s: seq<byte>): (r: seq<byte>)
    ensures |r| == |s|
  {
    seq(|s|, i requires 0 <= i < |s| => s[|s| - 1 - i])
  }

  // Reversal turns a little-endian number into the same number big-endian.
  lemma {:induction false} ReversedValue(s: seq<byte>)
    ensures Os2ip(Reversed(s)) == LittleEndian(s)
  {
    if s != [] {
      assert Reversed(s)[..|s| - 1] == Reversed(s[1..]);
      ReversedValue(s[1..]);
    }
  }

  // C's ^, bit by bit over the low w bits.
  function XorBits(a: nat, b: nat, w: nat): (x: nat)
    ensures x < Pow2(w)
  {
    if w == 0 then 0 else (if a % 2 == b % 2 then 0 else 1) + 2 * XorBits(a / 2, b / 2, w - 1)
  }

  function Pow2(w: nat): nat
  {
    if w == 0 then 1 else 2 * Pow2(w - 1)
  }

  function Xor(a: byte, b: byte): byte
  {
    assert Pow2(8) == 0x100;
    XorBits(a, b, 8)
  }

  lemma {:induction false} XorBitsCancel(a: nat, b: nat, w: nat)
    requires a < Pow2(w) && b < Pow2(w)
    ensures XorBits(b, XorBits(a, b, w), w) == a
    ensures XorBits(XorBits(a, b, w), a, w) == b
  {
    if w > 0 {
      XorBitsCancel(a / 2, b / 2, w - 1);
      var bit, rest := if a % 2 == b % 2 then 0 else 1, XorBits(a / 2, b / 2, w - 1);
      LowBit(bit, rest);
    }
  }

  lemma LowBit(bit: nat, rest: nat)
    requires bit < 2
    ensures (bit + 2 * rest) % 2 == bit && (bit + 2 * rest) / 2 == rest
  {
  }

  // The state after i iterations: the outer i pairs exchanged, the middle untouched.
  function EndsSwapped(s: seq<byte>, off: nat, len: nat, i: nat): (r: seq<byte>)
    requires off + len <= |s| && i <= len / 2
    ensures |r| == |s|
  {
    seq(|s|, k requires 0 <= k < |s| =>
      if off <= k < off + i || off + len - i <= k < off + len then s[2 * off + len - 1 - k] else s[k])
  }

  lemma EndsSwappedStep(s: seq<byte>, off: nat, len: nat, i: nat)
    requires off + len <= |s| && i < len / 2
    ensures var p, q := off + i, off + (len - 1) - i;
            EndsSwapped(s, off, len, i + 1) == EndsSwapped(s, off, len, i)[p := s[q]][q := s[p]]
  {
  }

  lemma EndsSwappedIsReversed(s: seq<byte>, off: nat, len: nat)
    requires off + len <= |s|
    ensures EndsSwapped(s, off, len, 0) == s
    ensures EndsSwapped(s, off, len, len / 2) == Overwrite(s, off, Reversed(s[off..off + len]))
  {
  }

  // The three assignments of one iteration of the swap.
  method XorSwap(buf: array<byte>, p: nat, q: nat)
    requires p < buf.Length && q < buf.Length && p != q
    modifies buf
    ensures buf[..] == old(buf[..])[p := old(buf[q])][q := old(buf[p])]
  {
    SwappedByXor(buf[p], buf[q]);
    buf[p] := Xor(buf[p], buf[q]);
    buf[q] := Xor(buf[q], buf[p]);
    buf[p] := Xor(buf[p], buf[q]);
  }

  // In-place byte swap of the len bytes of buf that start at off.
  method SwapByteOrder(buf: array<byte>, off: nat, len: nat)
    requires off + len <= buf.Length
    modifies buf
    ensures buf[..] == Overwrite(old(buf[..]), off, Reversed(old(buf[off..off + len])))
  {
    ghost var was := buf[..];
    EndsSwappedIsReversed(was, off, len);
    for i := 0 to len / 2
      invariant buf[..] == EndsSwapped(was, off, len, i)
    {
      var p, q := off + i, off + (len - 1) - i;
      XorSwap(buf, p, q);
      EndsSwappedStep(was, off, len, i);
    }
  }

  // The three assignments of one iteration exchange two bytes.
  lemma SwappedByXor(a: byte, b: byte)
    ensures Xor(b, Xor(a, b)) == a && Xor(Xor(a, b), a) == b
  {
    assert Pow2(8) == 0x100;
    XorBitsCancel(a, b, 8);
  }

  // A second swap of the same bytes undoes the first.
  lemma SwapByteOrderTwice(s: seq<byte>, off: nat, len: nat)
    requires off + len <= |s|
    ensures var once := Overwrite(s, off, Reversed(s[off..off + len]));
            Overwrite(once, off, Reversed(once[off..off + len])) == s
  {
  }

  // ---------------------------------------------------------------- copySwap

  datatype SwapFlag = DoSwap | DontSwap

  // The destination after d bytes have been copied from the far end of the first
  // n source bytes.  When both pointers name one buffer, a byte of its upper half
  // is read after the matching lower byte was replaced by it, and so stays.
  function CopiedBack(dst: seq<byte>, src: seq<byte>, n: nat, alias: bool, d: nat): (r: seq<byte>)
    requires d <= n <= |src| && n <= |dst|
    ensures |r| == |dst|
  {
    seq(|dst|, k requires 0 <= k < |dst| =>
      if k < d && (!alias || 2 * k < n - 1) then src[n - 1 - k] else dst[k])
  }

  // On two buffers the backward copy is plain reversal.
  lemma CopiedBackIsReversed(dst: seq<byte>, src: seq<byte>, n: nat)
    requires n <= |src| && n <= |dst|
    ensures CopiedBack(dst, src, n, false, n) == Overwrite(dst, 0, Reversed(src[..n]))
  {
  }

  // Applied back onto the first buffer, the copy restores it.
  lemma CopySwapInverse(dst: seq<byte>, src: seq<byte>, n: nat)
    requires n <= |src| && n <= |dst|
    ensures CopiedBack(src, CopiedBack(dst, src, n, false, n), n, false, n) == src
  {
  }

  // The unrolled copy and the XOR swap give a caller the same bytes.
  lemma CopySwapAgreesWithSwapByteOrder(dst: seq<byte>, src: seq<byte>, n: nat)
    requires n <= |src| && n <= |dst|
    ensures CopiedBack(dst, src, n, false, n)[..n] == Overwrite(src, 0, Reversed(src[0..0 + n]))[..n]
  {
  }

  // Used in place the copy reverses exactly the buffers that are palindromes already.
  lemma CopySwapInPlaceIff(s: seq<byte>)
    ensures CopiedBack(s, s, |s|, true, |s|) == Reversed(s) <==> Reversed(s) == s
  {
    var c, n := CopiedBack(s, s, |s|, true, |s|), |s|;
    if Reversed(s) == s {
      forall k | 0 <= k < n ensures c[k] == s[k] {
        assert Reversed(s)[k] == s[n - 1 - k];
      }
    }
    if c == Reversed(s) {
      forall k | 0 <= k < n ensures s[k] == s[n - 1 - k] {
        assert c[k] == Reversed(s)[k] && c[n - 1 - k] == Reversed(s)[n - 1 - k];
      }
    }
  }

  // What the two buffers hold after d bytes have been copied.
  ghost predicate Copied(dst: array<byte>, src: array<byte>, dst0: seq<byte>, src0: seq<byte>, n: nat, d: nat)
    requires n <= |dst0| == dst.Length && n <= |src0| == src.Length && d <= n
    reads dst, src
  {
    && (dst == src ==> dst0 == src0)
    && (dst != src ==> src[..] == src0)
    && dst[..] == CopiedBack(dst0, src0, n, dst == src, d)
  }

  // The statement under one case label: if control reaches it, the source pointer
  // moves down, a byte is copied and the destination pointer moves up.
  method CopyCase(reached: bool, dst: array<byte>, src: array<byte>,
                  ghost dst0: seq<byte>, ghost src0: seq<byte>, ghost n: nat, s: nat, d: nat)
    returns (s': nat, d': nat)
    requires n <= |dst0| == dst.Length && n <= |src0| == src.Length
    requires s <= n && d == n - s && (reached ==> s > 0)
    requires Copied(dst, src, dst0, src0, n, d)
    modifies dst
    ensures d' == (if reached then d + 1 else d) && s' == n - d'
    ensures Copied(dst, src, dst0, src0, n, d')
  {
    s', d' := s, d;
    if reached {
      s' := s - 1;
      assert src[s'] == if dst == src && s' < d && 2 * s' < n - 1 then src0[d] else src0[s'] by {
        assert src[s'] == src[..][s'];
      }
      dst[d] := src[s'];
      d' := d + 1;
      assert dst[..] == old(dst[..])[d := src0[s']] || dst == src;
      assert dst[..] == CopiedBack(dst0, src0, n, dst == src, d');
    }
  }

  // The switch.  Its cases fall through: entered at case k it copies k bytes, and
  // entered at case 0 it copies eight.
  method Switch(quickSwap: nat, dst: array<byte>, src: array<byte>,
                ghost dst0: seq<byte>, ghost src0: seq<byte>, ghost n: nat, s: nat, d: nat)
    returns (s': nat, d': nat)
    requires n <= |dst0| == dst.Length && n <= |src0| == src.Length
    requires s <= n && d == n - s
    requires 0 < (if quickSwap == 0 then 8 else quickSwap) <= s && quickSwap < 8
    requires Copied(dst, src, dst0, src0, n, d)
    modifies dst
    ensures s' == s - (if quickSwap == 0 then 8 else quickSwap) && d' == n - s'
    ensures Copied(dst, src, dst0, src0, n, d')
  {
    var entry := if quickSwap == 0 then 8 else quickSwap;
    s', d' := s, d;
    s', d' := CopyCase(entry >= 8, dst, src, dst0, src0, n, s', d');
    s', d' := CopyCase(entry >= 7, dst, src, dst0, src0, n, s', d');
    s', d' := CopyCase(entry >= 6, dst, src, dst0, src0, n, s', d');
    s', d' := CopyCase(entry >= 5, dst, src, dst0, src0, n, s', d');
    s', d' := CopyCase(entry >= 4, dst, src, dst0, src0, n, s', d');
    s', d' := CopyCase(entry >= 3, dst, src, dst0, src0, n, s', d');
    s', d' := CopyCase(entry >= 2, dst, src, dst0, src0, n, s', d');
    s', d' := CopyCase(true, dst, src, dst0, src0, n, s', d');
  }

  method CopySwap(dst: array?<byte>, src: array?<byte>, length: u32, flag: SwapFlag)
    requires dst != null && src != null ==> length <= dst.Length && length <= src.Length
    requires flag == DontSwap && dst != null ==> dst != src
    modifies dst
    ensures dst != null && src != null && flag == DoSwap ==>
      dst[..] == CopiedBack(old(dst[..]), old(src[..]), length, dst == src, length)
    ensures dst != null && src != null && flag == DontSwap ==>
      dst[..] == Overwrite(old(dst[..]), 0, src[0..length])
    ensures dst != null && src == null ==> dst[..] == old(dst[..])
  {
    if dst == null || src == null {
      return;
    }
    if flag == DontSwap {
      MemCpy(dst, 0, src, 0, length);
      return;
    }
    ghost var dst0, src0 := dst[..], src[..];
    var s, d, quickSwap := length, 0, length % 8;
    while s != 0
      invariant 0 <= s <= length && d == length - s
      // Only the first pass copies fewer than eight bytes.
      invariant if quickSwap == 0 then s % 8 == 0 else s == length && quickSwap == s % 8
      invariant Copied(dst, src, dst0, src0, length, d)
      decreases s
    {
      s, d := Switch(quickSwap, dst, src, dst0, src0, length, s, d);
      quickSwap := 0;
    }
  }
}
