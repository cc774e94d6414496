/**
 * The guest side of the emulator as the clipboard bridge sees it: the 68k
 * machine's 32-bit integer types, big-endian memory access, and the byte map
 * that stands for guest RAM.  Host2Mac_memcpy, WriteMacInt16 and
 * WriteMacInt32 are all stores of byte strings into this map.
 */
module MacMemory {

  const TWO_16: int := 0x1_0000
  const TWO_31: int := 0x8000_0000
  const TWO_32: int := 0x1_0000_0000

  type Byte = b: int | 0 <= b < 256
  type U16 = x: int | 0 <= x < TWO_16
  type U32 = x: int | 0 <= x < TWO_32
  type I32 = x: int | -TWO_31 <= x < TWO_31

  /** Guest RAM: address to byte; an address never written reads as zero. */
  type Memory = map<int, Byte>

  /** Truncation of any integer to a 32-bit register value (C's conversion to uint32). */
  function ToU32(x: int): (r: U32)
    ensures 0 <= x < TWO_32 ==> r == x
    ensures (r - x) % TWO_32 == 0
  {
    x % TWO_32
  }

  /** The two's-complement reading of a 32-bit register (C's conversion of uint32 to int). */
  function ToI32(x: U32): (r: I32)
    ensures x < TWO_31 ==> r == x
    ensures x >= TWO_31 ==> r < 0
    ensures ToU32(r) == x
  {
    if x < TWO_31 then x else x - TWO_32
  }

  /** A big-endian 16-bit store, as WriteMacInt16 lays it out. */
  function BigEndian16(x: U16): (r: seq<Byte>)
    ensures |r| == 2
  {
    [x / 256, x % 256]
  }

  /** A big-endian 32-bit store, as WriteMacInt32 lays it out. */
  function BigEndian32(x: U32): (r: seq<Byte>)
    ensures |r| == 4
  {
    [x / 0x100_0000, (x / 0x1_0000) % 256, (x / 256) % 256, x % 256]
  }

  /** A big-endian 16-bit load (ReadMacInt16, or the 68k fetching a word immediate). */
  function FromBigEndian16(b: seq<Byte>): (r: U16)
    requires |b| == 2
  {
    (b[0] as int) * 256 + b[1]
  }

  /** A big-endian 32-bit load (ReadMacInt32, or the 68k fetching a long immediate). */
  function FromBigEndian32(b: seq<Byte>): (r: U32)
    requires |b| == 4
  {
    (((b[0] as int) * 256 + b[1]) * 256 + b[2]) * 256 + b[3]
  }

  lemma BigEndian16RoundTrip(x: U16)
    ensures FromBigEndian16(BigEndian16(x)) == x
  {
  }

  lemma BigEndian32RoundTrip(x: U32)
    ensures FromBigEndian32(BigEndian32(x)) == x
  {
    var q1 := x / 256;
    var q2 := q1 / 256;
    var q3 := q2 / 256;
    DivModUnique(q2, (q1 % 256) * 256 + x % 256, 0x1_0000);
    DivModUnique(q3, (q2 % 256) * 0x1_0000 + (q1 % 256) * 256 + x % 256, 0x100_0000);
  }

  /** Two bytes read as a big-endian word are the bytes WriteMacInt16 lays out for it. */
  lemma FromBigEndian16Inverse(b: seq<Byte>)
    requires |b| == 2
    ensures BigEndian16(FromBigEndian16(b)) == b
  {
  }

  /** Four bytes read as a big-endian long are the bytes WriteMacInt32 lays out for it. */
  lemma FromBigEndian32Inverse(b: seq<Byte>)
    requires |b| == 4
    ensures BigEndian32(FromBigEndian32(b)) == b
  {
    var x := FromBigEndian32(b);
    var hi := (b[0] as int) * 256 + b[1];
    var mid := hi * 256 + b[2];
    DivModUnique(b[0], (b[1] as int) * 0x1_0000 + (b[2] as int) * 256 + b[3], 0x100_0000);
    DivModUnique(hi, (b[2] as int) * 256 + b[3], 0x1_0000);
    DivModUnique(b[0], b[1], 256);
    DivModUnique(mid, b[3], 256);
    DivModUnique(hi, b[2], 256);
  }

  /** The quotient and remainder of q * d + r by d, for 0 <= r < d. */
  lemma DivModUnique(q: int, r: int, d: int)
    requires 0 <= r < d
    ensures (q * d + r) / d == q && (q * d + r) % d == r
  {
    var x := q * d + r;
    var k := x / d - q;
    assert k * d == r - x % d;
  }

  /** The byte at one guest address. */
  function Peek(m: Memory, addr: int): (b: Byte)
  {
    if addr in m then m[addr] else 0
  }

  /** The n bytes starting at addr (none when n is not positive). */
  function PeekBytes(m: Memory, addr: int, n: int): (r: seq<Byte>)
    ensures |r| == if n <= 0 then 0 else n
    decreases n
  {
    if n <= 0 then [] else [Peek(m, addr)] + PeekBytes(m, addr + 1, n - 1)
  }

  /** Stores bs at addr .. addr + |bs| - 1 and leaves every other address alone. */
  function PokeBytes(m: Memory, addr: int, bs: seq<Byte>): (r: Memory)
    decreases |bs|
  {
    if bs == [] then m else PokeBytes(m[addr := bs[0]], addr + 1, bs[1..])
  }

  lemma {:induction false} PeekBytesAt(m: Memory, addr: int, n: int, i: int)
    requires 0 <= i < n
    ensures PeekBytes(m, addr, n)[i] == Peek(m, addr + i)
    decreases n
  {
    if i > 0 {
      PeekBytesAt(m, addr + 1, n - 1, i - 1);
    }
  }

  lemma {:induction false} PeekOfPoke(m: Memory, addr: int, bs: seq<Byte>, a: int)
    ensures Peek(PokeBytes(m, addr, bs), a) == if addr <= a < addr + |bs| then bs[a - addr] else Peek(m, a)
    decreases |bs|
  {
    if bs != [] {
      PeekOfPoke(m[addr := bs[0]], addr + 1, bs[1..], a);
    }
  }

  /** n zero bytes, the contents of a block fresh from NewPtrSysClear. */
  function Zeros(n: nat): (r: seq<Byte>)
    ensures |r| == n
    ensures forall i :: 0 <= i < n ==> r[i] == 0
  {
    seq(n, _ => 0)
  }

  /** Reading back what was just stored gives the stored bytes. */
  lemma PeekAfterPoke(m: Memory, addr: int, bs: seq<Byte>)
    ensures PeekBytes(PokeBytes(m, addr, bs), addr, |bs|) == bs
  {
    var r := PeekBytes(PokeBytes(m, addr, bs), addr, |bs|);
    assert |r| == |bs|;
    forall i | 0 <= i < |bs| ensures r[i] == bs[i] {
      PeekBytesAt(PokeBytes(m, addr, bs), addr, |bs|, i);
      PeekOfPoke(m, addr, bs, addr + i);
    }
  }

  /** A store leaves every range that does not overlap it as it was. */
  lemma PeekAfterDisjointPoke(m: Memory, addr: int, bs: seq<Byte>, b: int, n: nat)
    requires b + n <= addr || addr + |bs| <= b
    ensures PeekBytes(PokeBytes(m, addr, bs), b, n) == PeekBytes(m, b, n)
  {
    var r := PeekBytes(PokeBytes(m, addr, bs), b, n);
    forall i | 0 <= i < n ensures r[i] == PeekBytes(m, b, n)[i] {
      PeekBytesAt(PokeBytes(m, addr, bs), b, n, i);
      PeekBytesAt(m, b, n, i);
      PeekOfPoke(m, addr, bs, b + i);
    }
  }

  /** s with the |bs| bytes at offset k replaced by bs. */
  function Splice(s: seq<Byte>, k: nat, bs: seq<Byte>): (r: seq<Byte>)
    requires k + |bs| <= |s|
    ensures |r| == |s|
    ensures r[k..k + |bs|] == bs
  {
    s[..k] + bs + s[k + |bs|..]
  }

  lemma SpliceAt(s: seq<Byte>, k: nat, bs: seq<Byte>, i: int)
    requires k + |bs| <= |s| && 0 <= i < |s|
    ensures Splice(s, k, bs)[i] == if k <= i < k + |bs| then bs[i - k] else s[i]
  {
  }

  /** A slice that the spliced bytes do not reach is unchanged. */
  lemma SpliceOutside(s: seq<Byte>, k: nat, bs: seq<Byte>, lo: int, hi: int)
    requires k + |bs| <= |s| && 0 <= lo <= hi <= |s|
    requires hi <= k || k + |bs| <= lo
    ensures Splice(s, k, bs)[lo..hi] == s[lo..hi]
  {
    var r := Splice(s, k, bs);
    forall i | lo <= i < hi ensures r[i] == s[i] {
      SpliceAt(s, k, bs, i);
    }
  }

  /** A store that overlaps only the middle of a range splices exactly that middle. */
  lemma PeekAfterInnerPoke(m: Memory, addr: int, k: nat, bs: seq<Byte>, n: nat)
    requires k + |bs| <= n
    ensures PeekBytes(PokeBytes(m, addr + k, bs), addr, n) == Splice(PeekBytes(m, addr, n), k, bs)
  {
    var r := PeekBytes(PokeBytes(m, addr + k, bs), addr, n);
    var want := Splice(PeekBytes(m, addr, n), k, bs);
    forall i | 0 <= i < n ensures r[i] == want[i] {
      PeekBytesAt(PokeBytes(m, addr + k, bs), addr, n, i);
      PeekBytesAt(m, addr, n, i);
      PeekOfPoke(m, addr + k, bs, addr + i);
      SpliceAt(PeekBytes(m, addr, n), k, bs, i);
    }
  }
}
