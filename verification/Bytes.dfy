/** Files as byte sequences, and the little-endian fields read out of them. */
module Bytes {
  import opened Wrappers

  type byte = b: int | 0 <= b < 256

  type bytes = seq<byte>

  /** A SHA-256 as its hexadecimal digits. */
  type Digest = bytes

  const DIGEST_DIGITS := 64

  const TWO_TO_THE_31 := 0x8000_0000
  const TWO_TO_THE_32 := 0x1_0000_0000
  const TWO_TO_THE_63 := 0x8000_0000_0000_0000
  const TWO_TO_THE_64 := 0x1_0000_0000_0000_0000

  function Pow256(n: nat): nat {
    if n == 0 then 1 else 0x100 * Pow256(n - 1)
  }

  /** `int.from_bytes(s, "little")` */
  function Le(s: bytes): (v: nat)
    ensures v < Pow256(|s|)
  {
    if s == [] then 0 else (s[0] as int) + 0x100 * Le(s[1..])
  }

  lemma WordSizes()
    ensures Pow256(4) == TWO_TO_THE_32 && Pow256(8) == TWO_TO_THE_64
  {
    assert Pow256(2) == 0x1_0000;
    assert Pow256(4) == 0x1_0000_0000;
    assert Pow256(6) == 0x1_0000_0000_0000;
  }

  /** `struct.unpack_from("<I", f, o)` */
  function U32(f: bytes, o: nat): (v: nat)
    requires o + 4 <= |f|
    ensures v < TWO_TO_THE_32
  {
    WordSizes();
    Le(f[o..o + 4])
  }

  /** `struct.unpack_from("<i", f, o)` */
  function I32(f: bytes, o: nat): (v: int)
    requires o + 4 <= |f|
    ensures -TWO_TO_THE_31 <= v < TWO_TO_THE_31
  {
    var u := U32(f, o);
    if u < TWO_TO_THE_31 then u else u - TWO_TO_THE_32
  }

  /** `struct.unpack_from("<Q", f, o)` */
  function U64(f: bytes, o: nat): (v: nat)
    requires o + 8 <= |f|
    ensures v < TWO_TO_THE_64
  {
    WordSizes();
    Le(f[o..o + 8])
  }

  /** `struct.unpack_from("<q", f, o)` */
  function I64(f: bytes, o: nat): (v: int)
    requires o + 8 <= |f|
    ensures -TWO_TO_THE_63 <= v < TWO_TO_THE_63
  {
    var u := U64(f, o);
    if u < TWO_TO_THE_63 then u else u - TWO_TO_THE_64
  }

  /** The least significant byte comes first. */
  lemma WordExactly(f: bytes, o: nat)
    requires o + 4 <= |f|
    ensures U32(f, o) == f[o] as int + 0x100 * (f[o + 1] as int) + 0x1_0000 * (f[o + 2] as int) + 0x100_0000 * (f[o + 3] as int)
    ensures o + 8 <= |f| ==> U64(f, o) == U32(f, o) + 0x1_0000_0000 * U32(f, o + 4)
    ensures f[o + 3] < 0x80 <==> I32(f, o) == U32(f, o)
    ensures f[o + 3] >= 0x80 <==> I32(f, o) == U32(f, o) - 0x1_0000_0000
  {
    LeWord(f[o..o + 4]);
    if o + 8 <= |f| {
      LeWord(f[o..o + 8]);
      assert f[o..o + 8][4..] == f[o + 4..o + 8];
      LeWord(f[o + 4..o + 8]);
    }
  }

  lemma LeWord(s: bytes)
    requires |s| >= 4
    ensures Le(s) == s[0] as int + 0x100 * (s[1] as int) + 0x1_0000 * (s[2] as int) + 0x100_0000 * (s[3] as int) + 0x1_0000_0000 * Le(s[4..])
  {
    assert Le(s) == s[0] as int + 0x100 * Le(s[1..]);
    assert Le(s[1..]) == s[1] as int + 0x100 * Le(s[1..][1..]) && s[1..][1..] == s[2..];
    assert Le(s[2..]) == s[2] as int + 0x100 * Le(s[2..][1..]) && s[2..][1..] == s[3..];
    assert Le(s[3..]) == s[3] as int + 0x100 * Le(s[3..][1..]) && s[3..][1..] == s[4..];
  }

  /** `handle.seek(o); handle.read(n)`: whatever the file still holds, up to n bytes. */
  function ReadAt(f: bytes, o: nat, n: nat): (block: bytes)
    ensures |block| == if o >= |f| then 0 else Min(n, |f| - o)
  {
    if o >= |f| then [] else f[o..o + Min(n, |f| - o)]
  }

  /** `value.to_bytes(width, "little")` */
  function ToLe(n: nat, width: nat): (b: bytes)
    requires n < Pow256(width)
    ensures |b| == width
    ensures Le(b) == n
  {
    if width == 0 then [] else
    var b := [n % 0x100] + ToLe(n / 0x100, width - 1);
    assert b[1..] == ToLe(n / 0x100, width - 1);
    b
  }

  lemma SliceOfSlice<T>(s: seq<T>, lo: nat, hi: nat, a: nat, b: nat)
    requires lo <= hi <= |s| && a <= b <= hi - lo
    ensures s[lo..hi][a..b] == s[lo + a..lo + b]
  {
    assert forall k :: 0 <= k < b - a ==> s[lo..hi][a..b][k] == s[lo..hi][a + k];
  }

  /** A field read from the middle of a file is the field read from any slice that holds it. */
  lemma SliceFields(f: bytes, lo: nat, hi: nat, o: nat)
    requires lo <= hi <= |f|
    ensures o + 4 <= hi - lo ==> U32(f[lo..hi], o) == U32(f, lo + o) && I32(f[lo..hi], o) == I32(f, lo + o)
    ensures o + 8 <= hi - lo ==> U64(f[lo..hi], o) == U64(f, lo + o) && I64(f[lo..hi], o) == I64(f, lo + o)
  {
    if o + 4 <= hi - lo {
      SliceOfSlice(f, lo, hi, o, o + 4);
    }
    if o + 8 <= hi - lo {
      SliceOfSlice(f, lo, hi, o, o + 8);
    }
  }
}
