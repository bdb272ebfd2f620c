/** Bytes, little-endian words, and byte memories. */
module Bytes {
  type byte = b: int | 0 <= b < 256

  const TWO32: int := 0x1_0000_0000
  const TWO64: int := 0x1_0000_0000_0000_0000

  // A memory gives a byte to every address; unmapped addresses read as zero.
  type Memory = int -> byte

  function Pow256(n: nat): (p: nat)
    ensures p > 0
  {
    if n == 0 then 1 else 256 * Pow256(n - 1)
  }

  /** The n low-order bytes of v in two's complement, least significant first. */
  function PackLE(v: int, n: nat): (s: seq<byte>)
    ensures |s| == n
    decreases n
  {
    if n == 0 then [] else [v % 256] + PackLE(v / 256, n - 1)
  }

  function UnpackLE(s: seq<byte>): (v: nat)
  {
    if |s| == 0 then 0 else s[0] + 256 * UnpackLE(s[1..])
  }

  lemma {:induction false} UnpackBound(s: seq<byte>)
    ensures UnpackLE(s) < Pow256(|s|)
  {
    if |s| > 0 {
      UnpackBound(s[1..]);
    }
  }

  /** Splitting off one base-256 digit commutes with reduction. */
  lemma {:induction false} DigitMod(v: int, p: int)
    requires p > 0
    ensures v % (256 * p) == v % 256 + 256 * ((v / 256) % p)
  {
    var q, r := (v / 256) / p, (v / 256) % p;
    assert v / 256 == q * p + r;
    var low := v % 256 + 256 * r;
    assert v == 256 * (q * p + r) + v % 256;
    assert 256 * (q * p) == q * (256 * p);
    assert v == q * (256 * p) + low;
    assert 0 <= low < 256 * p;
    ModUnique(v, 256 * p, q, low);
  }

  lemma {:induction false} ModUnique(v: int, p: int, q: int, r: int)
    requires p > 0 && 0 <= r < p && v == q * p + r
    ensures v % p == r
  {
    var d := v / p - q;
    assert d >= 1 ==> d * p >= p;
    assert d <= -1 ==> d * p <= -p;
    assert v == (v / p) * p + v % p;
    assert d * p == r - v % p;
  }

  lemma {:induction false} UnpackPack(v: int, n: nat)
    ensures UnpackLE(PackLE(v, n)) == v % Pow256(n)
    decreases n
  {
    if n > 0 {
      UnpackPack(v / 256, n - 1);
      DigitMod(v, Pow256(n - 1));
    }
  }

  lemma {:induction false} PackUnpack(s: seq<byte>)
    ensures PackLE(UnpackLE(s), |s|) == s
  {
    if |s| > 0 {
      PackUnpack(s[1..]);
      assert UnpackLE(s) % 256 == s[0] && UnpackLE(s) / 256 == UnpackLE(s[1..]);
    }
  }

  lemma {:induction false} Pow256Is64()
    ensures Pow256(8) == TWO64
  {
    assert Pow256(4) == 256 * 256 * 256 * 256;
    assert Pow256(8) == 256 * 256 * 256 * 256 * Pow256(4);
  }

  /** An unsigned 64-bit word read as a signed one. */
  function Signed64(w: nat): int {
    if w >= TWO64 / 2 then w - TWO64 else w
  }

  function BytesAt(m: Memory, a: int, n: nat): (s: seq<byte>)
    ensures |s| == n
    ensures forall k :: 0 <= k < n ==> s[k] == m(a + k)
  {
    seq(n, (i: nat) => m(a + i))
  }

  function LoadWord(m: Memory, a: int): (w: nat)
    ensures w < TWO64
  {
    UnpackBound(BytesAt(m, a, 8));
    Pow256Is64();
    UnpackLE(BytesAt(m, a, 8))
  }

  function StoreWord(m: Memory, a: int, w: int): Memory {
    (b: int) => if a <= b < a + 8 then PackLE(w, 8)[b - a] else m(b)
  }

  predicate SameBytes(m: Memory, a: int, n: Memory, c: int) {
    forall b :: a <= b < a + 8 ==> m(b) == n(b - a + c)
  }

  /** A word and its eight bytes determine each other. */
  lemma {:induction false} WordsAndBytes(m: Memory, n: Memory, a: int, c: int)
    ensures LoadWord(m, a) == LoadWord(n, c) <==> SameBytes(m, a, n, c)
  {
    var s, t := BytesAt(m, a, 8), BytesAt(n, c, 8);
    PackUnpack(s);
    PackUnpack(t);
    assert LoadWord(m, a) == LoadWord(n, c) <==> s == t;
    assert s == t ==> SameBytes(m, a, n, c) by {
      forall b | s == t && a <= b < a + 8 ensures m(b) == n(b - a + c) {
        assert s[b - a] == t[b - a];
      }
    }
    assert SameBytes(m, a, n, c) ==> s == t by {
      forall k: nat | SameBytes(m, a, n, c) && k < 8 ensures s[k] == t[k] {
        assert m(a + k) == n(a + k - a + c);
      }
    }
  }

  lemma {:induction false} LoadStored(m: Memory, a: int, w: int)
    ensures LoadWord(StoreWord(m, a, w), a) == w % TWO64
  {
    assert BytesAt(StoreWord(m, a, w), a, 8) == PackLE(w, 8);
    UnpackPack(w, 8);
    Pow256Is64();
  }

  // ----- byte buffers -----

  function Zeros(n: nat): (s: seq<byte>)
    ensures |s| == n
  {
    seq(n, _ => 0)
  }

  /** A buffer seen as a memory at address 0. */
  function View(s: seq<byte>): Memory {
    (a: int) => if 0 <= a < |s| then s[a] else 0
  }

  function Clip(i: int, n: nat): (r: nat)
    ensures r <= n
  {
    if i < 0 then 0 else if i > n then n else i
  }

  /** s[lo:hi] for non-negative bounds, clipped to the buffer. */
  function Slice(s: seq<byte>, lo: nat, hi: nat): seq<byte> {
    var l := Clip(lo, |s|);
    var h := Clip(hi, |s|);
    if h < l then [] else s[l..h]
  }

  /** s[lo:hi] = src on a resizable byte array: the buffer changes length when src does not fit. */
  function SliceAssign(s: seq<byte>, lo: nat, hi: nat, src: seq<byte>): seq<byte> {
    var l := Clip(lo, |s|);
    var h := Clip(hi, |s|);
    s[..l] + src + s[if h < l then l else h..]
  }

  lemma {:induction false} SliceAssignFits(s: seq<byte>, lo: nat, src: seq<byte>)
    requires lo + |src| <= |s|
    ensures |SliceAssign(s, lo, lo + |src|, src)| == |s|
    ensures forall i :: 0 <= i < |s| ==>
      SliceAssign(s, lo, lo + |src|, src)[i] == if lo <= i < lo + |src| then src[i - lo] else s[i]
  {
  }

  function UnpackAt(s: seq<byte>, off: nat, n: nat): nat
    requires off + n <= |s|
  {
    UnpackLE(s[off..off + n])
  }

  /** Overwrite the eight bytes at off with the word w mod 2^64. */
  function PackInto(s: seq<byte>, off: nat, w: int): (r: seq<byte>)
    requires off + 8 <= |s|
    ensures |r| == |s|
  {
    s[..off] + PackLE(w, 8) + s[off + 8..]
  }

  lemma {:induction false} ViewPackInto(s: seq<byte>, off: nat, w: int)
    requires off + 8 <= |s|
    ensures forall a :: View(PackInto(s, off, w))(a) == StoreWord(View(s), off, w)(a)
  {
  }

  lemma {:induction false} ViewUnpack(s: seq<byte>, off: nat)
    requires off + 8 <= |s|
    ensures UnpackAt(s, off, 8) == LoadWord(View(s), off)
  {
    assert s[off..off + 8] == BytesAt(View(s), off, 8);
  }
}
