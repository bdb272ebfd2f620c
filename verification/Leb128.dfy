/** LEB128 integers (section 7.6 of DWARF 5): the encoders' loops, and an independent reader. */
module Leb128 {
  import opened Bytes
  import opened Wrappers

  function Uleb(v: nat): (s: seq<byte>)
    ensures |s| > 0
  {
    if v < 128 then [v] else [v % 128 + 128] + Uleb(v / 128)
  }

  /** Reads one value and returns it with the bytes that follow it; None when the input ends first. */
  function ReadUleb(s: seq<byte>): (r: Option<(nat, seq<byte>)>)
    ensures r.Some? ==> |r.value.1| < |s|
  {
    if |s| == 0 then None
    else if s[0] < 128 then Some((s[0], s[1..]))
    else
      match ReadUleb(s[1..])
      case None => None
      case Some((v, rest)) => Some((s[0] - 128 + 128 * v, rest))
  }

  function Magnitude(v: int): nat {
    if v >= 0 then v else -v
  }

  /** Whether the seven low bits, with their sign bit, already stand for the whole value. */
  predicate LastGroup(v: int) {
    (v / 128 == 0 && v % 128 < 64) || (v / 128 == -1 && v % 128 >= 64)
  }

  function Sleb(v: int): (s: seq<byte>)
    ensures |s| > 0
    decreases Magnitude(v)
  {
    if LastGroup(v) then [v % 128] else [v % 128 + 128] + Sleb(v / 128)
  }

  function ReadSleb(s: seq<byte>): (r: Option<(int, seq<byte>)>)
    ensures r.Some? ==> |r.value.1| < |s|
  {
    if |s| == 0 then None
    else if s[0] < 64 then Some((s[0], s[1..]))
    else if s[0] < 128 then Some((s[0] as int - 128, s[1..]))
    else
      match ReadSleb(s[1..])
      case None => None
      case Some((v, rest)) => Some((s[0] - 128 + 128 * v, rest))
  }

  /** The unsigned encoder; a negative value is the error the source raises. */
  method EncodeUleb(value: int) returns (r: Option<seq<byte>>)
    ensures r == if value < 0 then None else Some(Uleb(value))
  {
    if value < 0 {
      return None;
    }
    var v: nat := value;
    var out: seq<byte> := [];
    while true
      invariant out + Uleb(v) == Uleb(value)
      decreases v
    {
      var b := v % 128;
      v := v / 128;
      if v != 0 {
        b := b + 128;
      }
      out := out + [b];
      if v == 0 {
        return Some(out);
      }
    }
  }

  lemma {:induction false} SlebGroup(v: int)
    ensures LastGroup(v) ==> Sleb(v) == [v % 128]
    ensures !LastGroup(v) ==> Sleb(v) == [v % 128 + 128] + Sleb(v / 128) && Magnitude(v / 128) < Magnitude(v)
  {
  }

  /** The signed encoder: the shift is arithmetic, so the loop ends for negative values too. */
  method EncodeSleb(value: int) returns (out: seq<byte>)
    ensures out == Sleb(value)
  {
    hide Sleb, Magnitude;
    var v := value;
    out := [];
    while true
      invariant out + Sleb(v) == Sleb(value)
      decreases Magnitude(v)
    {
      SlebGroup(v);
      var b, next := v % 128, v / 128;
      var done := (next == 0 && b < 64) || (next == -1 && b >= 64);
      if !done {
        b := b + 128;
      }
      out := out + [b];
      if done {
        return;
      }
      v := next;
    }
  }

  lemma {:induction false} UlebRoundTrip(v: nat, rest: seq<byte>)
    ensures ReadUleb(Uleb(v) + rest) == Some((v, rest))
  {
    if v >= 128 {
      UlebRoundTrip(v / 128, rest);
      assert (Uleb(v) + rest)[1..] == Uleb(v / 128) + rest;
    }
  }

  lemma {:induction false} SlebRoundTrip(v: int, rest: seq<byte>)
    ensures ReadSleb(Sleb(v) + rest) == Some((v, rest))
    decreases Magnitude(v)
  {
    if !LastGroup(v) {
      SlebRoundTrip(v / 128, rest);
      assert (Sleb(v) + rest)[1..] == Sleb(v / 128) + rest;
    }
  }

  /** No byte string that reads back as v is shorter than the encoder's. */
  lemma {:induction false} UlebShortest(s: seq<byte>, v: nat, rest: seq<byte>)
    requires ReadUleb(s) == Some((v, rest))
    ensures |Uleb(v)| <= |s| - |rest|
  {
    if s[0] >= 128 {
      var w := ReadUleb(s[1..]).value.0;
      UlebShortest(s[1..], w, rest);
      assert v / 128 == w;
    }
  }

  lemma {:induction false} SlebShortest(s: seq<byte>, v: int, rest: seq<byte>)
    requires ReadSleb(s) == Some((v, rest))
    ensures |Sleb(v)| <= |s| - |rest|
  {
    if s[0] >= 128 {
      var w := ReadSleb(s[1..]).value.0;
      SlebShortest(s[1..], w, rest);
      assert v / 128 == w;
    }
  }

  lemma {:induction false} UlebMonotone(v: nat, w: nat)
    requires v <= w
    ensures |Uleb(v)| <= |Uleb(w)|
  {
    if v >= 128 {
      UlebMonotone(v / 128, w / 128);
    }
  }

  // ----- how long -----

  function Pow128(n: nat): (p: nat)
    ensures p > 0
  {
    if n == 0 then 1 else 128 * Pow128(n - 1)
  }

  lemma {:induction false} UlebWithin(v: nat, w: nat)
    requires 1 <= w && v < Pow128(w)
    ensures |Uleb(v)| <= w
    decreases w
  {
    assert w == 1 ==> Pow128(w - 1) == 1;
    if v >= 128 {
      UlebWithin(v / 128, w - 1);
    }
  }

  lemma {:induction false} SlebWithin(v: int, w: nat)
    requires 1 <= w && -64 * Pow128(w - 1) <= v < 64 * Pow128(w - 1)
    ensures |Sleb(v)| <= w
    decreases w
  {
    assert w == 1 ==> Pow128(w - 1) == 1;
    assert w == 2 ==> Pow128(w - 2) == 1;
    if !LastGroup(v) {
      assert Pow128(w - 1) == 128 * Pow128(w - 2);
      SlebWithin(v / 128, w - 1);
    }
  }

  /** Ten bytes hold every 64-bit value, and a little more. */
  lemma {:induction false} TenBytes(v: int)
    ensures 0 <= v < TWO64 ==> |Uleb(v)| <= 10
    ensures -(2 * TWO64) <= v < 2 * TWO64 ==> |Sleb(v)| <= 10
  {
    hide Uleb, Sleb;
    assert Pow128(3) == 0x20_0000 && Pow128(6) == 0x20_0000 * Pow128(3) && Pow128(9) == 0x20_0000 * Pow128(6);
    assert Pow128(10) == 128 * Pow128(9);
    if 0 <= v < TWO64 {
      UlebWithin(v, 10);
    }
    if -(2 * TWO64) <= v < 2 * TWO64 {
      SlebWithin(v, 10);
    }
  }
}
