/** UTF-8 encoding of single characters, and why character edges can be told apart byte by byte. */
module Utf8 {
  import opened Bytes

  function Encode(c: char): (s: seq<byte>)
    ensures 1 <= |s| <= 4
  {
    var v := c as int;
    if v < 0x80 then [v]
    else if v < 0x800 then [0xC0 + v / 64, 0x80 + v % 64]
    else if v < 0x10000 then [0xE0 + v / 4096, 0x80 + v / 64 % 64, 0x80 + v % 64]
    else [0xF0 + v / 262144, 0x80 + v / 4096 % 64, 0x80 + v / 64 % 64, 0x80 + v % 64]
  }

  function EncodeAll(s: string): seq<byte> {
    if |s| == 0 then [] else Encode(s[0]) + EncodeAll(s[1..])
  }

  predicate NoNul(s: string) {
    forall i :: 0 <= i < |s| ==> s[i] != '\0'
  }

  lemma {:induction false} EncodeNoNul(c: char)
    requires c != '\0'
    ensures forall i :: 0 <= i < |Encode(c)| ==> Encode(c)[i] != 0
  {
  }

  /** Two characters whose encodings both begin the same bytes are the same character. */
  lemma {:induction false} PrefixFree(a: char, b: char, q: seq<byte>)
    requires Encode(a) <= q && Encode(b) <= q
    ensures a == b
  {
    var s, t := Encode(a), Encode(b);
    assert s[0] == q[0] == t[0];
    LeadGivesLength(a);
    LeadGivesLength(b);
    assert s == q[..|s|] == t;
    Decodes(a);
    Decodes(b);
  }

  function LengthFrom(lead: byte): nat {
    if lead < 0x80 then 1 else if lead < 0xE0 then 2 else if lead < 0xF0 then 3 else 4
  }

  lemma {:induction false} LeadGivesLength(c: char)
    ensures |Encode(c)| == LengthFrom(Encode(c)[0])
  {
  }

  function Decode(s: seq<byte>): int
    requires 1 <= |s| <= 4
  {
    if |s| == 1 then s[0]
    else if |s| == 2 then (s[0] as int - 0xC0) * 64 + (s[1] as int - 0x80)
    else if |s| == 3 then (s[0] as int - 0xE0) * 4096 + (s[1] as int - 0x80) * 64 + (s[2] as int - 0x80)
    else (s[0] as int - 0xF0) * 262144 + (s[1] as int - 0x80) * 4096 + (s[2] as int - 0x80) * 64 + (s[3] as int - 0x80)
  }

  lemma {:induction false} Digits(v: nat)
    ensures v == v / 64 * 64 + v % 64
    ensures v == v / 4096 * 4096 + v / 64 % 64 * 64 + v % 64
    ensures v == v / 262144 * 262144 + v / 4096 % 64 * 4096 + v / 64 % 64 * 64 + v % 64
  {
    assert v / 4096 == v / 64 / 64;
    assert v / 262144 == v / 4096 / 64;
  }

  lemma {:induction false} Decodes(c: char)
    ensures Decode(Encode(c)) == c as int
  {
    Digits(c as int);
  }
}
