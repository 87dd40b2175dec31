/** Octets and unsigned big-endian numbers, as the long form of an ASN.1
    length field writes them (section 8.1.3.5 of ITU-T X.690). */
module Octets {

  /** One octet of the input buffer (`unsigned char`). */
  type Byte = x: int | 0 <= x < 256

  /** 256 to the power n: the number of values that n octets can hold. */
  function Pow256(n: nat): (p: nat)
    ensures p >= 1
    ensures n >= 1 ==> p >= 256
  {
    if n == 0 then 1 else 256 * Pow256(n - 1)
  }

  lemma {:induction false} Pow256Monotone(a: nat, b: nat)
    requires a <= b
    ensures Pow256(a) <= Pow256(b)
  {
    if a < b {
      Pow256Monotone(a, b - 1);
    }
  }

  /** The unsigned number that the octets s denote, most significant first.
      It is built the way a shift-accumulate loop builds it: the last octet
      is the least significant one. Its value always fits in |s| octets. */
  function BigEndianValue(s: seq<Byte>): (v: nat)
    ensures v < Pow256(|s|)
  {
    if |s| == 0 then 0
    else
      var init := BigEndianValue(s[..|s| - 1]);
      assert init <= Pow256(|s| - 1) - 1;
      init * 256 + s[|s| - 1]
  }

  /** The n octets that write v, most significant first (v reduced modulo 256^n). */
  function BigEndianOctets(v: nat, n: nat): (s: seq<Byte>)
    ensures |s| == n
  {
    if n == 0 then [] else BigEndianOctets(v / 256, n - 1) + [v % 256]
  }

  /** The definition of BigEndianValue unfolded at s + [b]: appending one octet
      shifts the value up by eight bits and adds the octet. */
  lemma AppendOctet(s: seq<Byte>, b: Byte)
    ensures BigEndianValue(s + [b]) == BigEndianValue(s) * 256 + b
  {
  }

  /** Writing a value that fits in n octets and reading it back gives the value. */
  lemma {:induction false} ValueOfOctets(v: nat, n: nat)
    requires v < Pow256(n)
    ensures BigEndianValue(BigEndianOctets(v, n)) == v
  {
    if n > 0 {
      var s := BigEndianOctets(v, n);
      assert s[..n - 1] == BigEndianOctets(v / 256, n - 1);
      assert v / 256 < Pow256(n - 1);
      ValueOfOctets(v / 256, n - 1);
    }
  }

  /** Reading octets and writing the value back in as many octets gives the octets. */
  lemma {:induction false} OctetsOfValue(s: seq<Byte>)
    ensures BigEndianOctets(BigEndianValue(s), |s|) == s
  {
    if |s| > 0 {
      var init := s[..|s| - 1];
      var v := BigEndianValue(s);
      assert v == BigEndianValue(init) * 256 + s[|s| - 1];
      assert v / 256 == BigEndianValue(init) && v % 256 == s[|s| - 1];
      OctetsOfValue(init);
      assert s == init + [s[|s| - 1]];
    }
  }
}
