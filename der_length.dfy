/** The decoder of the Length field of an ASN.1 TLV element, in the definite
    forms of section 8.1.3 of ITU-T X.690: the short form (one octet below 128)
    and the long form (an octet 0x80 | n followed by n octets, big-endian).
    The indefinite form (a first octet 0x80) is refused. Non-minimal long forms
    such as [0x81, 0x05] are accepted: no minimal-octet rule is enforced. */
module DerLength {
  import opened Octets

  /** Width in octets of the `unsigned long` that receives the decoded length
      (`sizeof(*outlen)`); a long form with more length octets than this is refused. */
  const W: nat := 8

  /** The error codes of the decoder. */
  datatype Error =
    | BufferOverflow  // fewer octets available than the field needs
    | Asn1Error       // first octet 0x80: the indefinite form
    | Overflow        // more length octets than an `unsigned long` holds

  /** The code the C function returns. */
  datatype Status = Ok | Fail(error: Error)

  /** What decoding the available octets gives: the number of octets the
      field occupies and the length it encodes, or an error. */
  datatype Outcome = Decoded(consumed: nat, length: nat) | Rejected(error: Error) {
    function Code(): Status {
      if Decoded? then Ok else Fail(error)
    }
  }

  /** Decoding of a length field whose first octet is avail[0], when exactly
      the octets of avail may be read (`*inlen == |avail|`). A decoded field
      lies within avail and its length fits in an `unsigned long`. */
  function DecodeLength(avail: seq<Byte>): (r: Outcome)
    ensures r.Decoded? ==> 1 <= r.consumed <= |avail| && r.consumed <= 1 + W
    ensures r.Decoded? ==> r.length < Pow256(W)
  {
    if |avail| < 1 then Rejected(BufferOverflow)
    else if avail[0] < 128 then
      Pow256Monotone(1, W);
      Decoded(1, avail[0])
    else
      var n := avail[0] % 128;
      if n == 0 then Rejected(Asn1Error)
      else if n > W then Rejected(Overflow)
      else if n > |avail| - 1 then Rejected(BufferOverflow)
      else
        Pow256Monotone(n, W);
        Decoded(1 + n, BigEndianValue(avail[1..1 + n]))
  }

  /** Reference encoding of a length in the definite forms of section 8.1.3 of
      X.690: the short form when n == 0, otherwise the long form with n length
      octets (leading zero octets allowed). */
  function EncodeLength(length: nat, n: nat): (field: seq<Byte>)
    requires if n == 0 then length < 128 else n < 128 && length < Pow256(n)
    ensures |field| == 1 + n
    ensures field[0] < 128 <==> n == 0
  {
    if n == 0 then [length] else [128 + n] + BigEndianOctets(length, n)
  }

  /** Short form: a first octet below 128 is the length, one octet is consumed. */
  lemma ShortForm(avail: seq<Byte>)
    requires |avail| >= 1 && avail[0] < 128
    ensures DecodeLength(avail) == Decoded(1, avail[0])
  {
  }

  /** Long form: a first octet 0x80 | n with 1 <= n <= W and n octets after it
      decodes to the big-endian value of those octets, consuming 1 + n. */
  lemma LongForm(avail: seq<Byte>, n: nat)
    requires 1 <= n <= W && 1 + n <= |avail| && avail[0] == 128 + n
    ensures DecodeLength(avail) == Decoded(1 + n, BigEndianValue(avail[1..1 + n]))
  {
  }

  /** Each error code and exactly the inputs that give it. The indefinite form
      is refused whatever follows; too many length octets is an overflow even
      when the buffer is also too short (so [0xFF] alone gives Overflow); the
      buffer is too short only for an empty input or a long form of at most W
      octets that does not fit in what is available. */
  lemma ErrorTriggers(avail: seq<Byte>)
    ensures DecodeLength(avail) == Rejected(Asn1Error) <==> |avail| >= 1 && avail[0] == 0x80
    ensures DecodeLength(avail) == Rejected(Overflow) <==> |avail| >= 1 && avail[0] > 0x80 + W
    ensures DecodeLength(avail) == Rejected(BufferOverflow) <==>
      |avail| == 0 || (0x80 < avail[0] <= 0x80 + W && avail[0] - 0x80 > |avail| - 1)
  {
  }

  /** Decoding reads nothing past the field: once a field decodes, the same
      octets followed by anything else (more or fewer available octets
      after it) decode to the same result. */
  lemma DependsOnlyOnField(avail: seq<Byte>, rest: seq<Byte>)
    requires DecodeLength(avail).Decoded?
    ensures DecodeLength(avail[..DecodeLength(avail).consumed] + rest) == DecodeLength(avail)
  {
  }

  /** Every length that fits in W octets, written in either definite form with
      any number 1..W of length octets, decodes back to itself and consumes
      exactly the field, whatever follows it. */
  lemma {:induction false} DecodeEncode(length: nat, n: nat, rest: seq<Byte>)
    requires n <= W
    requires if n == 0 then length < 128 else length < Pow256(n)
    ensures DecodeLength(EncodeLength(length, n) + rest) == Decoded(1 + n, length)
  {
    var avail := EncodeLength(length, n) + rest;
    if n == 0 {
      assert avail[0] == length;
    } else {
      assert avail[0] == 128 + n && avail[0] % 128 == n;
      assert avail[1..1 + n] == BigEndianOctets(length, n);
      ValueOfOctets(length, n);
    }
  }

  /** A decoded field is exactly the reference encoding of its length with
      consumed - 1 length octets: the decoder accepts nothing else. */
  lemma {:induction false} DecodedIsEncoding(avail: seq<Byte>)
    requires DecodeLength(avail).Decoded?
    ensures var r := DecodeLength(avail);
      (if r.consumed == 1 then r.length < 128 else r.length < Pow256(r.consumed - 1))
      && avail[..r.consumed] == EncodeLength(r.length, r.consumed - 1)
  {
    if avail[0] < 128 {
      assert avail[..1] == [avail[0]];
    } else {
      var n := avail[0] - 128;
      assert avail[0] % 128 == n;
      LongForm(avail, n);
      LongFormIsEncoding(avail, n);
    }
  }

  /** The long-form half of DecodedIsEncoding: the 1 + n octets of a long
      form are the reference encoding of their big-endian value. */
  lemma {:induction false} LongFormIsEncoding(avail: seq<Byte>, n: nat)
    requires 1 <= n <= W && 1 + n <= |avail| && avail[0] == 128 + n
    ensures avail[..1 + n] == EncodeLength(BigEndianValue(avail[1..1 + n]), n)
  {
    var field := avail[1..1 + n];
    OctetsOfValue(field);
    assert avail[..1 + n] == [128 + n] + field;
  }

  /** The decoder does not insist on the minimal number of length octets
      (section 10.1 of X.690): 5 is accepted in short form, with one length
      octet and with two, and a long form of length below 128 is accepted. */
  lemma NonMinimalAccepted()
    ensures DecodeLength([0x05]) == Decoded(1, 5)
    ensures DecodeLength([0x81, 0x05]) == Decoded(2, 5)
    ensures DecodeLength([0x82, 0x00, 0x05]) == Decoded(3, 5)
  {
    DecodeEncode(5, 1, []);
    assert EncodeLength(5, 1) + [] == [0x81, 0x05];
    assert Pow256(2) == 65536;
    DecodeEncode(5, 2, []);
    assert BigEndianOctets(0, 1) == [0];
    assert BigEndianOctets(5, 2) == [0, 5];
    assert EncodeLength(5, 2) + [] == [0x82, 0x00, 0x05];
  }

  /** Sample fields that decode, with W == 8: one and two length octets. */
  lemma ExamplesDecoded()
    ensures DecodeLength([0x81, 0xFF]) == Decoded(2, 255)
    ensures DecodeLength([0x82, 0x01, 0x00, 0x30]) == Decoded(3, 256)
  {
    DecodeEncode(255, 1, []);
    assert EncodeLength(255, 1) + [] == [0x81, 0xFF];
    assert Pow256(2) == 65536;
    DecodeEncode(256, 2, [0x30]);
    assert BigEndianOctets(1, 1) == [1];
    assert BigEndianOctets(256, 2) == [1, 0];
    assert EncodeLength(256, 2) + [0x30] == [0x82, 0x01, 0x00, 0x30];
  }

  /** Sample inputs that are too short: nothing at all, and a four-octet
      long form missing its last octet. */
  lemma ExamplesBufferOverflow()
    ensures DecodeLength([]) == Rejected(BufferOverflow)
    ensures DecodeLength([0x84, 0x01, 0x02, 0x03]) == Rejected(BufferOverflow)
  {
  }

  /** A sample of the indefinite form. */
  lemma ExampleAsn1Error()
    ensures DecodeLength([0x80, 0x05]) == Rejected(Asn1Error)
  {
  }

  /** Samples with W == 8: nine length octets, and 127 length octets with
      none of them present. */
  lemma ExamplesOverflow()
    ensures DecodeLength([0x89, 1, 2, 3, 4, 5, 6, 7, 8, 9]) == Rejected(Overflow)
    ensures DecodeLength([0xFF]) == Rejected(Overflow)
  {
  }

  /** An `unsigned long` in memory, reached through a pointer. */
  class ULong {
    var value: nat
  }

  /** The C shift-accumulate step `(acc << 8) | b` on an `unsigned long`: the
      shift drops what leaves the W octets, and the low octet it leaves free
      receives b. */
  function ShiftIn(acc: nat, b: Byte): (r: nat)
    ensures r < Pow256(W)
  {
    assert Pow256(W) % 256 == 0;
    (acc * 256) % Pow256(W) + b
  }

  /** The shift loses nothing while the accumulator holds fewer than W octets. */
  lemma NoWrap(acc: nat, k: nat, b: Byte)
    requires k < W && acc < Pow256(k)
    ensures ShiftIn(acc, b) == acc * 256 + b
  {
  }

  /** The shift-accumulate loop over the n length octets from offset 1: *outlen
      starts at zero and takes in one octet per step, so it ends as the
      big-endian value of in[1 .. 1 + n), and offset ends at 1 + n.
      The ghost set read holds the indices read, all in that range. */
  method AccumulateLength(input: array<Byte>, n: nat, outlen: ULong)
    returns (offset: nat, ghost read: set<int>)
    requires n <= W && 1 + n <= input.Length
    modifies outlen
    ensures offset == 1 + n
    ensures outlen.value == BigEndianValue(input[1..1 + n])
    ensures forall i :: i in read ==> 1 <= i < 1 + n
  {
    offset := 1;
    var realLen := n;
    read := {};
    outlen.value := 0;
    while realLen != 0
      decreases realLen
      invariant 1 <= offset && offset + realLen == 1 + n
      invariant outlen.value == BigEndianValue(input[1..offset])
      invariant forall i :: i in read ==> 1 <= i < offset
    {
      realLen := realLen - 1;
      NoWrap(outlen.value, offset - 1, input[offset]);
      AppendOctet(input[1..offset], input[offset]);
      assert input[1..offset + 1] == input[1..offset] + [input[offset]];
      outlen.value := ShiftIn(outlen.value, input[offset]);
      read := read + {offset};
      offset := offset + 1;
    }
  }

  /** `der_decode_asn1_length(in, inlen, outlen)`. The first *inlen octets of
      input may be read. On success *inlen becomes the number of octets the
      field occupies and, unless outlen is null (skip mode), *outlen becomes
      the decoded length; on any error neither is written. Status and *inlen
      are those of DecodeLength on the readable octets, the same in both
      modes. The ghost set touched holds the indices read: all below the
      incoming *inlen, and only the first octet in skip mode. */
  method DerDecodeAsn1Length(input: array<Byte>, inlen: ULong, outlen: ULong?)
    returns (status: Status, ghost touched: set<int>)
    requires inlen.value <= input.Length
    modifies inlen, outlen
    ensures var r := DecodeLength(input[..old(inlen.value)]);
      && status == r.Code()
      && (r.Decoded? ==> inlen.value == r.consumed)
      && (r.Decoded? && outlen != null && outlen != inlen ==> outlen.value == r.length)
      && (r.Rejected? ==> inlen.value == old(inlen.value))
      && (r.Rejected? && outlen != null ==> outlen.value == old(outlen.value))
    ensures forall i :: i in touched ==> 0 <= i < old(inlen.value)
    ensures outlen == null ==> touched <= {0}
  {
    ghost var size := inlen.value;
    ghost var avail := input[..size];
    touched := {};
    if inlen.value < 1 {
      status := Fail(BufferOverflow);
      return;
    }

    var offset := 0;
    var realLen: nat := input[offset];
    touched := touched + {offset};
    offset := offset + 1;

    assert avail[0] == input[0];
    if realLen < 128 {
      ShortForm(avail);
      if outlen != null {
        outlen.value := realLen;
      }
    } else {
      realLen := realLen % 128;  // realLen &= 0x7F
      if realLen == 0 {
        status := Fail(Asn1Error);
        return;
      } else if realLen > W {
        status := Fail(Overflow);
        return;
      } else if realLen > inlen.value - 1 {
        status := Fail(BufferOverflow);
        return;
      }
      ghost var n := realLen;
      assert 1 + n <= size && avail[0] == 128 + n;
      LongForm(avail, n);
      if outlen != null {
        assert avail[1..1 + n] == input[1..1 + n];
        ghost var read: set<int>;
        offset, read := AccumulateLength(input, realLen, outlen);
        touched := touched + read;
      } else {
        offset := offset + realLen;
      }
    }
    inlen.value := offset;
    status := Ok;
  }
}
