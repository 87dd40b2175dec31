# ASN.1 length-field decoder (libtomcrypt `der_decode_asn1_length`)

A Dafny model of libtomcrypt's decoder for the Length field of an ASN.1
Tag-Length-Value element, with proofs of its behaviour. The decoder reads the
length octets in the definite forms of section 8.1.3 of ITU-T X.690:

- short form: a first octet below 128 is the length (section 8.1.3.4);
- long form: a first octet `0x80 | n` followed by `n` octets, the length in
  big-endian order (section 8.1.3.5);
- the indefinite form, first octet `0x80` (section 8.1.3.6), is refused.

The C function takes a buffer `in`, an in/out count `*inlen` (octets
available on entry, octets consumed on success) and an optional `*outlen`
(the decoded length; a null pointer asks only to skip over the field).

Files:

- `octets.dfy`, module `Octets`: octets, powers of 256, the big-endian value
  of a sequence of octets (`BigEndianValue`) and its inverse
  (`BigEndianOctets`), with the two round-trip lemmas.
- `der_length.dfy`, module `DerLength`:
  - `W`, the width in octets of `unsigned long`, fixed at 8 in this model;
  - `DecodeLength`, the decoder as a pure function of the readable octets
    `in[0 .. *inlen)`;
  - `EncodeLength`, an independent reference for the X.690 definite forms;
  - the lemmas that relate the two;
  - `DerDecodeAsn1Length`, the C function itself. It is a method that writes
    through the two pointers, modelled as objects of class `ULong`. It is
    proved against `DecodeLength`. Its shift-accumulate loop is the method
    `AccumulateLength`, proved against `BigEndianValue`.

Decisions:

- Which octets the decoder may read shows in two places. `DecodeLength` is
  given only `in[0 .. *inlen)`. The method also returns a ghost set of the
  indices it reads, and its contract bounds that set.
- The loop step `(*outlen << 8) | in[offset]` is modelled with the C
  wrap-around: the shift is taken modulo 256^W (`ShiftIn`). The model proves
  that the shift never drops bits, since at most W octets are accumulated.
- Section 10.1 of X.690 requires DER to use the fewest length octets. The
  code does not check this: it accepts non-minimal long forms such as
  `[0x81, 0x05]` and leading zero octets (`NonMinimalAccepted`).
- The code allows up to `sizeof(*outlen)` length octets. That size is `W`
  here, and `W = 8` is this model's choice.
- An empty input (`*inlen == 0`) is not a precondition. The code returns
  `CRYPT_BUFFER_OVERFLOW` for it, and so does the model.
- The pointers `inlen` and `outlen` may point to the same `unsigned long`.
  The contract covers that case: the final write of `*inlen` wins.

## Model

| member | source | states |
|---|---|---|
| `Octets.BigEndianValue` | src/pk/asn1/der/general/der_decode_asn1_length.c:52-55 | the number accumulated from k octets, most significant first, is below 256^k, so it fits in k octets |
| `Octets.AppendOctet` | src/pk/asn1/der/general/der_decode_asn1_length.c:54 | the definition of `BigEndianValue` unfolded for the loop step: appending an octet multiplies the value by 256 and adds the octet |
| `Octets.ValueOfOctets` | src/pk/asn1/der/general/der_decode_asn1_length.c:52-55 | the big-endian reading inverts writing: any value below 256^n written in n octets reads back as itself |
| `Octets.OctetsOfValue` | src/pk/asn1/der/general/der_decode_asn1_length.c:52-55 | the other direction: octets read as a number and written back in as many octets are the same octets, so the reading is injective for a fixed count |
| `DerLength.DecodeLength` | src/pk/asn1/der/general/der_decode_asn1_length.c:31-60 | a decoded field lies within the `*inlen` available octets (1 <= consumed <= `*inlen`), takes at most 1 + W octets, and its length fits in an `unsigned long` (below 256^W) |
| `DerLength.ShortForm` | src/pk/asn1/der/general/der_decode_asn1_length.c:36-41 | a first octet b below 128 decodes to length b and consumes one octet |
| `DerLength.LongForm` | src/pk/asn1/der/general/der_decode_asn1_length.c:43-55 | a first octet 0x80 + n with 1 <= n <= W and n octets available after it decodes to the big-endian value of those n octets and consumes 1 + n |
| `DerLength.ErrorTriggers` | src/pk/asn1/der/general/der_decode_asn1_length.c:31-50 | each error holds exactly for these inputs. `Asn1Error` iff the first octet is 0x80. `Overflow` iff the first octet exceeds 0x80 + W, even when octets are also missing. `BufferOverflow` iff the input is empty, or a long form of 1..W octets does not fit in `*inlen - 1` |
| `DerLength.DependsOnlyOnField` | src/pk/asn1/der/general/der_decode_asn1_length.c:48-60 | a decoded field decodes to the same result whatever octets follow it and however many are available: nothing past the field is read |
| `DerLength.DecodeEncode` | src/pk/asn1/der/general/der_decode_asn1_length.c:36-60 | completeness against the reference encoding: every length written in short form, or in long form with 1..W octets, decodes to itself and consumes exactly the field |
| `DerLength.DecodedIsEncoding` | src/pk/asn1/der/general/der_decode_asn1_length.c:35-60 | soundness against the reference encoding: the consumed octets of a decoded field are exactly the reference encoding of the decoded length with consumed - 1 length octets |
| `DerLength.LongFormIsEncoding` | src/pk/asn1/der/general/der_decode_asn1_length.c:43-55 | the 1 + n octets of a long form with n length octets are exactly the reference long-form encoding, with n octets, of the big-endian value of its length octets |
| `DerLength.NonMinimalAccepted` | src/pk/asn1/der/general/der_decode_asn1_length.c:43-55 | no minimal-octet rule: 5 decodes from `[0x05]`, from `[0x81, 0x05]` and from `[0x82, 0x00, 0x05]` |
| `DerLength.ExamplesDecoded` | src/pk/asn1/der/general/der_decode_asn1_length.c:43-60 | with W = 8, `[0x81,0xFF]` gives 255 in 2 octets and `[0x82,0x01,0x00,0x30]` gives 256 in 3 |
| `DerLength.ExamplesBufferOverflow` | src/pk/asn1/der/general/der_decode_asn1_length.c:31-49 | `[]` and `[0x84,0x01,0x02,0x03]` (a long form missing its fourth octet) give `BufferOverflow` |
| `DerLength.ExampleAsn1Error` | src/pk/asn1/der/general/der_decode_asn1_length.c:43-45 | `[0x80,0x05]` gives `Asn1Error` |
| `DerLength.ExamplesOverflow` | src/pk/asn1/der/general/der_decode_asn1_length.c:46-47 | with W = 8, `[0x89,1,…,9]` gives `Overflow`, and so does `[0xFF]` with none of its length octets present |
| `DerLength.ShiftIn` | src/pk/asn1/der/general/der_decode_asn1_length.c:54 | the `unsigned long` step `(acc << 8) \| b` gives a result below 256^W: it is an `unsigned long` |
| `DerLength.NoWrap` | src/pk/asn1/der/general/der_decode_asn1_length.c:54 | the `unsigned long` shift `(acc << 8) \| b` loses no bits while acc holds fewer than W octets |
| `DerLength.AccumulateLength` | src/pk/asn1/der/general/der_decode_asn1_length.c:52-55 | the loop, entered with offset 1 and `real_len` n, leaves `*outlen` equal to the big-endian value of `in[1 .. 1 + n)` and offset at 1 + n, and reads only indices in that range |
| `DerLength.DerDecodeAsn1Length` | src/pk/asn1/der/general/der_decode_asn1_length.c:24-63 | returns the status `DecodeLength` gives on `in[0 .. *inlen)`. On success `*inlen` becomes the consumed count in both modes, and `*outlen`, when not null, becomes the decoded length. On any error neither is written. Every index read is below the incoming `*inlen`, and skip mode reads only `in[0]` |

## Left out

- The `LTC_ARGCHK` checks that `in` and `inlen` are not null (lines 28-29) are types here: `input` is an array and `inlen` a non-null `ULong`. The rule that `in` holds at least `*inlen` readable octets is a precondition.
- The `#ifdef LTC_DER` guard and the header include (lines 9, 16) are build configuration.
- The platform size of `unsigned long` is the constant `W = 8`. It is 4 on 32-bit and LLP64 targets; this model does not cover those. `*inlen` and `*outlen` hold unbounded naturals; the model proves that a decoded length is below 256^W.
- The `real_len--` in the loop guard leaves `real_len` wrapped to its maximum after the loop. The value is never read again, so the model counts down to zero.
- The `|` in `(*outlen << 8) | in[offset]` is modelled as `+`. The shifted value has a zero low octet, so the two agree.
- The numeric values of `CRYPT_OK`, `CRYPT_BUFFER_OVERFLOW`, `CRYPT_PK_ASN1_ERROR` and `CRYPT_OVERFLOW` are not modelled. They are the constructors of `Status` and `Error`.
- libtomcrypt's length encoder, tag decoding and value decoding are not part of this model. `EncodeLength` is a reference for the X.690 forms, not a model of the library's encoder.
- Determinism needs no lemma. `DecodeLength` is a function, so the same octets always give the same result.
