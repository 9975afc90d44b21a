# Ripple (XRP Ledger) Payment serializer and signer

This project models `lib/firmware/ripple.c` of the KeepKey firmware in Dafny.
That file holds two things:

- the XRP Ledger canonical binary serializer for a Payment transaction;
- `ripple_signTx`, which forces the fully-canonical flag, serializes the
  transaction behind the `"STX\0"` hash prefix, hashes and signs it, and
  serializes it again with the signature into the response.

The C code writes through a cursor `uint8_t **buf` bounded by `end`. Every
encoder is a chain of `append_u8` calls joined by `ok = ok && ...`. The model
keeps that shape in two layers:

- Pure reference functions on a cursor value. `Encoders.Cursor` holds the
  memory, the position and the end. Each encoder has a step function that
  gives the new cursor and the returned `bool` (`Put`, `Emit`, `AmountStep`,
  `VarintStep`, `BytesStep`, `VLStep`, `AddressStep`). `Serializer.RunFields`
  chains them over the list of present fields `Serializer.Fields`. Lemmas
  state what each step writes and where it stops.
- The class `Writer.BoundedWriter`: a byte array, `pos` and `end`. Its methods
  (`AppendU8`, `SerializeType`, ... `Serialize`) update `pos` and the array
  in place. Each method is proved to leave exactly the state its step
  function gives.

The value encodings are the tag (`Catalog.TagBytes`), the length prefix
(`Codec.VarintBytes`) and the native amount (`Codec.AmountBytes`). Each comes
with a decoder and round-trip lemmas in both directions. The tag and amount
decoders read the fields back as their bits are laid out. The length-prefix
decoder `Codec.VarintDecode` follows the XRP Ledger's own reading of a
prefix: a first byte up to 192 is a whole one-byte length. It therefore
exposes the one length this encoder writes in a form the ledger misreads.

`Signing.SignTx` models `ripple_signTx` on two classes:

- `RippleSignTx` is the request, whose flags the function updates;
- `RippleSignedTx` is the response: the `serialized_tx` storage, the
  signature buffer, the sizes and the presence flags.

Its postcondition ties the new request and response to the functions
`Canonical` and `SignedResponse`.

Modules: `Bytes` (byte and integer types, big-endian digits, splicing),
`Catalog` (field types and mappings), `Codec` (length prefix and amount),
`Encoders` (cursor step functions), `Serializer` (field order and the
serialization pass), `Writer` (the in-place writer), `Signing` (the signing
pipeline).

### Behaviour reproduced from the code

Where the code and its evidently intended behaviour differ, the model
follows the code:

- `ripple_serializeAddress` writes no tag; its mapping argument is unused
  (lib/firmware/ripple.c:199-215).
- When the decoded address is not 20 bytes long, `ripple_serializeAddress`
  moves the cursor 20 cells forward without any check and returns true
  (lib/firmware/ripple.c:206-212). The commented-out `return false` under the
  FIXME at lib/firmware/ripple.c:207-208 shows the intent: fail the field.
  The model has an explicit skip outcome, `Encoders.Skipped`, so `pos` may
  pass `end`. It is proved that no byte at or beyond `end` is ever written.
  When the decoded length is 20, the code writes the length byte 19 followed
  by the decoded bytes 1 to 19.
- The fee goes out under the Amount mapping `FM_amount`. `FM_fee` is declared
  but never used (lib/firmware/ripple.c:43, 243).
- The amount tag is written before the range check, so an out-of-range amount
  leaves its tag in memory (lib/firmware/ripple.c:133-136). The asserts'
  messages at lib/firmware/ripple.c:135-136 show the intent: reject such an
  amount.
- Length 192 takes the two-byte branch. There `192 - 193 == -1` is shifted
  arithmetically, giving `C0 FF` (lib/firmware/ripple.c:157-166). The ledger
  reads a first byte up to 192 as the whole length, so it reads `C0` as the
  length 192 and takes `FF` as the first payload byte
  (`Codec.Varint192Misread`). The round trip holds for every other
  encodable length.
- The three-byte tier accepts lengths below 918744 (lib/firmware/ripple.c:169).
  The ledger's largest length is 918744 itself, prefix `FE D4 17`
  (`Codec.VarintLedgerMax`).
- `ripple_serializeBytes` fails when `count` is at least the room left. The
  comparison is strict, so a blob that would exactly fill the buffer is
  rejected (lib/firmware/ripple.c:189).
- The second pass runs up to `sizeof(resp->serialized_tx)`, not up to the end
  of the bytes field (lib/firmware/ripple.c:298-299). The response storage is
  therefore modelled as the whole `serialized_tx` field: the first `capacity`
  cells are its `bytes`, and the cells after them are what follows in
  memory.
- A failure of `ecdsa_sign_digest` is ignored, and the signature fields are
  set anyway (lib/firmware/ripple.c:288-294). The empty `// Failure` branch at
  lib/firmware/ripple.c:289-291 marks the case as a failure that is not
  handled.
- `TxnSignature` is written with the first 64 bytes of the DER buffer
  `resp->signature.bytes` (lib/firmware/ripple.c:300). These are not the raw
  signature, and not the whole DER signature when it is longer.
- When a pass fails, `has_serialized_tx` and `serialized_tx.size` keep the
  values they had before the call (`Signing.SerializedOnlyOnSuccess`).
- Each `assert` becomes either a precondition or a `false` return:
  - lib/firmware/ripple.c:106, 118: a precondition on the mapping's type;
  - 135-136: a `false` return after the tag;
  - 170: a `false` return before any byte of the prefix, when
    `*buf + 3 < end` does not hold;
  - 179, 190: the `false` return the code already has.

`RIPPLE_FLAG_FULLY_CANONICAL` is `0x80000000`, the ledger's
`tfFullyCanonicalSig` bit. Its header, `ripple.h`, is not part of this model.
The flags word is held as its unsigned value, and `|` with bit 31 is written
out arithmetically (`Signing.WithCanonical`).

## Model

| member | source | states |
|---|---|---|
| Bytes.ToInt32 | lib/firmware/ripple.c:232-239 | an unsigned 32-bit request field passed as `int32_t` keeps its value, or loses 2^32 when it does not fit |
| Bytes.ToInt64 | lib/firmware/ripple.c:240-243 | an unsigned 64-bit amount passed as `int64_t` keeps its value, or loses 2^64 when it does not fit |
| Bytes.TwosComplement | lib/firmware/ripple.c:110-111 | the n big-endian bytes of a value in [-256^n, 256^n) read back as the value, plus 256^n when it is negative: its two's-complement bits |
| Bytes.BigEndian | lib/firmware/ripple.c:122-125 | the n low bytes of v, most significant first; exactly n of them, and `Bytes.UnsignedBigEndian` and `Bytes.BigEndianUnsigned` make them the inverse of `Unsigned` |
| Bytes.UnsignedBigEndian | lib/firmware/ripple.c:122-125 | the n big-endian bytes of 0 <= v < 256^n read back as v |
| Bytes.BigEndianUnsigned | lib/firmware/ripple.c:122-125 | every byte string is the big-endian form of the number it reads as |
| Bytes.BigEndianWrap | lib/firmware/ripple.c:122-125 | adding 256^n does not change the n low bytes: masking with `& 0xff` drops the higher bits |
| Bytes.BigEndian2 | lib/firmware/ripple.c:110-111 | the two bytes are `(v >> 8) & 0xff` and `v & 0xff` |
| Bytes.BigEndian4 | lib/firmware/ripple.c:122-125 | the four bytes are `(v >> 24) & 0xff` down to `v & 0xff` |
| Bytes.BigEndian7 | lib/firmware/ripple.c:142-148 | the seven bytes are `(v >> 48) & 0xff` down to `v & 0xff` |
| Bytes.Splice | lib/firmware/ripple.c:194 | `memcpy`: the result has the same length, holds the copied bytes at their place, and keeps every other cell |
| Bytes.SpliceFrom | lib/firmware/ripple.c:194 | memory that agrees with the copied bytes at their place and with the old memory elsewhere is the splice |
| Catalog.TypeCode | lib/firmware/ripple.c:27-33 | every type code is between 1 and 8 |
| Catalog.TypeOfCode | lib/firmware/ripple.c:27-33 | the code-to-type lookup is the inverse of `TypeCode` |
| Catalog.TagBytes | lib/firmware/ripple.c:91-101 | the tag is one byte exactly when key <= 15; the high nibble of its first byte is the type code; the key sits in the low nibble or, when it is larger, in a second byte after a zero low nibble |
| Catalog.DecodeTag | lib/firmware/ripple.c:91-101 | the reader of a tag consumes one or two bytes, never yields key 0, and consumes one byte exactly when the key is at most 15 |
| Catalog.TagRoundTrip | lib/firmware/ripple.c:91-101 | every tag with a non-zero key reads back as its mapping, whatever follows it |
| Catalog.DecodeTagExact | lib/firmware/ripple.c:91-101 | whatever reads as a tag is the tag of the mapping it reads as |
| Catalog.ZeroKeyIsAmbiguous | lib/firmware/ripple.c:93-94 | a key of 0 gives the lone byte `type << 4`, which does not read back as a tag |
| Codec.VarintBytes | lib/firmware/ripple.c:152-181 | the prefix exists exactly for 0 <= n <= 918743; it has 1 byte below 192, 2 bytes up to 12480 and 3 bytes above |
| Codec.VarintDecode | lib/firmware/ripple.c:152-181 | the ledger's reading of a prefix consumes 1 to 3 bytes, one exactly when the length is at most 192, and yields at most 929984 |
| Codec.VarintRoundTrip | lib/firmware/ripple.c:152-181 | every encodable length other than 192 reads back from its prefix, with the prefix's size, whatever follows it |
| Codec.VarintDecodeExact | lib/firmware/ripple.c:152-181 | what the ledger reads as a length prefix is exactly that length's prefix from this encoder if and only if the length is neither 192 nor above 918743 |
| Codec.Varint192Misread | lib/firmware/ripple.c:157-166 | the length 192 is encoded `C0 FF`, which the ledger reads as the one-byte length 192 followed by a payload byte `FF` |
| Codec.VarintLedgerMax | lib/firmware/ripple.c:169 | the ledger's prefix `FE D4 17` reads as 918744, a length this encoder refuses |
| Codec.TwoByteTier | lib/firmware/ripple.c:161-166 | for 192 <= n <= 12480, `(b0 - 193) * 256 + b1 + 193` recovers n |
| Codec.NativePositive | lib/firmware/ripple.c:137-139 | the top amount byte has bit 0x80 clear and bit 0x40 set, and keeps its low six bits |
| Codec.AmountBytes | lib/firmware/ripple.c:137-148 | an accepted amount is 8 bytes and the first is exactly 0x40 |
| Codec.AmountDigits | lib/firmware/ripple.c:137-148 | the 8 bytes are the forced top byte of `amount >> 56` followed by `(amount >> 48) & 0xff` down to `amount & 0xff` |
| Codec.AmountDecode | lib/firmware/ripple.c:137-148 | 8 bytes read as a native amount exactly when their top two bits are 01, and the drop count then fits in 62 bits |
| Codec.AmountRoundTrip | lib/firmware/ripple.c:129-150 | every amount in [0, 100000000000] reads back from its 8 bytes |
| Codec.AmountDecodeExact | lib/firmware/ripple.c:129-150 | 8 bytes that read as an accepted amount are exactly that amount's encoding |
| Encoders.Put | lib/firmware/ripple.c:80-89 | `append_u8` fails and changes nothing when no cell is left before `end`; otherwise it stores the byte at the cursor, advances by 1 and changes no other cell |
| Encoders.Emit | lib/firmware/ripple.c:96-99 | a chain `ok = ok && append_u8(...)` of the given bytes; what it writes and when it succeeds is stated by `Encoders.EmitWrites`, and that one more append is one more `Put` by `Encoders.EmitSnoc` |
| Encoders.EmitSnoc | lib/firmware/ripple.c:108-111 | a chain with one more append is the shorter chain followed, if it succeeded, by one `Put` |
| Encoders.EmitWrites | lib/firmware/ripple.c:80-89 | a chain of appends writes a prefix of its bytes at the cursor and nothing else; it succeeds exactly when all the bytes fit, and it never moves past `end` |
| Encoders.AmountStep | lib/firmware/ripple.c:129-150 | `ripple_serializeAmount` on a cursor value: the tag, then the range check, then the 8 amount bytes; its effect is stated by `Encoders.AmountStepWrites` |
| Encoders.AmountStepWrites | lib/firmware/ripple.c:129-150 | the amount encoder writes the tag then the 8 amount bytes; it succeeds exactly when the amount is in range and both fit; an out-of-range amount still leaves its whole tag when the tag fits; it stays within `end` |
| Encoders.VarintStep | lib/firmware/ripple.c:152-181 | `ripple_serializeVarint` on a cursor value; its effect is stated by `Encoders.VarintStepWrites` |
| Encoders.VarintStepWrites | lib/firmware/ripple.c:152-181 | the prefix encoder writes the prefix; it succeeds exactly when the length is encodable and fits, and the three-byte tier needs one cell more (`*buf + 3 < end`) |
| Encoders.BytesStepWrites | lib/firmware/ripple.c:183-197 | the blob encoder writes the prefix and then the bytes verbatim; it succeeds exactly when the prefix plus the bytes is strictly less than the room, and then advances by exactly that |
| Encoders.BytesStep | lib/firmware/ripple.c:183-197 | `ripple_serializeBytes` on a cursor value: the prefix, the strict room check, the `memcpy`; its effect is stated by `Encoders.BytesStepWrites` |
| Encoders.VLStep | lib/firmware/ripple.c:217-224 | `ripple_serializeVL` on a cursor value: the tag, then the blob; its effect is stated by `Encoders.VLStepWrites` |
| Encoders.VLStepWrites | lib/firmware/ripple.c:217-224 | a VL field writes the tag, the length prefix and the bytes; same success condition as above, with the tag counted |
| Encoders.AddressStep | lib/firmware/ripple.c:199-215 | `ripple_serializeAddress` on a cursor value, given the decoded bytes; its effect is stated by `Encoders.AddressStepEffect` |
| Encoders.AddressStepEffect | lib/firmware/ripple.c:199-215 | with 20 decoded bytes the encoder writes `19` and bytes 1 to 19, with no tag; otherwise it skips 20 cells without writing and returns true; it never writes outside [pos, end) |
| Serializer.SlotMapping | lib/firmware/ripple.c:231-251 | the `&FM_*` argument of each call in order; `FM_fee` is never among them |
| Serializer.SlotMappingTypes | lib/firmware/ripple.c:231-251 | the type of each place (Int16, four Int32, two Amount, two VL, two Account), and the Amount mapping is passed exactly at the amount and at the fee |
| Serializer.Slot | lib/firmware/ripple.c:231-251 | the field present at each place carries that place's mapping: the fee carries the Amount mapping |
| Serializer.FieldsUpTo | lib/firmware/ripple.c:230-251 | the present fields among the first k places: at most k of them, the first being TransactionType 0 whenever k >= 1 |
| Serializer.Fields | lib/firmware/ripple.c:230-251 | the field list of a pass has 1 to 11 entries and starts with TransactionType 0; its order is stated by `Serializer.FieldsInOrder` and `Serializer.FixedFieldOrder` |
| Serializer.FieldStep | lib/firmware/ripple.c:230-251 | one encoder call on a field; what it writes is stated by `Serializer.FieldStepFramed` and `Serializer.FieldStepWrites` |
| Serializer.FieldStepFramed | lib/firmware/ripple.c:129-224 | no field encoder changes a cell outside [pos, end) or moves the cursor back |
| Serializer.FieldStepWrites | lib/firmware/ripple.c:129-224 | a field that is not a skipped address writes a prefix of its encoding, and all of it when it succeeds |
| Serializer.RunFields | lib/firmware/ripple.c:230-251 | the encoders of a field list chained by `ok = ok && ...`; stated by `Serializer.RunFieldsFramed`, `Serializer.RunFieldsWrites` and `Serializer.StopsAtFirstFailure` |
| Serializer.RunSnoc | lib/firmware/ripple.c:230-251 | one more call in the chain is the shorter chain followed, if it succeeded, by that field's step |
| Serializer.SlotOrder | lib/firmware/ripple.c:40-50 | along the fixed order the (type, key) rank never decreases; it is equal only between the amount and the fee |
| Serializer.FieldsInOrder | lib/firmware/ripple.c:230-252 | the present fields are the source's calls in order, each there only when its presence flag or pointer is set; the key and signature send 33 and 64 bytes |
| Serializer.FixedFieldOrder | lib/firmware/ripple.c:230-252 | the field list starts with TransactionType 0, lists each present place exactly once in increasing place order, and its ranks never decrease |
| Serializer.SignatureInserted | lib/firmware/ripple.c:244-247 | the signed field list is the unsigned one with the TxnSignature field inserted, carrying the signature's first 64 bytes |
| Serializer.RunFieldsFramed | lib/firmware/ripple.c:226-253 | a serialization pass changes no cell outside [start, end), and its cursor does not move back |
| Serializer.Encoding | lib/firmware/ripple.c:103-224 | the bytes one encoder puts on the wire when it is not cut short: every field but an address starts with its tag; an address with 20 decoded bytes is 20 bytes starting with `19`, and a skipped address puts nothing |
| Serializer.Encodings | lib/firmware/ripple.c:230-251 | the encodings of a field list one after another: at least one byte per field when no address is skipped |
| Serializer.EncodingsAppend | lib/firmware/ripple.c:230-251 | the encodings of two lists in sequence are the encodings of the joined list |
| Serializer.RunFieldsWrites | lib/firmware/ripple.c:226-253 | when no address is skipped, a pass writes a prefix of the concatenated field encodings; on success it advances by their whole length |
| Serializer.SerializedExactly | lib/firmware/ripple.c:226-253 | a successful pass without a skip fits, and leaves exactly the concatenated encodings spliced at the start, with the cursor just after them |
| Serializer.StopsAtFirstFailure | lib/firmware/ripple.c:230-252 | a failed pass equals the first failing field's step after the fields before it succeeded: nothing is written after the first false |
| Writer.BoundedWriter.AppendU8 | lib/firmware/ripple.c:80-89 | the writer's new state is `Put` of its old state |
| Writer.BoundedWriter.AndAppend | lib/firmware/ripple.c:96-99 | one `ok = ok && append_u8(...)` step: the writer goes from the state of a chain to the state of that chain with one more byte |
| Writer.BoundedWriter.SerializeType | lib/firmware/ripple.c:91-101 | the new state is the append chain of `TagBytes(m)` |
| Writer.BoundedWriter.SerializeInt16 | lib/firmware/ripple.c:103-113 | the new state is the append chain of the tag and the two big-endian bytes |
| Writer.BoundedWriter.SerializeInt32 | lib/firmware/ripple.c:115-127 | the new state is the append chain of the tag and the four big-endian bytes |
| Writer.BoundedWriter.SerializeAmount | lib/firmware/ripple.c:129-150 | the new state is `AmountStep` of the old one |
| Writer.BoundedWriter.SerializeVarint | lib/firmware/ripple.c:152-181 | the new state is `VarintStep` of the old one |
| Writer.BoundedWriter.SerializeBytes | lib/firmware/ripple.c:183-197 | the new state is `BytesStep` of the old one |
| Writer.BoundedWriter.SerializeVL | lib/firmware/ripple.c:217-224 | the new state is `VLStep` of the old one |
| Writer.BoundedWriter.SerializeAddress | lib/firmware/ripple.c:199-215 | the new state is `AddressStep` of the old one on the decoded bytes |
| Writer.BoundedWriter.AndInt16 | lib/firmware/ripple.c:231 | one `ok = ok && ripple_serializeInt16(...)` step: the state of a pass over fs becomes that of a pass over fs and the field |
| Writer.BoundedWriter.AndInt32 | lib/firmware/ripple.c:232-239 | one guarded `ok = ok && ripple_serializeInt32(...)` step: the pass is extended by the field when it is present, and unchanged otherwise |
| Writer.BoundedWriter.AndAmount | lib/firmware/ripple.c:240-243 | one guarded amount step, extending the pass by the amount field when it is present |
| Writer.BoundedWriter.AndVL | lib/firmware/ripple.c:244-247 | one guarded VL step, extending the pass by the blob's first `count` bytes when the pointer is set |
| Writer.BoundedWriter.AndAddress | lib/firmware/ripple.c:248-251 | one guarded address step, extending the pass by the decoded address when the string is set |
| Writer.BoundedWriter.Serialize | lib/firmware/ripple.c:226-253 | the new state is `RunFields` over the present fields in the fixed order |
| Signing.WithCanonical | lib/firmware/ripple.c:268 | `flags \| RIPPLE_FLAG_FULLY_CANONICAL` has bit 31 set and keeps bits 0 to 30 |
| Signing.Canonical | lib/firmware/ripple.c:264-268 | after the update the flags are present, carry the canonical bit, keep every other bit set before (0 when absent), and nothing else in the request changes |
| Signing.RippleSignTx.ForceCanonical | lib/firmware/ripple.c:264-268 | the request becomes `Canonical` of what it was |
| Signing.RippleSignedTx.ClearBytes | lib/firmware/ripple.c:270 | the first `capacity` cells become zero and the rest keep their values |
| Signing.RippleSignedTx.WritePrefix | lib/firmware/ripple.c:270-273 | the storage becomes "STX\0" followed by the cleared bytes field |
| Signing.RippleSignedTx.HashingPass | lib/firmware/ripple.c:279-282 | the storage and the returned cursor are `RunFields` of the unsigned fields from cell 4 up to `capacity` |
| Signing.RippleSignedTx.StoreSignature | lib/firmware/ripple.c:293 | the DER bytes are copied to the start of the signature buffer and the rest is kept |
| Signing.RippleSignedTx.SigningPass | lib/firmware/ripple.c:296-301 | the storage is cleared and becomes `RunFields` of the signed fields from cell 0 to the end of the storage |
| Signing.Cleared | lib/firmware/ripple.c:270 | `memset` of the bytes field: the length is kept, the first `capacity` cells are zero and the rest keep their values |
| Signing.Hashed | lib/firmware/ripple.c:286 | the bytes `sha512_Raw` reads are a prefix of the storage: exactly up to the cursor, or the whole storage when a skip moved the cursor beyond it |
| Signing.HashPass | lib/firmware/ripple.c:279-282 | the first pass keeps the `"STX\0"` prefix in cells 0 to 3 and every cell from `capacity` on, and starts at cell 4 with `end` at `capacity` |
| Signing.SignedPass | lib/firmware/ripple.c:296-301 | the second pass runs over the cleared storage from cell 0 to the end of the storage and keeps the storage's length; what it writes, and when it succeeds, follow from `Serializer.RunFieldsWrites`, `Serializer.SerializedExactly` and the success conditions of the `Encoders.*StepWrites` lemmas |
| Signing.SignedResponse | lib/firmware/ripple.c:275-304 | the response keeps its buffer lengths; only the first 72 signature cells can change; the signature size is kept or at most 72; a serialized transaction appears only together with a signature; without a signature the storage holds the prefix and its cells from `capacity` on are untouched |
| Signing.HashedStartsWithPrefix | lib/firmware/ripple.c:272-286 | the bytes that are hashed and signed start with `53 54 58 00` |
| Signing.SerializedOnlyOnSuccess | lib/firmware/ripple.c:275-304 | for any response, `has_serialized_tx` becomes its old value or true exactly when the address is derived and both passes succeed; the size is where the second pass stopped on that success and keeps its old value otherwise; `has_signature` is set once the first pass succeeds |
| Signing.SignTx | lib/firmware/ripple.c:255-305 | with no curve nothing changes; otherwise the request becomes `Canonical` of what it was and the response becomes `SignedResponse` of the old response |

## Left out

- `ripple_getAddress` (lib/firmware/ripple.c:56-71) hashes the public key and base58-encodes it. It is the parameter `Crypto.address`, which returns the address or none.
- `base58_decode_check` in `ripple_serializeAddress` is the parameter `Serializer.Decoder`. Only the branch on its result's length is modelled.
- `sha512_Raw`, `ecdsa_sign_digest`, `ecdsa_sig_to_der` and `get_curve_by_name` are the parameters `Crypto.sha512`, `Crypto.sign`, `Crypto.toDer` and `Crypto.curveAvailable`. The signing status is dropped, as the code drops it.
- `ripple_formatAmount` (lib/firmware/ripple.c:73-78) is display formatting through the bignum library, which is not part of this model.
- The process abort of a failing `assert` is not modelled. Each assert becomes a precondition or a `false` return, as listed above.
- `Signing.Hashed`: a skipped address can move the cursor past the storage, and `sha512_Raw` then reads beyond the array. That is undefined behaviour in C. The model hashes only up to the end of the storage.
- `Signing.RippleSignedTx.SigningPass`: the second pass may write past the `bytes` field into the memory after the bytes field. The model covers this only as far as the storage array reaches, which is modelled as `sizeof(serialized_tx)` cells.
- The request's other fields (the coin name, the address path) and the protobuf presence flags that `ripple_serialize` does not read are not modelled.
- `Codec.VarintRoundTrip`: excludes the length 192, because the code's prefix `C0 FF` for it is read back by the ledger as the length 192 followed by a stray `FF` (`Codec.Varint192Misread`).
- `Codec.VarintDecodeExact`: does not hold for a decoded length of 192 or 918744 and above, which this encoder writes differently or not at all; the lemma states this as an if-and-only-if.
- Pointer aliasing between the request, the response and the buffers is excluded. The storage and the signature buffer are distinct arrays.
