/** `ripple_signTx` (lib/firmware/ripple.c): force the fully-canonical flag,
    serialize the transaction behind the "STX\0" prefix, hash and sign that,
    then serialize again with the signature into the response. The hash,
    the signature primitives, the curve lookup and the address derivation
    are parameters (`Crypto`); the request and the response are objects
    whose fields the pipeline updates in place. */
module Signing {
  import opened Bytes
  import opened Catalog
  import opened Encoders
  import opened Serializer
  import opened Writer

  /** `RIPPLE_FLAG_FULLY_CANONICAL`, the ledger's tfFullyCanonicalSig bit: bit 31. */
  const FullyCanonical: uint32 := 0x8000_0000

  /** The prefix the ledger puts before a transaction it hashes for signing: "STX\0". */
  const HashPrefix: seq<byte> := [0x53, 0x54, 0x58, 0x00]

  /** The most bytes `ecdsa_sig_to_der` produces for a secp256k1 signature. */
  const MaxDer := 72

  /** The 64 bytes `ecdsa_sign_digest` leaves in its output buffer. */
  type Sig64 = s: seq<byte> | |s| == 64 witness seq(64, _ => 0)

  /** A DER signature as `ecdsa_sig_to_der` writes it. */
  type Der = s: seq<byte> | |s| <= MaxDer

  /** The HD node the transaction is signed with: a 33-byte compressed public key and the private key. */
  datatype Node = Node(publicKey: seq<byte>, privateKey: seq<byte>)

  /** What the pipeline calls but this model does not define. */
  datatype Crypto = Crypto(
    curveAvailable: bool,                       // get_curve_by_name("secp256k1") != NULL
    address: seq<byte> -> Option<string>,       // ripple_getAddress on a public key
    decode: Decoder,                            // base58_decode_check with the ledger alphabet
    sha512: seq<byte> -> seq<byte>,             // sha512_Raw
    sign: (seq<byte>, seq<byte>) -> Sig64,      // ecdsa_sign_digest(private key, hash), status ignored
    toDer: Sig64 -> Der)                        // ecdsa_sig_to_der

  /** Whether bit 31 of a 32-bit word is set. */
  predicate HasCanonical(flags: uint32)
  {
    flags >= FullyCanonical
  }

  /** `flags | RIPPLE_FLAG_FULLY_CANONICAL`: bit 31 set, bits 0 to 30 kept. */
  function WithCanonical(flags: uint32): (r: uint32)
    ensures HasCanonical(r)
    ensures r % FullyCanonical == flags % FullyCanonical
    ensures HasCanonical(flags) ==> r == flags
  {
    if HasCanonical(flags) then flags else flags + FullyCanonical
  }

  /** The request after the flag update: the flags are present (0 when they
      were absent), carry the canonical bit and keep every other bit the
      caller set; nothing else in the request changes. */
  function Canonical(tx: PaymentTx): (r: PaymentTx)
    ensures r.flags.Some? && HasCanonical(r.flags.value)
    ensures tx.flags.Some? ==> r.flags.value % FullyCanonical == tx.flags.value % FullyCanonical
    ensures tx.flags.None? ==> r.flags.value == FullyCanonical
    ensures r == tx.(flags := r.flags)
  {
    tx.(flags := Some(WithCanonical(if tx.flags.Some? then tx.flags.value else 0)))
  }

  /** `memset(bytes, 0, n)`: the first n cells cleared, the rest as they were. */
  function Cleared(mem: seq<byte>, n: nat): (r: seq<byte>)
    requires n <= |mem|
    ensures |r| == |mem| && r[n..] == mem[n..]
    ensures forall i :: 0 <= i < n ==> r[i] == 0
  {
    Zeros(n) + mem[n..]
  }

  /** The bytes `sha512_Raw` reads: the storage up to the cursor. A cursor
      that an address skip moved past the storage stops at its end here. */
  function Hashed(c: Cursor): (r: seq<byte>)
    ensures r <= c.mem
    ensures c.pos <= |c.mem| ==> |r| == c.pos
    ensures c.pos > |c.mem| ==> r == c.mem
  {
    c.mem[..if c.pos <= |c.mem| then c.pos else |c.mem|]
  }

  /** The response's fields: `serialized_tx` (its bytes and what lies after
      them in memory), its size and presence, and the signature's bytes,
      size and presence. */
  datatype Response = Response(storage: seq<byte>, size: nat, hasSerializedTx: bool,
                               signature: seq<byte>, signatureSize: nat, hasSignature: bool)

  /** The first pass: after the cleared bytes get the prefix, the fields
      without a signature, from cell 4 up to the end of the bytes field. */
  function HashPass(tx: PaymentTx, source: string, node: Node, crypto: Crypto, mem: seq<byte>, capacity: nat): (r: Step)
    requires 4 <= capacity <= |mem| && |node.publicKey| == 33
    ensures |r.cur.mem| == |mem| && 4 <= r.cur.pos && r.cur.end == capacity
    ensures r.cur.mem[..4] == HashPrefix && r.cur.mem[capacity..] == mem[capacity..]
  {
    var start := HashPrefix + Cleared(mem, capacity)[4..];
    var fs := Fields(tx, Some(source), Some(node.publicKey), None, crypto.decode);
    RunFieldsFramed(Cursor(start, 4, capacity), fs);
    RunFields(Cursor(start, 4, capacity), fs)
  }

  /** The second pass: over the cleared storage from cell 0, ending
      `sizeof(serialized_tx)` cells later, which is the whole storage. */
  function SignedPass(tx: PaymentTx, source: string, node: Node, crypto: Crypto, mem: seq<byte>, capacity: nat,
                      signature: seq<byte>): (r: Step)
    requires capacity <= |mem| && |node.publicKey| == 33 && |signature| >= 64
    ensures |r.cur.mem| == |mem|
  {
    var fs := Fields(tx, Some(source), Some(node.publicKey), Some(signature), crypto.decode);
    RunFieldsFramed(Cursor(Cleared(mem, capacity), 0, |mem|), fs);
    RunFields(Cursor(Cleared(mem, capacity), 0, |mem|), fs)
  }

  /** What `ripple_signTx` leaves in the response, for a request whose flags
      were already made canonical, when the curve is available. */
  function SignedResponse(tx: PaymentTx, node: Node, crypto: Crypto, resp: Response, capacity: nat): (r: Response)
    requires 4 <= capacity <= |resp.storage| && |resp.signature| >= MaxDer && |node.publicKey| == 33
    ensures |r.storage| == |resp.storage| && |r.signature| == |resp.signature|
    ensures r.signature[MaxDer..] == resp.signature[MaxDer..]
    ensures r.signatureSize == resp.signatureSize || r.signatureSize <= MaxDer
    ensures r.hasSerializedTx ==> resp.hasSerializedTx || r.hasSignature
    ensures !r.hasSignature ==> r.storage[..4] == HashPrefix && r.storage[capacity..] == resp.storage[capacity..]
  {
    var prefixed := HashPrefix + Cleared(resp.storage, capacity)[4..];
    var source := crypto.address(node.publicKey);
    if source.None? then resp.(storage := prefixed)
    else
      var first := HashPass(tx, source.value, node, crypto, resp.storage, capacity);
      if !first.ok then resp.(storage := first.cur.mem)
      else
        var der := crypto.toDer(crypto.sign(node.privateKey, crypto.sha512(Hashed(first.cur))));
        var signature := Splice(resp.signature, 0, der);
        var second := SignedPass(tx, source.value, node, crypto, first.cur.mem, capacity, signature);
        Response(second.cur.mem, if second.ok then second.cur.pos else resp.size,
                 resp.hasSerializedTx || second.ok, signature, |der|, true)
  }

  /** The bytes that are hashed and signed start with "STX\0". */
  lemma HashedStartsWithPrefix(tx: PaymentTx, source: string, node: Node, crypto: Crypto, mem: seq<byte>,
                               capacity: nat)
    requires 4 <= capacity <= |mem| && |node.publicKey| == 33
    ensures Hashed(HashPass(tx, source, node, crypto, mem, capacity).cur)[..4] == HashPrefix
  {
    var start := HashPrefix + Cleared(mem, capacity)[4..];
    var c := Cursor(start, 4, capacity);
    RunFieldsFramed(c, Fields(tx, Some(source), Some(node.publicKey), None, crypto.decode));
    var r := HashPass(tx, source, node, crypto, mem, capacity).cur;
    forall i | 0 <= i < 4 ensures r.mem[i] == HashPrefix[i] {
      assert start[i] == HashPrefix[i];
    }
  }

  /** The response gets a serialized transaction only when both passes
      succeed, and then its size is where the second pass stopped; when a
      pass fails, the flag and the size keep the values they had. The
      signature is set once the first pass succeeds, signing failure or not. */
  lemma SerializedOnlyOnSuccess(tx: PaymentTx, node: Node, crypto: Crypto, resp: Response, capacity: nat)
    requires 4 <= capacity <= |resp.storage| && |resp.signature| >= MaxDer && |node.publicKey| == 33
    ensures var r := SignedResponse(tx, node, crypto, resp, capacity);
      var source := crypto.address(node.publicKey);
      var success := source.Some? && HashPass(tx, source.value, node, crypto, resp.storage, capacity).ok &&
        SignedPass(tx, source.value, node, crypto, HashPass(tx, source.value, node, crypto, resp.storage, capacity).cur.mem,
                   capacity, r.signature).ok;
      r.hasSerializedTx == (resp.hasSerializedTx || success) &&
      r.size == (if success then SignedPass(tx, source.value, node, crypto,
                                  HashPass(tx, source.value, node, crypto, resp.storage, capacity).cur.mem,
                                  capacity, r.signature).cur.pos
                 else resp.size) &&
      (r.hasSignature <==> resp.hasSignature || (source.Some? && HashPass(tx, source.value, node, crypto, resp.storage, capacity).ok))
  {
  }

  /** The request, the fields `ripple_signTx` and `ripple_serialize` read. */
  class RippleSignTx {
    var hasFlags: bool
    var flags: uint32
    var sequence: Option<uint32>
    var destinationTag: Option<uint32>
    var lastLedgerSequence: Option<uint32>
    var amount: Option<uint64>
    var fee: Option<uint64>
    var destination: Option<string>

    /** The request as the serializer reads it. */
    function View(): PaymentTx
      reads this
    {
      PaymentTx(if hasFlags then Some(flags) else None, sequence, destinationTag, lastLedgerSequence,
                amount, fee, destination)
    }

    constructor (tx: PaymentTx)
      ensures View() == tx
    {
      hasFlags := tx.flags.Some?;
      flags := if tx.flags.Some? then tx.flags.value else 0;
      sequence, destinationTag, lastLedgerSequence := tx.sequence, tx.destinationTag, tx.lastLedgerSequence;
      amount, fee, destination := tx.amount, tx.fee, tx.destination;
    }

    /** Lines 264-268 of `ripple_signTx`: present flags, with the canonical bit set. */
    method ForceCanonical()
      modifies this
      ensures View() == Canonical(old(View()))
    {
      if !hasFlags {
        flags := 0;
        hasFlags := true;
      }
      flags := WithCanonical(flags);
    }
  }

  /** The response. `storage` is `serialized_tx.bytes` followed by the rest
      of the `serialized_tx` field: its first `capacity` cells are the bytes
      field and it is `sizeof(serialized_tx)` cells long. */
  class RippleSignedTx {
    const storage: array<byte>
    const capacity: nat
    var size: nat
    var hasSerializedTx: bool
    const signature: array<byte>
    var signatureSize: nat
    var hasSignature: bool

    ghost predicate Valid()
      reads this
    {
      4 <= capacity < storage.Length && signature.Length >= MaxDer && storage != signature
    }

    /** The response's fields as a value. */
    function State(): Response
      reads this, storage, signature
    {
      Response(storage[..], size, hasSerializedTx, signature[..], signatureSize, hasSignature)
    }

    /** A zero-initialised response. */
    constructor (capacity: nat, fieldSize: nat, signatureCapacity: nat)
      requires 4 <= capacity < fieldSize && signatureCapacity >= MaxDer
      ensures Valid() && this.capacity == capacity && storage.Length == fieldSize
      ensures fresh(storage) && fresh(signature) && !hasSerializedTx && !hasSignature
    {
      this.capacity := capacity;
      storage := new byte[fieldSize](_ => 0);
      signature := new byte[signatureCapacity](_ => 0);
      size, hasSerializedTx, signatureSize, hasSignature := 0, false, 0, false;
    }

    /** `memset(resp->serialized_tx.bytes, 0, sizeof(resp->serialized_tx.bytes))`. */
    method ClearBytes()
      requires Valid()
      modifies storage
      ensures storage[..] == Cleared(old(storage[..]), capacity)
    {
      forall i | 0 <= i < capacity {
        storage[i] := 0;
      }
      assert storage[..] == Cleared(old(storage[..]), capacity);
    }

    /** Clear the bytes field and store the "STX\0" prefix in its first four cells. */
    method WritePrefix()
      requires Valid()
      modifies storage
      ensures storage[..] == HashPrefix + Cleared(old(storage[..]), capacity)[4..]
    {
      ClearBytes();
      storage[0], storage[1], storage[2], storage[3] := 0x53, 0x54, 0x58, 0x00;
    }

    /** The first pass: the unsigned fields from cell 4 up to the end of the bytes field. */
    method HashingPass(tx: PaymentTx, source: string, node: Node, crypto: Crypto) returns (ok: bool, pos: nat)
      requires Valid() && |node.publicKey| == 33
      modifies storage
      ensures Step(Cursor(storage[..], pos, capacity), ok) ==
              RunFields(Cursor(old(storage[..]), 4, capacity), Fields(tx, Some(source), Some(node.publicKey), None, crypto.decode))
    {
      var w := new BoundedWriter(storage, 4, capacity);
      ok := w.Serialize(tx, Some(source), Some(node.publicKey), None, crypto.decode);
      pos := w.pos;
    }

    /** `memcpy(resp->signature.bytes, der, der_len)`. */
    method StoreSignature(der: Der)
      requires Valid()
      modifies signature
      ensures signature[..] == Splice(old(signature[..]), 0, der)
    {
      forall i | 0 <= i < |der| {
        signature[i] := der[i];
      }
      SpliceFrom(old(signature[..]), signature[..], 0, der);
    }

    /** The second pass: clear the bytes field again and serialize the
        signed fields from cell 0, up to `sizeof(serialized_tx)`. */
    method SigningPass(tx: PaymentTx, source: string, node: Node, crypto: Crypto) returns (ok: bool, pos: nat)
      requires Valid() && |node.publicKey| == 33
      modifies storage
      ensures Step(Cursor(storage[..], pos, storage.Length), ok) ==
              SignedPass(tx, source, node, crypto, old(storage[..]), capacity, signature[..])
    {
      ClearBytes();
      var w := new BoundedWriter(storage, 0, storage.Length);
      ok := w.Serialize(tx, Some(source), Some(node.publicKey), Some(signature[..]), crypto.decode);
      pos := w.pos;
    }
  }

  /** `ripple_signTx`. */
  method SignTx(node: Node, tx: RippleSignTx, resp: RippleSignedTx, crypto: Crypto)
    requires resp.Valid() && |node.publicKey| == 33
    modifies tx, resp, resp.storage, resp.signature
    ensures resp.Valid()
    ensures !crypto.curveAvailable ==> tx.View() == old(tx.View()) && resp.State() == old(resp.State())
    ensures crypto.curveAvailable ==>
      tx.View() == Canonical(old(tx.View())) &&
      resp.State() == SignedResponse(tx.View(), node, crypto, old(resp.State()), resp.capacity)
  {
    if !crypto.curveAvailable {
      return;
    }
    tx.ForceCanonical();
    ghost var view := tx.View();
    ghost var before := resp.State();

    resp.WritePrefix();
    var source := crypto.address(node.publicKey);
    if source.None? {
      return;
    }

    var ok, pos := resp.HashingPass(tx.View(), source.value, node, crypto);
    ghost var first := HashPass(view, source.value, node, crypto, before.storage, resp.capacity);
    if !ok {
      return;
    }

    var hash := crypto.sha512(resp.storage[..if pos <= resp.storage.Length then pos else resp.storage.Length]);
    assert hash == crypto.sha512(Hashed(first.cur));
    var sig := crypto.sign(node.privateKey, hash);
    var der := crypto.toDer(sig);
    resp.StoreSignature(der);
    resp.signatureSize := |der|;
    resp.hasSignature := true;

    ok, pos := resp.SigningPass(tx.View(), source.value, node, crypto);
    if !ok {
      return;
    }
    resp.hasSerializedTx := true;
    resp.size := pos;
  }
}
