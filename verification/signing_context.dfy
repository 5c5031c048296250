/**
 * The value types of the signing context (src/podofo/main/PdfSigningContext.h):
 * the signer identity used as a map key, its equality and hash, the map of
 * intermediate results, and the defaults of the per-signature records.
 * The orchestration itself (prepare, save, digest, patch) is not part of
 * this model.
 */
module SigningContext {
  import opened Common

  /** An indirect object reference: object number and generation number. */
  datatype Reference = Reference(objectNumber: uint32, generationNumber: uint16)

  /** PdfSignerId: a signature object and the index of one signer registered on it. */
  datatype SignerId = SignerId(signatureRef: Reference, signerIndex: uint32)

  /** operator==: both fields equal. */
  predicate Equal(a: SignerId, b: SignerId)
    ensures Equal(a, b) <==> a == b
  {
    a.signatureRef == b.signatureRef && a.signerIndex == b.signerIndex
  }

  /** operator!=: either field differs. */
  predicate NotEqual(a: SignerId, b: SignerId)
    ensures NotEqual(a, b) <==> !Equal(a, b)
  {
    a.signatureRef != b.signatureRef || a.signerIndex != b.signerIndex
  }

  /**
   * std::hash<PdfSignerId>: ObjectNumber ^ (GenerationNumber << 16) ^
   * ((size_t)signerIndex << 24). The first shift is done on a 32-bit value
   * (the uint16 is promoted), the second on size_t, to which the 32-bit
   * index is zero-extended. The low 16 bits are the object number's alone.
   */
  function Hash(id: SignerId): (h: bv64)
    ensures h & 0xFFFF == (id.signatureRef.objectNumber as bv64) & 0xFFFF
  {
    var obj := id.signatureRef.objectNumber as bv32;
    var gen := (id.signatureRef.generationNumber as bv32) << 16;
    (obj ^ gen) as bv64 ^ (((id.signerIndex as bv32) as bv64) << 24)
  }

  /** Mixing a value shifted left by 24 into a 32-bit value leaves the shifted value's top bits on top. */
  lemma XorShiftHigh(lo: bv64, x: bv64)
    requires lo >> 32 == 0 && x >> 32 == 0
    ensures (lo ^ (x << 24)) >> 32 == x >> 8
  {
  }

  /** The top 32 bits of the hash are the signer index without its low 8 bits. */
  lemma HashHighBits(id: SignerId)
    ensures Hash(id) >> 32 == ((id.signerIndex as bv32) as bv64) >> 8
  {
    var obj := id.signatureRef.objectNumber as bv32;
    var gen := (id.signatureRef.generationNumber as bv32) << 16;
    XorShiftHigh((obj ^ gen) as bv64, (id.signerIndex as bv32) as bv64);
  }

  /**
   * Bits 16 to 31 of the hash are where the fields mix: the object number's
   * high half, the whole generation number and the signer index's low byte
   * (in bits 24 to 31).
   */
  lemma HashMiddleBits(id: SignerId)
    ensures var o, g, x := id.signatureRef.objectNumber as bv64,
                           id.signatureRef.generationNumber as bv64,
                           (id.signerIndex as bv32) as bv64;
      (Hash(id) >> 16) & 0xFFFF == ((o >> 16) ^ g ^ ((x & 0xFF) << 8)) & 0xFFFF
  {
  }

  /**
   * The hash is not injective: a generation number of 0x100 and a signer
   * index of 1 both land on bit 24, so the map tells ids apart by Equal,
   * not by the hash.
   */
  lemma HashCollision()
    ensures var a, b := SignerId(Reference(0, 0x100), 0), SignerId(Reference(0, 0), 1);
      !Equal(a, b) && Hash(a) == Hash(b)
  {
  }

  /** PdfSigningResults: one intermediate buffer per signer id. */
  datatype SigningResults = SigningResults(intermediate: map<SignerId, seq<byte>>)

  /** A registered signer, owned by the context or borrowed from the caller. */
  datatype SignerHandle = Owned(id: nat) | Borrowed(id: nat)

  /** SignatureAttrs: the page of the signature field and its signers. */
  datatype SignatureAttrs = SignatureAttrs(pageIndex: uint32, signers: seq<SignerHandle>)

  /** SignatureCtx: the placeholder contents, its reserved size and the byte range. */
  datatype SignatureCtx = SignatureCtx(contents: seq<byte>, beaconSize: size_t, byteRange: seq<int>)

  /** `a - b` on unsigned, which wraps modulo 2^32. */
  function UnsignedSub(a: uint32, b: uint32): uint32
  {
    (a - b) % UINT32_LIMIT
  }

  /** The default SignatureAttrs: page index `0u - 1u`, no signers. */
  function DefaultSignatureAttrs(): (r: SignatureAttrs)
    ensures r.pageIndex == UINT32_LIMIT - 1 && r.signers == []
  {
    SignatureAttrs(UnsignedSub(0, 1), [])
  }

  /** The default SignatureCtx: nothing reserved yet. */
  function DefaultSignatureCtx(): (r: SignatureCtx)
    ensures r.beaconSize == 0 && r.contents == [] && r.byteRange == []
  {
    SignatureCtx([], 0, [])
  }
}
