/** The codec between the signing service's responses and requests and the
    forms the contract stores or hands back to its callers (src/types.rs).
    Elliptic-curve point compression (k256) and the library conversion
    from caller-facing arguments to a canonical request (mpc_contract) are
    foreign code: they enter as function values, and what the codec relies
    on about them is stated as explicit predicates. */
module Types {

  type byte = x: int | 0 <= x < 256
  type Bytes32 = s: seq<byte> | |s| == 32 witness seq(32, _ => 0)
  type Bytes33 = s: seq<byte> | |s| == 33 witness seq(33, _ => 0)
  type Bytes64 = s: seq<byte> | |s| == 64 witness seq(64, _ => 0)

  /** Rust's `()`. */
  datatype Unit = Unit

  datatype Option<T> = None | Some(value: T)

  datatype Result<T, E> = Ok(value: T) | Err(error: E)

  function Pow256(n: nat): (r: nat)
    ensures r > 0
  {
    if n == 0 then 1 else 256 * Pow256(n - 1)
  }

  /** A 256-bit field element. */
  type Coord = x: nat | x < Pow256(32)

  /** A k256 affine point: the point at infinity, or a point given by its
      x-coordinate and the parity of its y-coordinate, which together fix
      it on the curve. The curve equation itself is not modelled. */
  datatype AffinePoint = Identity | Point(x: Coord, yOdd: bool)

  /** k256 `SerializableScalar`. */
  datatype Scalar = Scalar(value: nat)

  datatype K256Signature = K256Signature(bigR: AffinePoint, s: Scalar, recoveryId: byte)

  /** What the signing service returns (mpc_contract `SignatureResponse`). */
  datatype SignatureResponse =
    | Secp256k1(sig: K256Signature)
    | Ed25519(signature: Bytes64)

  /** The durable form of a response: the point is kept as its 33-byte
      compressed encoding. */
  datatype StoredSignatureResponse =
    | StoredSecp256k1(bigRBytes: Bytes33, s: Scalar, recoveryId: byte)
    | StoredEd25519(signature: Bytes64)

  datatype Payload = Ecdsa(bytes: seq<byte>) | Eddsa(bytes: seq<byte>)

  /** The canonical request (mpc_contract `SignRequest`). */
  datatype SignRequest = SignRequest(path: string, payload: Payload, domainId: nat)

  /** The caller-facing request (mpc_contract `SignRequestArgs`), with its
      new-style optional fields and its deprecated ones. */
  datatype SignRequestArgs = SignRequestArgs(
    path: string,
    payloadV2: Option<Payload>,
    deprecatedPayload: Option<Bytes32>,
    domainId: Option<nat>,
    deprecatedKeyVersion: Option<nat>)

  datatype StoredRequestAndResponse =
    StoredRequestAndResponse(request: SignRequest, response: Result<StoredSignatureResponse, Unit>)

  datatype RequestAndResponse =
    RequestAndResponse(request: SignRequestArgs, response: Result<SignatureResponse, Unit>)

  /** k256 point compression (`to_bytes`) and its partial inverse (`from_bytes`). */
  datatype PointEncoding = PointEncoding(toBytes: AffinePoint -> Bytes33, fromBytes: Bytes33 -> Option<AffinePoint>)

  /** The foreign code the contract is linked against. */
  datatype Externals = Externals(
    points: PointEncoding,
    signRequestFromArgs: SignRequestArgs -> Option<SignRequest>)

  /** Decompression undoes compression: every point comes back. */
  ghost predicate Decodes(e: PointEncoding) {
    forall p :: e.fromBytes(e.toBytes(p)) == Some(p)
  }

  /** Only the encoding of a point decompresses to that point. */
  ghost predicate Canonical(e: PointEncoding) {
    forall b :: e.fromBytes(b).Some? ==> e.toBytes(e.fromBytes(b).value) == b
  }

  /** A request that uses only the new-style fields converts to the
      canonical request made of exactly those fields. */
  predicate IsNewStyle(args: SignRequestArgs) {
    && args.payloadV2.Some? && args.deprecatedPayload.None?
    && args.domainId.Some? && args.deprecatedKeyVersion.None?
  }

  ghost predicate NewStyleAccepted(convert: SignRequestArgs -> Option<SignRequest>) {
    forall args :: IsNewStyle(args) ==>
      convert(args) == Some(SignRequest(args.path, args.payloadV2.value, args.domainId.value))
  }

  /** `StoredSignatureResponse::from_signature_response`: never fails;
      keeps the variant and every field, the point as its encoding. */
  function FromSignatureResponse(e: PointEncoding, response: SignatureResponse): (r: Result<StoredSignatureResponse, Unit>)
    ensures r.Ok?
    ensures r.value.StoredSecp256k1? <==> response.Secp256k1?
    ensures response.Secp256k1? ==>
      && r.value.bigRBytes == e.toBytes(response.sig.bigR)
      && r.value.s == response.sig.s
      && r.value.recoveryId == response.sig.recoveryId
    ensures response.Ed25519? ==> r.value.signature == response.signature
  {
    match response
    case Secp256k1(sig) => Ok(StoredSecp256k1(e.toBytes(sig.bigR), sig.s, sig.recoveryId))
    case Ed25519(signature) => Ok(StoredEd25519(signature))
  }

  /** `StoredSignatureResponse::from_error`. */
  function FromError(): (r: Result<StoredSignatureResponse, Unit>)
    ensures r.Err?
  {
    Err(Unit)
  }

  /** `StoredSignatureResponse::to_signature_response`: fails exactly when
      the stored point bytes do not decompress; an Ed25519 value never fails. */
  function ToSignatureResponse(e: PointEncoding, stored: StoredSignatureResponse): (r: Result<SignatureResponse, Unit>)
    ensures r.Err? <==> stored.StoredSecp256k1? && e.fromBytes(stored.bigRBytes).None?
    ensures r.Ok? ==> (r.value.Secp256k1? <==> stored.StoredSecp256k1?)
    ensures r.Ok? && stored.StoredSecp256k1? ==>
      && e.fromBytes(stored.bigRBytes) == Some(r.value.sig.bigR)
      && r.value.sig.s == stored.s
      && r.value.sig.recoveryId == stored.recoveryId
    ensures stored.StoredEd25519? ==> r == Ok(Ed25519(stored.signature))
  {
    match stored
    case StoredSecp256k1(bigRBytes, s, recoveryId) =>
      (match e.fromBytes(bigRBytes)
       case None => Err(Unit)
       case Some(bigR) => Ok(Secp256k1(K256Signature(bigR, s, recoveryId))))
    case StoredEd25519(signature) => Ok(Ed25519(signature))
  }

  /** `sign_request_to_sign_request_args`: total; the canonical fields go
      to the new-style slots and the deprecated slots stay empty. */
  function SignRequestToSignRequestArgs(request: SignRequest): (r: SignRequestArgs)
    ensures IsNewStyle(r)
    ensures r.path == request.path
    ensures r.payloadV2 == Some(request.payload) && r.domainId == Some(request.domainId)
  {
    SignRequestArgs(request.path, Some(request.payload), None, Some(request.domainId), None)
  }

  /** `sign_request_args_to_sign_request`: the library conversion, where
      `None` stands for the `expect` that aborts the call. */
  function SignRequestArgsToSignRequest(convert: SignRequestArgs -> Option<SignRequest>, args: SignRequestArgs): (r: Option<SignRequest>)
    ensures r.Some? <==> convert(args).Some?
    ensures r.Some? ==> convert(args) == Some(r.value)
  {
    convert(args)
  }

  /** `RequestAndResponse::from_stored`: the request back in caller form,
      a stored failure stays a failure, a stored signature is restored. */
  function FromStored(e: PointEncoding, stored: StoredRequestAndResponse): (r: RequestAndResponse)
    ensures r.request == SignRequestToSignRequestArgs(stored.request)
    ensures stored.response.Err? ==> r.response == Err(Unit)
    ensures stored.response.Ok? ==> r.response == ToSignatureResponse(e, stored.response.value)
  {
    var request := SignRequestToSignRequestArgs(stored.request);
    var response := match stored.response
      case Ok(storedSig) => ToSignatureResponse(e, storedSig)
      case Err(_) => Err(Unit);
    RequestAndResponse(request, response)
  }

  /** An Ed25519 signature survives storing and restoring, whatever the
      point encoding. */
  lemma Ed25519RoundTrip(e: PointEncoding, signature: Bytes64)
    ensures ToSignatureResponse(e, FromSignatureResponse(e, Ed25519(signature)).value) == Ok(Ed25519(signature))
  {
  }

  /** A secp256k1 signature survives storing and restoring: same point,
      same `s`, same recovery id, provided decompression gives back its point. */
  lemma Secp256k1RoundTrip(e: PointEncoding, sig: K256Signature)
    requires e.fromBytes(e.toBytes(sig.bigR)) == Some(sig.bigR)
    ensures ToSignatureResponse(e, FromSignatureResponse(e, Secp256k1(sig)).value) == Ok(Secp256k1(sig))
  {
  }

  /** Decompression gives back the point of a secp256k1 response. */
  predicate PointRestores(e: PointEncoding, response: SignatureResponse) {
    response.Secp256k1? ==> e.fromBytes(e.toBytes(response.sig.bigR)) == Some(response.sig.bigR)
  }

  /** Every signature survives storing and restoring, given that its point
      decompresses back. */
  lemma {:induction false} RestoreAfterStore(e: PointEncoding, response: SignatureResponse)
    requires PointRestores(e, response)
    ensures ToSignatureResponse(e, FromSignatureResponse(e, response).value) == Ok(response)
  {
    match response
    case Secp256k1(sig) => Secp256k1RoundTrip(e, sig);
    case Ed25519(signature) => Ed25519RoundTrip(e, signature);
  }

  /** A stored value that restores is re-stored bit for bit. */
  lemma StoreAfterRestore(e: PointEncoding, stored: StoredSignatureResponse)
    requires Canonical(e)
    requires ToSignatureResponse(e, stored).Ok?
    ensures FromSignatureResponse(e, ToSignatureResponse(e, stored).value) == Ok(stored)
  {
    if stored.StoredSecp256k1? {
      assert e.toBytes(e.fromBytes(stored.bigRBytes).value) == stored.bigRBytes;
    }
  }

  /** With a sound encoding, restoring a stored point fails exactly when its
      bytes are the encoding of no point at all (corrupt bytes). */
  lemma RestoreFailsOnCorruptBytes(e: PointEncoding, bigRBytes: Bytes33, s: Scalar, recoveryId: byte)
    requires Decodes(e) && Canonical(e)
    ensures ToSignatureResponse(e, StoredSecp256k1(bigRBytes, s, recoveryId)).Err?
        <==> forall p :: e.toBytes(p) != bigRBytes
  {
    if e.fromBytes(bigRBytes).Some? {
      var p := e.fromBytes(bigRBytes).value;
      assert e.toBytes(p) == bigRBytes;
    } else {
      forall p ensures e.toBytes(p) != bigRBytes {
        assert e.fromBytes(e.toBytes(p)) == Some(p);
      }
    }
  }

  /** A canonical request survives the trip to caller form and back. */
  lemma CanonicalRoundTrip(convert: SignRequestArgs -> Option<SignRequest>, request: SignRequest)
    requires NewStyleAccepted(convert)
    ensures SignRequestArgsToSignRequest(convert, SignRequestToSignRequestArgs(request)) == Some(request)
  {
    var args := SignRequestToSignRequestArgs(request);
    assert IsNewStyle(args);
  }

  /** A new-style caller request survives the trip to canonical form and back. */
  lemma CallerFormRoundTrip(convert: SignRequestArgs -> Option<SignRequest>, args: SignRequestArgs)
    requires NewStyleAccepted(convert)
    requires IsNewStyle(args)
    ensures SignRequestArgsToSignRequest(convert, args).Some?
    ensures SignRequestToSignRequestArgs(SignRequestArgsToSignRequest(convert, args).value) == args
  {
    assert convert(args) == Some(SignRequest(args.path, args.payloadV2.value, args.domainId.value));
  }

  /** `x` as `n` big-endian bytes. */
  function BigEndian(x: nat, n: nat): (r: seq<byte>)
    requires x < Pow256(n)
    ensures |r| == n
  {
    if n == 0 then [] else BigEndian(x / 256, n - 1) + [x % 256]
  }

  /** The number that big-endian bytes stand for. */
  function FromBigEndian(s: seq<byte>): nat {
    if s == [] then 0 else FromBigEndian(s[..|s| - 1]) * 256 + s[|s| - 1]
  }

  lemma {:induction false} FromBigEndianBound(s: seq<byte>)
    ensures FromBigEndian(s) < Pow256(|s|)
  {
    if s != [] {
      FromBigEndianBound(s[..|s| - 1]);
    }
  }

  lemma {:induction false} FromBigEndianOfBigEndian(x: nat, n: nat)
    requires x < Pow256(n)
    ensures FromBigEndian(BigEndian(x, n)) == x
  {
    if n > 0 {
      var r := BigEndian(x, n);
      assert r[..n - 1] == BigEndian(x / 256, n - 1);
      FromBigEndianOfBigEndian(x / 256, n - 1);
    }
  }

  lemma {:induction false} BigEndianOfFromBigEndian(s: seq<byte>)
    ensures FromBigEndian(s) < Pow256(|s|)
    ensures BigEndian(FromBigEndian(s), |s|) == s
  {
    FromBigEndianBound(s);
    if s != [] {
      var m := |s| - 1;
      BigEndianOfFromBigEndian(s[..m]);
      assert FromBigEndian(s) / 256 == FromBigEndian(s[..m]);
      assert FromBigEndian(s) % 256 == s[m];
      assert s == s[..m] + [s[m]];
    }
  }

  /** The SEC 1 compressed layout (section 2.3.3 of SEC 1): tag 2 or 3 for
      the parity of y, then x in 32 big-endian bytes; 33 zero bytes for the
      point at infinity, as k256 writes it. */
  function Sec1Compress(p: AffinePoint): Bytes33 {
    match p
    case Identity => seq(33, _ => 0)
    case Point(x, yOdd) => [if yOdd then 3 else 2] + BigEndian(x, 32)
  }

  function Sec1Decompress(b: Bytes33): Option<AffinePoint> {
    if b == seq(33, _ => 0) then Some(Identity)
    else if b[0] == 2 || b[0] == 3 then
      FromBigEndianBound(b[1..]);
      Some(Point(FromBigEndian(b[1..]), b[0] == 3))
    else None
  }

  /** The assumptions made of the foreign point encoding can all be met:
      the SEC 1 compressed layout satisfies both. */
  lemma Sec1IsSound()
    ensures Decodes(PointEncoding(Sec1Compress, Sec1Decompress))
    ensures Canonical(PointEncoding(Sec1Compress, Sec1Decompress))
  {
    var e := PointEncoding(Sec1Compress, Sec1Decompress);
    forall p ensures e.fromBytes(e.toBytes(p)) == Some(p) {
      if p.Point? {
        var b := Sec1Compress(p);
        assert b[1..] == BigEndian(p.x, 32);
        assert b[0] != 0;
        FromBigEndianOfBigEndian(p.x, 32);
      }
    }
    forall b | e.fromBytes(b).Some? ensures e.toBytes(e.fromBytes(b).value) == b {
      if b != seq(33, _ => 0) {
        BigEndianOfFromBigEndian(b[1..]);
        assert b == [b[0]] + b[1..];
      }
    }
  }
}
