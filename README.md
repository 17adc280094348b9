# Batched signature requests: a Dafny model

This project models the core of a NEAR smart contract that sends a batch of
signing requests to an MPC signing service and puts the replies back together.

- `request_signatures` takes the current value of the counter
  `batched_request_index` as the batch id and increments the counter. It then
  emits one `sign` call per request. Each call carries the request, the batch id
  and the batch size, and these come back with the call's callback.
- `signature_callback` runs once per reply. It reads the batch's entry in the
  `requests_and_responses` table (an absent entry counts as an empty list) and
  appends the new `(request, response)` pair. If the list is still shorter than
  the batch size, it writes the list back and returns `None`. Otherwise it
  removes the entry and returns the whole list in caller form, in arrival order.
- The codec in `src/types.rs` converts between the following forms:
  - a signing-service response and its stored form, where a secp256k1 point is
    kept as its 33-byte compressed encoding;
  - a canonical `SignRequest` and the caller-facing `SignRequestArgs`.

The project has three modules:

- `Types` (`types.dfy`): the codec, as datatypes, functions and round-trip lemmas.
- `Contract` (`contract.dfy`): the contract itself. The class `Contract` has the
  two state fields. Its methods `RequestSignatures` and `SignatureCallback` work
  like the Rust code. Beside the class is the function `Callback`, which gives
  the effect of one callback on the table and what it returns.
  `SignatureCallback` is proved to match `Callback` exactly.
- `Delivery` (`delivery.dfy`): the host runs callbacks one at a time, so any
  execution is a sequence of arrivals (`Run`). The lemmas in this module say
  what one batch sees over such a sequence, whatever other batches' replies are
  mixed in:
  - while the batch has fewer recorded replies than its size, its entry holds
    exactly those replies, in arrival order, and nothing has been returned for it;
  - the reply that completes the batch returns all of it exactly once and
    removes the entry.

Foreign code is passed in as function values, in the datatype `Externals`,
which the contract holds as a constant. There are two pieces:

- k256 point compression and decompression (`PointEncoding`);
- the mpc_contract conversion from `SignRequestArgs` to `SignRequest`.

The lemmas state what they assume about this code, and only the lemmas that
need an assumption require it:

- the store-then-restore lemmas ask only that decompressing the encoding of
  the one point involved gives back that point (`PointRestores`);
- `Decodes` says this of every point, and `Canonical` says that only a point's
  own encoding decompresses to it. `RestoreFailsOnCorruptBytes` needs both.
  The point type is finite (the point at infinity, or an x-coordinate below
  2^256 with the parity of y), so the two can hold together, and
  `Sec1IsSound` shows an encoding that meets both: the SEC 1 compressed layout
  (section 2.3.3 of SEC 1), with 33 zero bytes for the point at infinity;
- `NewStyleAccepted`: a request that uses only the new-style fields converts to
  the canonical request made of exactly those fields.

The conversion aborts with `expect` when it fails. The model represents this as
the callback output `Aborted`, with the table left unchanged. The abort happens
before anything is written, and the host rolls back the call anyway.

The model follows the code in three places where a reader might expect
otherwise:

- A reply that arrives for a batch after it was erased is not ignored. It
  starts a new entry for the old batch id (`DuplicateAfterCompletionReopens`).
  That entry stays open while fewer further replies than the batch size have
  been recorded for it, and if enough do arrive a second aggregate is returned
  for the same id: `OpenBatch` and `CompletedBatch` hold from the erased state
  too, since they only need the id to be absent from the table.
- A request is converted to canonical form only inside the callback, after
  its signing call was already made. A request the library cannot convert
  makes that reply's callback abort, so the reply is never recorded and the
  batch can never reach its size: it is never returned and its partial entry
  is never erased (`AbortedReplyBlocksBatch`).
- An empty request list is accepted: it uses up a batch id, emits no call and
  leaves the table as it was.

## Model

| member | source | states |
|---|---|---|
| `Types.FromSignatureResponse` | src/types.rs:36-53 | always returns `Ok`; keeps the variant, `s`, `recovery_id` and the Ed25519 signature; the point is stored as its encoding |
| `Types.FromError` | src/types.rs:56-58 | always returns `Err(())` |
| `Types.ToSignatureResponse` | src/types.rs:61-89 | returns `Err(())` exactly when the stored point bytes do not decompress; Ed25519 values never fail; on success the variant, the decoded point, `s` and `recovery_id` are the stored ones |
| `Types.SignRequestToSignRequestArgs` | src/types.rs:112-120 | total; keeps `path`; `payload_v2 = Some(payload)`, `domain_id = Some(domain_id)`; both deprecated fields `None` |
| `Types.SignRequestArgsToSignRequest` | src/types.rs:106-109 | succeeds exactly when the library conversion does and returns its result; `None` is the abort |
| `Types.FromStored` | src/types.rs:94-102 | request converted to caller form; `Err(())` stays `Err(())`; `Ok(s)` becomes `to_signature_response(s)` |
| `Types.Sec1IsSound` | src/types.rs:39-70 | the SEC 1 compressed layout satisfies both `Decodes` and `Canonical`, so the lemmas that assume them are not vacuous |
| `Types.Ed25519RoundTrip` | src/types.rs:47-86 | restoring a stored Ed25519 signature gives it back, for any point encoding |
| `Types.Secp256k1RoundTrip` | src/types.rs:39-82 | if decompressing the encoding of its point gives back that point, restoring a stored secp256k1 signature gives back the same point, `s` and recovery id |
| `Types.RestoreAfterStore` | src/types.rs:36-89 | every signature response survives storing and restoring, given that its point (if any) decompresses back |
| `Types.StoreAfterRestore` | src/types.rs:36-89 | a stored value that restores is stored again bit for bit, given a canonical encoding |
| `Types.RestoreFailsOnCorruptBytes` | src/types.rs:68-70 | given `Decodes` and `Canonical`, restoring fails exactly when the 33 bytes are the encoding of no point at all |
| `Types.CanonicalRoundTrip` | src/types.rs:106-120 | a canonical request converted to caller form and back is unchanged |
| `Types.CallerFormRoundTrip` | src/types.rs:106-120 | a new-style caller request converted to canonical form and back is unchanged |
| `Contract.StoredOutcome` | src/lib.rs:76-82 | a failed call is recorded as `Err(())`; a returned signature is always stored as `Ok` |
| `Contract.Record` | src/lib.rs:72-88 | the pair exists exactly when the request converts; it holds the converted request and the stored outcome of the call: `from_signature_response` of a returned signature, `Err(())` for a failed call |
| `Contract.FromStoredAll` | src/lib.rs:113-116 | same length as the stored list; element `i` is `from_stored` of stored element `i` |
| `Contract.Callback` | src/lib.rs:65-135 | only the entry for its own batch id can change; the new list is the stored list (empty if absent) with the new pair appended; below the count it is written back and `None` is returned; at or above the count the entry is removed and `Some` of the whole list in caller form is returned; afterwards any entry for the id is shorter than the count |
| `Contract.CallbackKeepsIssued` | src/lib.rs:91-133 | a callback for an id that was handed out keeps every stored id below the counter |
| `Contract.CallerSeesReply` | src/lib.rs:76-116 | the aggregate entry for a reply holds the signature the service returned (given that its point decompresses back), or `Err(())` for a failed call, and for a new-style request the request as sent |
| `Contract.DuplicateAfterCompletionReopens` | src/lib.rs:91-133 | a reply for an erased batch with count at least 2 creates a new one-element entry and returns `None` |
| `Contract.Contract.Default` | src/lib.rs:30-37 | counter 0, empty table |
| `Contract.Contract.RequestSignatures` | src/lib.rs:41-62 | the batch id is the old counter value; the counter increases by exactly 1, even for no requests; the table is unchanged; `requests.len()` calls are emitted in input order, each with the batch id and the count `requests.len()`; the new id is not in the table |
| `Contract.Contract.SignatureCallback` | src/lib.rs:65-135 | new table and return value are exactly `Callback`'s; the counter is unchanged; an entry left for the id is shorter than the count passed in |
| `Delivery.Run` | src/lib.rs:65-135 | serial delivery of callbacks yields one output per arrival |
| `Delivery.OpenBatch` | src/lib.rs:129-133 | with fewer recorded replies than the batch size, the entry is exactly the recorded pairs in arrival order (absent while there are none) and no aggregate was returned for the batch |
| `Delivery.CompletedBatch` | src/lib.rs:111-128 | once recorded replies reach the batch size, the entry is gone and exactly one aggregate was returned: the recorded pairs in arrival order, in caller form |
| `Delivery.BatchResolvesOnce` | src/lib.rs:41-135 | a fresh batch of `n` requests whose `n` replies all arrive, interleaved with any other replies, and whose requests all convert, is returned exactly once with `n` entries and leaves no entry |
| `Delivery.AbortedReplyBlocksBatch` | src/lib.rs:72-73 | a fresh batch in which one reply's request does not convert, with no more replies than its size, is never returned and its entry keeps exactly the recorded pairs |
| `Delivery.RunLeavesOtherBatches` | src/lib.rs:91-133 | the entry of a batch that receives no reply is never changed |
| `Delivery.ArrivalOrderNotSubmissionOrder` | src/lib.rs:91-116 | replies arriving as the third, first and second request give the aggregate in that order |

## Left out

- src/chainsig.rs: building the promise, the gas and deposit constants, and choosing the MPC account from the current account id are host plumbing. Each emitted call is only the record `SignCall(request, batchId, count)`.
- k256 point compression and decompression are foreign cryptography. They are a pair of function values; the lemmas assume their round trip explicitly (`PointRestores`, `Decodes`, `Canonical`). Whether an x-coordinate lies on the curve is not modelled, so the SEC 1 stand-in in `Sec1IsSound` accepts every x below 2^256.
- The body of mpc_contract's `SignRequestArgs` to `SignRequest` conversion is foreign. It is an abstract partial function; the round-trip lemmas assume `NewStyleAccepted` about it.
- Asynchronous scheduling, `#[callback_result]`, `#[private]` and cross-contract execution: callbacks are sequential method calls. The callback accepts any batch id, as the code does.
- `log!` output, Borsh/JSON serialization, `BorshStorageKey` and the `U64` JSON wrapper: ids and counts are `nat`. The `as u64` casts of lengths are exact, because a list never holds 2^64 elements.
- Contract.Contract.RequestSignatures: requires the counter to be below 2^64-1 instead of modelling the overflow of `batched_request_index + 1`.
- Delivery.BatchResolvesOnce: counts the replies of the batch. It does not require one reply per emitted call, which the host guarantees.
