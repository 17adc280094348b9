/** The batch fan-out/fan-in contract (src/lib.rs): `RequestSignatures`
    hands out a fresh batch id and emits one signing call per request;
    `SignatureCallback` runs once per reply, accumulates the replies of a
    batch in arrival order and, on the reply that reaches the batch size,
    erases the entry and returns the whole batch in caller form. */
module Contract {
  import opened Types

  const U64_MAX: nat := 0xFFFF_FFFF_FFFF_FFFF

  /** The persistent `requests_and_responses` lookup map. */
  type Table = map<nat, seq<StoredRequestAndResponse>>

  /** near_sdk `PromiseError`: why an outbound call produced no value. */
  datatype PromiseError = Failed | NotReady

  /** One outbound `sign` call together with the arguments its callback
      will receive: the request, the batch id and the batch size. */
  datatype SignCall = SignCall(request: SignRequestArgs, batchId: nat, count: nat)

  /** One delivery of `signature_callback`: the call's result and the
      arguments attached to it when it was emitted. */
  datatype Arrival = Arrival(
    callResult: Result<SignatureResponse, PromiseError>,
    request: SignRequestArgs,
    batchId: nat,
    count: nat)

  /** What a callback produces: it aborts (the request conversion's
      `expect` fails, so nothing is written), or it returns `None` while
      the batch is open and `Some` of the whole batch when it completes. */
  datatype CallbackOutput = Aborted | Returned(value: Option<seq<RequestAndResponse>>)

  datatype Step = Step(table: Table, output: CallbackOutput)

  /** The list stored for a batch; an absent entry reads as empty. */
  function Pending(table: Table, id: nat): seq<StoredRequestAndResponse> {
    if id in table then table[id] else []
  }

  /** Ids of all stored batches were handed out before `index`. */
  ghost predicate IssuedBelow(table: Table, index: nat) {
    forall k :: k in table ==> k < index
  }

  /** The stored form of a call result: a failed call is recorded as
      `Err(())`, a returned signature is always stored. */
  function StoredOutcome(e: PointEncoding, callResult: Result<SignatureResponse, PromiseError>): (r: Result<StoredSignatureResponse, Unit>)
    ensures r.Ok? <==> callResult.Ok?
    ensures callResult.Ok? ==> r == FromSignatureResponse(e, callResult.value)
  {
    match callResult
    case Ok(response) => FromSignatureResponse(e, response)
    case Err(_) => Err(Unit)
  }

  /** The pair a callback records, or `None` when converting its request
      aborts the callback. */
  function Record(ext: Externals, a: Arrival): (r: Option<StoredRequestAndResponse>)
    ensures r.Some? <==> ext.signRequestFromArgs(a.request).Some?
    ensures r.Some? ==>
      && ext.signRequestFromArgs(a.request) == Some(r.value.request)
      && (r.value.response.Err? <==> a.callResult.Err?)
      && r.value.response == StoredOutcome(ext.points, a.callResult)
  {
    match SignRequestArgsToSignRequest(ext.signRequestFromArgs, a.request)
    case None => None
    case Some(request) => Some(StoredRequestAndResponse(request, StoredOutcome(ext.points, a.callResult)))
  }

  /** A stored batch converted to caller form, element by element, in order. */
  function FromStoredAll(e: PointEncoding, list: seq<StoredRequestAndResponse>): (r: seq<RequestAndResponse>)
    ensures |r| == |list|
    ensures forall i :: 0 <= i < |list| ==> r[i] == FromStored(e, list[i])
  {
    if list == [] then [] else FromStoredAll(e, list[..|list| - 1]) + [FromStored(e, list[|list| - 1])]
  }

  /** The effect of one `signature_callback` on the table and what it
      returns. Only the entry of its own batch can change; the new list is
      the old one (empty if absent) with the new pair at the end; the batch
      completes exactly when that list reaches the expected count, and then
      its entry is gone and the whole list comes back in arrival order. */
  function Callback(ext: Externals, table: Table, a: Arrival): (r: Step)
    ensures forall k :: k != a.batchId ==>
      (k in r.table <==> k in table) && (k in table ==> r.table[k] == table[k])
    ensures r.output.Aborted? <==> Record(ext, a).None?
    ensures r.output.Aborted? ==> r.table == table
    ensures !r.output.Aborted? && a.batchId in r.table ==> |r.table[a.batchId]| < a.count
    ensures r.output.Returned? ==> (r.output.value.Some? <==> |Pending(table, a.batchId)| + 1 >= a.count)
    ensures r.output == Returned(None) ==>
      && a.batchId in r.table
      && r.table[a.batchId] == Pending(table, a.batchId) + [Record(ext, a).value]
    ensures r.output.Returned? && r.output.value.Some? ==>
      && a.batchId !in r.table
      && r.output.value.value == FromStoredAll(ext.points, Pending(table, a.batchId) + [Record(ext, a).value])
  {
    match Record(ext, a)
    case None => Step(table, Aborted)
    case Some(pair) =>
      var batch := Pending(table, a.batchId) + [pair];
      if |batch| >= a.count then
        Step(table - {a.batchId}, Returned(Some(FromStoredAll(ext.points, batch))))
      else
        Step(table[a.batchId := batch], Returned(None))
  }

  /** A callback for an id that was handed out keeps every stored id
      below the counter. */
  lemma CallbackKeepsIssued(ext: Externals, table: Table, a: Arrival, index: nat)
    requires IssuedBelow(table, index)
    requires a.batchId < index
    ensures IssuedBelow(Callback(ext, table, a).table, index)
  {
    var r := Callback(ext, table, a);
    forall k | k in r.table ensures k < index {
      if k != a.batchId {
        assert k in table;
      }
    }
  }

  /** What a caller finds in the aggregate for one reply: the signature
      the service returned (or `Err(())` for a failed call) and, for a
      new-style request, the very request it sent. */
  lemma CallerSeesReply(ext: Externals, a: Arrival)
    requires a.callResult.Ok? ==> PointRestores(ext.points, a.callResult.value)
    requires Record(ext, a).Some?
    ensures FromStored(ext.points, Record(ext, a).value).response
      == (match a.callResult case Ok(response) => Ok(response) case Err(_) => Err(Unit))
    ensures NewStyleAccepted(ext.signRequestFromArgs) && IsNewStyle(a.request) ==>
      FromStored(ext.points, Record(ext, a).value).request == a.request
  {
    if a.callResult.Ok? {
      RestoreAfterStore(ext.points, a.callResult.value);
    }
    if NewStyleAccepted(ext.signRequestFromArgs) && IsNewStyle(a.request) {
      CallerFormRoundTrip(ext.signRequestFromArgs, a.request);
    }
  }

  /** After erasure, a repeated reply for the same batch id starts a fresh
      entry again instead of being ignored. */
  lemma DuplicateAfterCompletionReopens(ext: Externals, table: Table, a: Arrival)
    requires a.batchId !in table
    requires Record(ext, a).Some?
    requires a.count >= 2
    ensures Callback(ext, table, a).output == Returned(None)
    ensures Callback(ext, table, a).table[a.batchId] == [Record(ext, a).value]
  {
  }

  class Contract {
    const ext: Externals
    var requestsAndResponses: Table
    var batchedRequestIndex: nat

    /** `Default::default`: counter at zero, no stored batch. */
    constructor Default(ext: Externals)
      ensures this.ext == ext
      ensures batchedRequestIndex == 0
      ensures requestsAndResponses == map[]
      ensures IssuedOnly()
    {
      this.ext := ext;
      requestsAndResponses := map[];
      batchedRequestIndex := 0;
    }

    /** Every stored batch id has already been handed out. */
    ghost predicate IssuedOnly()
      reads this
    {
      IssuedBelow(requestsAndResponses, batchedRequestIndex)
    }

    /** `request_signatures`: the old counter value is the batch id, the
      counter goes up by one (also for no requests), the table is not
      touched, and one call per request is emitted in input order, each
      tagged with the batch id and the batch size. */
    method RequestSignatures(requests: seq<SignRequestArgs>) returns (calls: seq<SignCall>)
      requires batchedRequestIndex < U64_MAX
      modifies this
      ensures batchedRequestIndex == old(batchedRequestIndex) + 1
      ensures requestsAndResponses == old(requestsAndResponses)
      ensures |calls| == |requests|
      ensures forall i :: 0 <= i < |requests| ==>
        calls[i] == SignCall(requests[i], old(batchedRequestIndex), |requests|)
      ensures old(IssuedOnly()) ==> IssuedOnly() && old(batchedRequestIndex) !in requestsAndResponses
    {
      var currentBatchedRequestIndex := batchedRequestIndex;
      batchedRequestIndex := batchedRequestIndex + 1;

      var numberOfRequestsInBatch := |requests|;
      calls := [];
      for i := 0 to |requests|
        invariant |calls| == i
        invariant forall k :: 0 <= k < i ==>
          calls[k] == SignCall(requests[k], currentBatchedRequestIndex, numberOfRequestsInBatch)
      {
        calls := calls + [SignCall(requests[i], currentBatchedRequestIndex, numberOfRequestsInBatch)];
      }
    }

    /** `signature_callback`: a read-modify-write of its own batch's entry,
      exactly as `Callback` describes; the counter never changes. */
    method SignatureCallback(
      callResult: Result<SignatureResponse, PromiseError>,
      request: SignRequestArgs,
      currentBatchedRequestIndex: nat,
      numberOfRequestsInBatch: nat)
      returns (output: CallbackOutput)
      modifies this
      ensures batchedRequestIndex == old(batchedRequestIndex)
      ensures Step(requestsAndResponses, output)
        == Callback(ext, old(requestsAndResponses), Arrival(callResult, request, currentBatchedRequestIndex, numberOfRequestsInBatch))
      ensures !output.Aborted? && currentBatchedRequestIndex in requestsAndResponses ==>
        |requestsAndResponses[currentBatchedRequestIndex]| < numberOfRequestsInBatch
      ensures old(IssuedOnly()) && currentBatchedRequestIndex < batchedRequestIndex ==> IssuedOnly()
    {
      ghost var a := Arrival(callResult, request, currentBatchedRequestIndex, numberOfRequestsInBatch);
      ghost var table := requestsAndResponses;

      var signRequest := SignRequestArgsToSignRequest(ext.signRequestFromArgs, request);
      if signRequest.None? {
        return Aborted;
      }

      var storedResponse := match callResult
        case Ok(response) => FromSignatureResponse(ext.points, response)
        case Err(_) => Err(Unit);

      var requestAndResponse := StoredRequestAndResponse(signRequest.value, storedResponse);

      var batchResponses := if currentBatchedRequestIndex in requestsAndResponses
        then requestsAndResponses[currentBatchedRequestIndex] else [];
      batchResponses := batchResponses + [requestAndResponse];

      var currentCount := |batchResponses|;
      if currentCount >= numberOfRequestsInBatch {
        var responses: seq<RequestAndResponse> := [];
        var i := 0;
        while i < |batchResponses|
          invariant 0 <= i <= |batchResponses|
          invariant responses == FromStoredAll(ext.points, batchResponses[..i])
        {
          assert batchResponses[..i + 1][..i] == batchResponses[..i];
          responses := responses + [FromStored(ext.points, batchResponses[i])];
          i := i + 1;
        }
        assert batchResponses[..i] == batchResponses;
        requestsAndResponses := requestsAndResponses - {currentBatchedRequestIndex};
        output := Returned(Some(responses));
      } else {
        requestsAndResponses := requestsAndResponses[currentBatchedRequestIndex := batchResponses];
        output := Returned(None);
      }
      if IssuedBelow(table, batchedRequestIndex) && currentBatchedRequestIndex < batchedRequestIndex {
        CallbackKeepsIssued(ext, table, a, batchedRequestIndex);
      }
    }
  }
}
