/** Serial delivery of callbacks. The host runs `signature_callback` once
    per reply, one at a time, in whatever order the replies come back; a
    sequence of arrivals therefore describes every possible execution.
    The lemmas here say what one batch sees across such a sequence: while
    fewer replies than its size have been recorded, its entry holds exactly
    those replies in arrival order and nothing is returned; on the reply
    that completes it, the whole batch is returned once and the entry is
    erased, whatever other batches' replies are interleaved. */
module Delivery {
  import opened Types
  import opened Contract

  datatype Trace = Trace(table: Table, outputs: seq<CallbackOutput>)

  /** The table after delivering `arrivals` in order, and what each
      callback produced (one output per arrival). */
  function Run(ext: Externals, table: Table, arrivals: seq<Arrival>): (r: Trace)
    ensures |r.outputs| == |arrivals|
  {
    if arrivals == [] then Trace(table, [])
    else
      var prev := Run(ext, table, arrivals[..|arrivals| - 1]);
      var step := Callback(ext, prev.table, arrivals[|arrivals| - 1]);
      Trace(step.table, prev.outputs + [step.output])
  }

  /** The pairs recorded for batch `b`, in arrival order: one per reply for
      `b` whose callback did not abort. */
  function Delivered(ext: Externals, arrivals: seq<Arrival>, b: nat): seq<StoredRequestAndResponse>
  {
    if arrivals == [] then []
    else
      var a := arrivals[|arrivals| - 1];
      Delivered(ext, arrivals[..|arrivals| - 1], b)
        + (if a.batchId == b && Record(ext, a).Some? then [Record(ext, a).value] else [])
  }

  /** The aggregates returned by callbacks of batch `b`, in order. */
  function Aggregates(arrivals: seq<Arrival>, outputs: seq<CallbackOutput>, b: nat): seq<seq<RequestAndResponse>>
    requires |outputs| == |arrivals|
  {
    if arrivals == [] then []
    else
      var m := |arrivals| - 1;
      Aggregates(arrivals[..m], outputs[..m], b)
        + (if arrivals[m].batchId == b && outputs[m].Returned? && outputs[m].value.Some?
           then [outputs[m].value.value] else [])
  }

  /** Number of replies for batch `b`. */
  function CountFor(arrivals: seq<Arrival>, b: nat): nat
  {
    if arrivals == [] then 0
    else CountFor(arrivals[..|arrivals| - 1], b) + (if arrivals[|arrivals| - 1].batchId == b then 1 else 0)
  }

  /** Every reply for batch `b` carries batch size `n`, as the calls
      emitted by `RequestSignatures` do. */
  ghost predicate Tagged(arrivals: seq<Arrival>, b: nat, n: nat) {
    forall i :: 0 <= i < |arrivals| && arrivals[i].batchId == b ==> arrivals[i].count == n
  }

  /** Every reply for batch `b` carries a request the library converts. */
  ghost predicate Convertible(ext: Externals, arrivals: seq<Arrival>, b: nat) {
    forall i :: 0 <= i < |arrivals| && arrivals[i].batchId == b ==> Record(ext, arrivals[i]).Some?
  }

  lemma TaggedPrefix(arrivals: seq<Arrival>, b: nat, n: nat, m: nat)
    requires Tagged(arrivals, b, n)
    requires m <= |arrivals|
    ensures Tagged(arrivals[..m], b, n)
  {
    forall i | 0 <= i < m && arrivals[..m][i].batchId == b ensures arrivals[..m][i].count == n {
      assert arrivals[..m][i] == arrivals[i];
    }
  }

  /** One more arrival: the table is the callback's, and batch `b` gains
      an aggregate exactly when that callback returns one for `b`. */
  lemma RunStep(ext: Externals, table: Table, arrivals: seq<Arrival>, b: nat)
    requires arrivals != []
    ensures var m := |arrivals| - 1;
      var prev := Run(ext, table, arrivals[..m]);
      var step := Callback(ext, prev.table, arrivals[m]);
      && Run(ext, table, arrivals).table == step.table
      && Aggregates(arrivals, Run(ext, table, arrivals).outputs, b)
         == Aggregates(arrivals[..m], prev.outputs, b)
            + (if arrivals[m].batchId == b && step.output.Returned? && step.output.value.Some?
               then [step.output.value.value] else [])
  {
    var m := |arrivals| - 1;
    assert Run(ext, table, arrivals).outputs[..m] == Run(ext, table, arrivals[..m]).outputs;
  }

  /** A batch that has recorded fewer replies than its size is still open:
      its entry holds exactly the recorded pairs in arrival order (and is
      absent while there are none), and no aggregate has been returned. */
  lemma {:induction false} OpenBatch(ext: Externals, table: Table, arrivals: seq<Arrival>, b: nat, n: nat)
    requires b !in table
    requires Tagged(arrivals, b, n)
    requires |Delivered(ext, arrivals, b)| < n
    ensures Pending(Run(ext, table, arrivals).table, b) == Delivered(ext, arrivals, b)
    ensures b in Run(ext, table, arrivals).table <==> Delivered(ext, arrivals, b) != []
    ensures Aggregates(arrivals, Run(ext, table, arrivals).outputs, b) == []
  {
    if arrivals != [] {
      var m := |arrivals| - 1;
      var prefix := arrivals[..m];
      var a := arrivals[m];
      TaggedPrefix(arrivals, b, n, m);
      OpenBatch(ext, table, prefix, b, n);
      RunStep(ext, table, arrivals, b);
      var prev := Run(ext, table, prefix);
      var step := Callback(ext, prev.table, a);
      if a.batchId == b && Record(ext, a).Some? {
        assert a.count == n;
        assert step.output == Returned(None);
      }
    }
  }

  /** A batch that has recorded exactly as many replies as its size has
      completed: its entry is gone, and exactly one aggregate was returned
      for it, the recorded pairs in arrival order, in caller form. */
  lemma {:induction false} CompletedBatch(ext: Externals, table: Table, arrivals: seq<Arrival>, b: nat, n: nat)
    requires b !in table
    requires Tagged(arrivals, b, n)
    requires n > 0 && |Delivered(ext, arrivals, b)| == n
    ensures b !in Run(ext, table, arrivals).table
    ensures Aggregates(arrivals, Run(ext, table, arrivals).outputs, b)
      == [FromStoredAll(ext.points, Delivered(ext, arrivals, b))]
  {
    var m := |arrivals| - 1;
    var prefix := arrivals[..m];
    var a := arrivals[m];
    TaggedPrefix(arrivals, b, n, m);
    RunStep(ext, table, arrivals, b);
    var prev := Run(ext, table, prefix);
    var step := Callback(ext, prev.table, a);
    if |Delivered(ext, prefix, b)| == n {
      CompletedBatch(ext, table, prefix, b, n);
      assert !(a.batchId == b && Record(ext, a).Some?);
      assert Delivered(ext, arrivals, b) == Delivered(ext, prefix, b);
      assert a.batchId == b ==> step.output.Aborted?;
    } else {
      OpenBatch(ext, table, prefix, b, n);
      assert a.batchId == b && Record(ext, a).Some?;
      assert a.count == n;
      assert step.output == Returned(Some(FromStoredAll(ext.points, Delivered(ext, arrivals, b))));
    }
  }

  /** When every reply of a batch converts, each one is recorded. */
  lemma {:induction false} DeliveredAll(ext: Externals, arrivals: seq<Arrival>, b: nat)
    requires Convertible(ext, arrivals, b)
    ensures |Delivered(ext, arrivals, b)| == CountFor(arrivals, b)
  {
    if arrivals != [] {
      var m := |arrivals| - 1;
      assert Convertible(ext, arrivals[..m], b) by {
        forall i | 0 <= i < m && arrivals[..m][i].batchId == b ensures Record(ext, arrivals[..m][i]).Some? {
          assert arrivals[..m][i] == arrivals[i];
        }
      }
      DeliveredAll(ext, arrivals[..m], b);
    }
  }

  /** A fresh batch of `n` requests whose `n` replies all arrive, in any
      order and interleaved with any other batches' replies, is returned
      exactly once, with one entry per reply, and leaves no stored entry. */
  lemma BatchResolvesOnce(ext: Externals, table: Table, arrivals: seq<Arrival>, b: nat, n: nat)
    requires b !in table
    requires Tagged(arrivals, b, n)
    requires Convertible(ext, arrivals, b)
    requires n > 0 && CountFor(arrivals, b) == n
    ensures b !in Run(ext, table, arrivals).table
    ensures |Aggregates(arrivals, Run(ext, table, arrivals).outputs, b)| == 1
    ensures |Aggregates(arrivals, Run(ext, table, arrivals).outputs, b)[0]| == n
  {
    DeliveredAll(ext, arrivals, b);
    CompletedBatch(ext, table, arrivals, b, n);
  }

  /** Replies for other batches never touch an entry. */
  lemma {:induction false} RunLeavesOtherBatches(ext: Externals, table: Table, arrivals: seq<Arrival>, k: nat)
    requires forall i :: 0 <= i < |arrivals| ==> arrivals[i].batchId != k
    ensures k in Run(ext, table, arrivals).table <==> k in table
    ensures k in table ==> Run(ext, table, arrivals).table[k] == table[k]
  {
    if arrivals != [] {
      var m := |arrivals| - 1;
      assert forall i :: 0 <= i < m ==> arrivals[..m][i] == arrivals[i];
      RunLeavesOtherBatches(ext, table, arrivals[..m], k);
    }
  }

  /** Three replies of one batch arriving as the third, first and second
      request come back in that order, not in submission order. */
  lemma ArrivalOrderNotSubmissionOrder(ext: Externals, r0: Arrival, r1: Arrival, r2: Arrival)
    requires r0.batchId == r1.batchId == r2.batchId
    requires r0.count == r1.count == r2.count == 3
    requires Record(ext, r0).Some? && Record(ext, r1).Some? && Record(ext, r2).Some?
    ensures Aggregates([r2, r0, r1], Run(ext, map[], [r2, r0, r1]).outputs, r0.batchId)
      == [[FromStored(ext.points, Record(ext, r2).value),
           FromStored(ext.points, Record(ext, r0).value),
           FromStored(ext.points, Record(ext, r1).value)]]
  {
    var b := r0.batchId;
    var trace := [r2, r0, r1];
    var recorded := [Record(ext, r2).value, Record(ext, r0).value, Record(ext, r1).value];
    assert trace[..2] == [r2, r0] && [r2, r0][..1] == [r2] && [r2][..0] == [];
    assert Delivered(ext, [r2], b) == recorded[..1];
    assert Delivered(ext, [r2, r0], b) == recorded[..2];
    assert Delivered(ext, trace, b) == recorded;
    var restored := FromStoredAll(ext.points, recorded);
    assert restored == [restored[0], restored[1], restored[2]];
    CompletedBatch(ext, map[], trace, b, 3);
  }

  /** Recorded replies are at most the replies; one aborted reply makes
      them strictly fewer. */
  lemma {:induction false} DeliveredShort(ext: Externals, arrivals: seq<Arrival>, b: nat)
    ensures |Delivered(ext, arrivals, b)| <= CountFor(arrivals, b)
    ensures (exists i :: 0 <= i < |arrivals| && arrivals[i].batchId == b && Record(ext, arrivals[i]).None?)
      ==> |Delivered(ext, arrivals, b)| < CountFor(arrivals, b)
  {
    if arrivals != [] {
      var m := |arrivals| - 1;
      DeliveredShort(ext, arrivals[..m], b);
      if exists i :: 0 <= i < |arrivals| && arrivals[i].batchId == b && Record(ext, arrivals[i]).None? {
        var i :| 0 <= i < |arrivals| && arrivals[i].batchId == b && Record(ext, arrivals[i]).None?;
        if i < m {
          assert arrivals[..m][i] == arrivals[i];
        }
      }
    }
  }

  /** A request the library cannot convert aborts its callback after the
      signing call was made, so that reply is never recorded: a batch with
      such a reply among its replies, and no more replies than its size, is
      never returned and never erased. */
  lemma AbortedReplyBlocksBatch(ext: Externals, table: Table, arrivals: seq<Arrival>, b: nat, n: nat)
    requires b !in table
    requires Tagged(arrivals, b, n)
    requires CountFor(arrivals, b) <= n
    requires exists i :: 0 <= i < |arrivals| && arrivals[i].batchId == b && Record(ext, arrivals[i]).None?
    ensures Aggregates(arrivals, Run(ext, table, arrivals).outputs, b) == []
    ensures Pending(Run(ext, table, arrivals).table, b) == Delivered(ext, arrivals, b)
  {
    DeliveredShort(ext, arrivals, b);
    OpenBatch(ext, table, arrivals, b, n);
  }
}
