/** The transfer service object, and what one transfer does with a cache blob. */
module TransferService {
  import opened ByteStrings
  import opened Common
  import opened TransferQueue

  datatype CacheBlob = CacheBlob(
    prefixHash: string, model: string, layerCount: int, keyData: Bytes, valueData: Bytes,
    sequenceLength: int, hiddenSize: int, numHeads: int, checksum: string, compressed: bool)

  /** The LZ4 frame codec and the digest, as functions. */
  datatype Codec = Codec(compress: Bytes -> Bytes, decompress: Bytes -> Option<Bytes>, digest: Bytes -> string)

  ghost predicate Inverse(c: Codec) {
    forall x :: c.decompress(c.compress(x)) == Some(x)
  }

  ghost predicate CollisionFree(c: Codec) {
    forall x, y :: c.digest(x) == c.digest(y) ==> x == y
  }

  function Compress(c: Codec, b: CacheBlob): CacheBlob {
    if b.compressed then b
    else b.(keyData := c.compress(b.keyData), valueData := c.compress(b.valueData), compressed := true)
  }

  /** Raises on data that is not a frame. */
  function Decompress(c: Codec, b: CacheBlob): Option<CacheBlob> {
    if !b.compressed then Some(b)
    else
      var k, v := c.decompress(b.keyData), c.decompress(b.valueData);
      if k.None? || v.None? then None
      else Some(b.(keyData := k.value, valueData := v.value, compressed := false))
  }

  predicate ChecksumMatches(c: Codec, b: CacheBlob) {
    c.digest(b.keyData + b.valueData) == b.checksum
  }

  /** Decompressing what was compressed gives back every field of a plain blob;
      a blob already marked compressed passes through unchanged. */
  lemma CompressRoundTrip(c: Codec, b: CacheBlob)
    requires Inverse(c)
    ensures !b.compressed ==> Decompress(c, Compress(c, b)) == Some(b)
    ensures b.compressed ==> Compress(c, b) == b
    ensures Compress(c, Compress(c, b)) == Compress(c, b)
  {
  }

  /** One transfer: export, compress if enabled, check the checksum of what will
      be sent, import. `accepted` is what the target answers. */
  function ExecuteTransfer(c: Codec, enabled: bool, exported: Option<CacheBlob>, accepted: bool): Outcome {
    if exported.None? then Failure
    else
      var b := if enabled && !exported.value.compressed then Compress(c, exported.value) else exported.value;
      if !ChecksumMatches(c, b) || !accepted then Failure
      else Success(|b.keyData| + |b.valueData|)
  }

  /** Whatever the checksum was taken of: a blob is transferred exactly if the
      target accepts it and those are the bytes that would be sent, compressed or
      not; and then their number is what is reported. */
  lemma TransferredExactly(c: Codec, enabled: bool, b: CacheBlob, checked: Bytes, accepted: bool)
    requires CollisionFree(c) && b.checksum == c.digest(checked)
    ensures var sent := if enabled && !b.compressed then c.compress(b.keyData) + c.compress(b.valueData)
                        else b.keyData + b.valueData;
            ExecuteTransfer(c, enabled, Some(b), accepted) ==
              if accepted && sent == checked then Success(|checked|) else Failure
    ensures ExecuteTransfer(c, enabled, None, accepted) == Failure
  {
  }

  /** An intact blob is transferred exactly if the target accepts it and the
      bytes that are checked are still the ones the checksum was taken of:
      compression is off, the blob came compressed, or compressing its two parts
      happens to leave their concatenation as it was. */
  lemma IntactBlobSucceedsExactly(c: Codec, enabled: bool, b: CacheBlob, accepted: bool)
    requires CollisionFree(c) && ChecksumMatches(c, b)
    ensures ExecuteTransfer(c, enabled, Some(b), accepted).Success? <==>
              accepted && (!enabled || b.compressed
                           || c.compress(b.keyData) + c.compress(b.valueData) == b.keyData + b.valueData)
  {
  }

  /** So with the default settings, and a codec whose frames are longer than
      what they hold, no plain blob with a correct checksum gets through. */
  lemma DefaultSettingsReject(c: Codec, b: CacheBlob, accepted: bool)
    requires CollisionFree(c) && ChecksumMatches(c, b) && !b.compressed
    requires |c.compress(b.keyData)| > |b.keyData| && |c.compress(b.valueData)| > |b.valueData|
    ensures ExecuteTransfer(c, true, Some(b), accepted) == Failure
  {
    IntactBlobSucceedsExactly(c, true, b, accepted);
    var sent := c.compress(b.keyData) + c.compress(b.valueData);
    assert |sent| > |b.keyData + b.valueData|;
  }

  class CacheTransferService {
    const maxConcurrent: nat
    var transferQueue: seq<Request>
    var activeTransfers: map<string, Request>
    var totalTransfers: nat
    var successfulTransfers: nat
    var failedTransfers: nat
    var totalBytes: nat
    var workerUrls: set<string>
    var running: bool
    var workers: seq<Worker>
    var transferWorkers: set<nat>
    ghost var doomed: set<nat>
    ghost var stops: seq<set<nat>>
    ghost var history: History

    constructor (maxConcurrent: nat)
      ensures Value() == Initial() && this.maxConcurrent == maxConcurrent
    {
      this.maxConcurrent := maxConcurrent;
      transferQueue, activeTransfers := [], map[];
      totalTransfers, successfulTransfers, failedTransfers, totalBytes := 0, 0, 0, 0;
      workerUrls, running, workers := {}, false, [];
      transferWorkers, doomed, stops := {}, {}, [];
      history := NO_HISTORY;
    }

    ghost function Value(): State
      reads this
    {
      State(transferQueue, activeTransfers, totalTransfers, successfulTransfers, failedTransfers, totalBytes,
            workerUrls, running, workers, transferWorkers, doomed, stops, history)
    }

    method StartWorkers()
      modifies this
      ensures Value() == Apply(old(Value()), Start(maxConcurrent))
    {
      if running { return; }
      running := true;
      for i := 0 to maxConcurrent
        invariant workers == old(workers) + seq(i, _ => Idle)
        invariant transferWorkers == old(transferWorkers) + Places(|old(workers)|, i)
        invariant Value() == old(Value()).(running := true, workers := workers, tracked := transferWorkers)
      {
        transferWorkers := transferWorkers + {|workers|};
        workers := workers + [Idle];
      }
    }

    /** Up to the point where it waits for the tasks it has cancelled. */
    method StopWorkers()
      modifies this
      ensures Value() == Apply(old(Value()), Stop)
    {
      if !running { return; }
      running := false;
      doomed := doomed + transferWorkers;
      stops := stops + [transferWorkers];
    }

    method EndStop(ghost j: nat)
      requires Enabled(Value(), StopDone(j))
      modifies this
      ensures Value() == Apply(old(Value()), StopDone(j))
    {
      stops := stops[..j] + stops[j + 1..];
      transferWorkers := {};
    }

    /** Raises for a worker that is not registered. */
    method RequestTransfer(r: Request) returns (raised: bool)
      modifies this
      ensures Value() == Apply(old(Value()), Submit(r))
      ensures raised <==> !CanSubmit(old(Value()), r)
    {
      if r.source !in workerUrls || r.target !in workerUrls { return true; }
      transferQueue := transferQueue + [r];
      history := history.(submitted := history.submitted + [r]);
      raised := false;
    }

    /** Worker `i` takes the head of the queue and lists it as active. */
    method BeginTransfer(i: nat) returns (r: Request)
      requires Enabled(Value(), Begin(i))
      modifies this
      ensures Value() == Apply(old(Value()), Begin(i))
      ensures r == old(transferQueue)[0] && workers[i] == Busy(r)
    {
      r := transferQueue[0];
      transferQueue := transferQueue[1..];
      history := history.(begun := history.begun + [r]);
      activeTransfers := activeTransfers[Key(r) := r];
      workers := workers[i := Busy(r)];
    }

    method CountResult(o: Outcome)
      modifies this`successfulTransfers, this`failedTransfers, this`totalBytes, this`totalTransfers
      ensures Value() == Counted(old(Value()), o)
    {
      match o {
        case Success(n) =>
          successfulTransfers := successfulTransfers + 1;
          totalBytes := totalBytes + n;
        case Failure =>
          failedTransfers := failedTransfers + 1;
        case Cancelled =>
      }
      totalTransfers := totalTransfers + 1;
    }

    /** The rest of worker `i`'s turn: count the result, then in any case count
        the transfer and remove the listing, which raises if it is gone. */
    method FinishTransfer(i: nat, o: Outcome) returns (raised: bool)
      requires Enabled(Value(), Finish(i, o))
      modifies this
      ensures Value() == Apply(old(Value()), Finish(i, o))
      ensures raised <==> RemovalRaises(old(Value()), old(workers)[i].request)
    {
      var r := workers[i].request;
      CountResult(o);
      history := Ended(history, r, o);
      raised := RemoveListing(Key(r));
      workers := workers[i := if raised then Idle else if o.Cancelled? || !running then Gone else Idle];
      doomed := if o.Cancelled? then doomed - {i} else doomed;
    }

    method RemoveListing(key: string) returns (raised: bool)
      modifies this`activeTransfers
      ensures activeTransfers == old(activeTransfers) - {key}
      ensures raised <==> key !in old(activeTransfers)
    {
      raised := key !in activeTransfers;
      assert raised ==> activeTransfers - {key} == activeTransfers;
      if !raised { activeTransfers := activeTransfers - {key}; }
    }

    method LeaveQueue(i: nat)
      requires Enabled(Value(), Leave(i))
      modifies this
      ensures Value() == Apply(old(Value()), Leave(i))
    {
      workers := workers[i := Gone];
    }
  }
}
