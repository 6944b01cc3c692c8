/** The in-memory `Storage` implementation: a write-once map from epoch to
    monitoring result, plus a `latest` register holding the epoch of the most
    recent successful `Set`. Methods on the Go struct become state
    transitions on an immutable value. */
module MemoryStore {
  import opened Ints
  import opened Results
  import opened Types
  import opened StorageContract

  datatype Store = Store(results: map<Int64, MonitoringResult>, latest: Int64)

  /** The in-memory package's own error values. */
  const ErrAlreadyStored: StorageError := AlreadyStored(Local)
  const ErrNotFound: StorageError := NotFound(Local)

  /** `New`: an empty store whose latest epoch is 0. */
  function New(): (s: Store)
    ensures forall e :: Get(s, e) == Failure(ErrNotFound)
    ensures LatestEpoch(s) == 0
  {
    Store(map[], 0)
  }

  /** The state after a `Set` and the error it returned (`None` is nil). */
  datatype SetOutcome = SetOutcome(store: Store, err: Option<StorageError>)

  /** `Set`: refuses an epoch already present, leaving the store untouched;
      otherwise records the result and makes the epoch the latest. */
  function Set(s: Store, epoch: Int64, seen: Int64, smr: Option<SignedMapRoot>,
               response: Option<MutationsResponse>, errorList: seq<VerifyError>): (r: SetOutcome)
    ensures epoch in s.results ==> r == SetOutcome(s, Some(ErrAlreadyStored))
    ensures epoch !in s.results ==>
      && r.err.None?
      && Get(r.store, epoch) == Success(MonitoringResult(smr, seen, errorList, response))
      && LatestEpoch(r.store) == epoch
    ensures forall e :: e != epoch ==> Get(r.store, e) == Get(s, e)
    ensures SetHonoursContract(s.results, epoch, MonitoringResult(smr, seen, errorList, response), r.err, r.store.results)
  {
    if epoch in s.results then SetOutcome(s, Some(ErrAlreadyStored))
    else
      SetOutcome(Store(s.results[epoch := MonitoringResult(smr, seen, errorList, response)], epoch), None)
  }

  /** `Get`: the stored result, or this package's not-found error. */
  function Get(s: Store, epoch: Int64): (r: Result<MonitoringResult, StorageError>)
    ensures r.Failure? ==> r.error == ErrNotFound
    ensures GetHonoursContract(s.results, epoch, r)
  {
    if epoch in s.results then Success(s.results[epoch]) else Failure(ErrNotFound)
  }

  /** `LatestEpoch`: the `latest` register. */
  function LatestEpoch(s: Store): Int64
  {
    s.latest
  }

  /** The in-memory store keeps the `Storage` interface's promises, up to
      which package's error value is returned: a stored result is
      retrievable by `Get`, an epoch already stored is refused with an
      already-stored error, and `Get` of an unstored epoch fails (see
      `LocalErrorsAreNotCoreErrors`). */
  lemma ImplementsStorageInterface(s: Store, call: SetCall, epoch: Int64)
    ensures var r := Set(s, call.epoch, call.seen, call.smr, call.response, call.errorList);
      && SetHonoursContract(s.results, call.epoch, Stored(call), r.err, r.store.results)
      && (r.err.None? ==> Get(r.store, call.epoch) == Success(Stored(call)))
    ensures GetHonoursContract(s.results, epoch, Get(s, epoch))
  {
  }

  /** The interface is kept only up to error identity: a refused duplicate
      and a missing epoch are reported with this package's own error values,
      which differ from the core package's, so a caller comparing against
      the core values never recognises them. */
  lemma LocalErrorsAreNotCoreErrors(s: Store, call: SetCall, epoch: Int64)
    ensures call.epoch in s.results ==>
      var r := Set(s, call.epoch, call.seen, call.smr, call.response, call.errorList);
      && SetHonoursContract(s.results, call.epoch, Stored(call), r.err, r.store.results)
      && r.err == Some(ErrAlreadyStored)
      && r.err != Some(StorageContract.ErrAlreadyStored)
    ensures epoch !in s.results ==>
      && GetHonoursContract(s.results, epoch, Get(s, epoch))
      && Get(s, epoch) == Failure(ErrNotFound)
      && Get(s, epoch) != Failure(StorageContract.ErrNotFound)
  {
  }

  /** The store after a series of `Set` calls, errors ignored. */
  function SetAll(s: Store, calls: seq<SetCall>): Store
  {
    if |calls| == 0 then s
    else
      var c := calls[|calls| - 1];
      Set(SetAll(s, calls[..|calls| - 1]), c.epoch, c.seen, c.smr, c.response, c.errorList).store
  }

  /** Write-once: a result, once stored, survives any later series of `Set`
      calls unchanged. */
  lemma {:induction false} StoredResultNeverOverwritten(s: Store, calls: seq<SetCall>, epoch: Int64)
    requires epoch in s.results
    ensures Get(SetAll(s, calls), epoch) == Get(s, epoch)
  {
    if |calls| > 0 {
      StoredResultNeverOverwritten(s, calls[..|calls| - 1], epoch);
    }
  }

  /** The epochs held after a series of calls: the original ones and every
      epoch a call named. */
  lemma {:induction false} SetAllEpochs(s: Store, calls: seq<SetCall>, epoch: Int64)
    ensures epoch in SetAll(s, calls).results <==>
      epoch in s.results || exists i :: 0 <= i < |calls| && calls[i].epoch == epoch
  {
    if |calls| > 0 {
      var n := |calls| - 1;
      SetAllEpochs(s, calls[..n], epoch);
      assert forall i :: 0 <= i < n ==> calls[..n][i] == calls[i];
    }
  }

  /** Call `i` of the series stores a new epoch: neither the original store
      nor an earlier call holds it, so this `Set` succeeds. */
  predicate NewEpochIn(s: Store, calls: seq<SetCall>, i: int)
  {
    && 0 <= i < |calls|
    && calls[i].epoch !in s.results
    && forall j :: 0 <= j < i ==> calls[j].epoch != calls[i].epoch
  }

  /** Position of the last successful call of the series, or -1. */
  function LastSuccess(s: Store, calls: seq<SetCall>): (w: int)
    ensures -1 <= w < |calls|
    ensures w >= 0 ==> NewEpochIn(s, calls, w)
    ensures forall j :: w < j < |calls| ==> !NewEpochIn(s, calls, j)
  {
    if |calls| == 0 then -1
    else if NewEpochIn(s, calls, |calls| - 1) then |calls| - 1
    else
      var prefix := calls[..|calls| - 1];
      assert forall j :: 0 <= j < |prefix| ==> (NewEpochIn(s, prefix, j) <==> NewEpochIn(s, calls, j)) by {
        assert forall j :: 0 <= j < |prefix| ==> prefix[j] == calls[j];
      }
      LastSuccess(s, prefix)
  }

  /** `LatestEpoch` is the epoch of the most recent successful `Set`, and is
      unchanged by a series in which every `Set` failed. */
  lemma {:induction false} LatestIsLastSuccessfulSet(s: Store, calls: seq<SetCall>)
    ensures LastSuccess(s, calls) >= 0 ==> LatestEpoch(SetAll(s, calls)) == calls[LastSuccess(s, calls)].epoch
    ensures LastSuccess(s, calls) < 0 ==> LatestEpoch(SetAll(s, calls)) == LatestEpoch(s)
  {
    if |calls| > 0 {
      var n := |calls| - 1;
      var prefix := calls[..n];
      LatestIsLastSuccessfulSet(s, prefix);
      SetAllEpochs(s, prefix, calls[n].epoch);
      assert forall i :: 0 <= i < n ==> prefix[i] == calls[i];
      assert forall i :: 0 <= i < n ==> (NewEpochIn(s, prefix, i) <==> NewEpochIn(s, calls, i));
    }
  }

  /** `LatestEpoch` is not the largest stored epoch: storing 5 and then 3
      leaves 3 as the latest. */
  lemma LatestIsNotMaximum()
    ensures var s := SetAll(New(), [SetCall(5, 0, None, None, []), SetCall(3, 0, None, None, [])]);
      LatestEpoch(s) == 3 && Get(s, 5).Success?
  {
  }
}
