/** The monitoring-result record, the error values and the behaviour every
    `Storage` implementation promises: `Set` stores a result retrievable by
    `Get`, storing an epoch twice is an error, and `Get` of an epoch never
    stored is an error. */
module StorageContract {
  import opened Ints
  import opened Results
  import opened Types

  /** The package whose `errors.New` created an error value. The core
      package and the in-memory implementation each declare their own
      `ErrAlreadyStored` and `ErrNotFound`, and Go compares errors by
      identity, so equal messages do not make equal errors. */
  datatype Origin = Core | Local

  datatype StorageError =
    | AlreadyStored(origin: Origin)
    | NotFound(origin: Origin)
    | RemoteFailed(cause: string)

  /** The core package's error values. */
  const ErrAlreadyStored: StorageError := AlreadyStored(Core)
  const ErrNotFound: StorageError := NotFound(Core)

  /** One failed verification step, as reported by the verifier. */
  datatype VerifyError = VerifyError(step: string)

  /** `MonitoringResult`: the monitor's signed root (nil unless every check
      passed), the time the response was seen, the failed checks, and the
      original response (documented as kept only when a check failed). */
  datatype MonitoringResult = MonitoringResult(
    smr: Option<SignedMapRoot>,
    seen: Int64,
    errors: seq<VerifyError>,
    response: Option<MutationsResponse>)

  /** The arguments of one `Storage.Set` call. */
  datatype SetCall = SetCall(
    epoch: Int64, seen: Int64, smr: Option<SignedMapRoot>,
    response: Option<MutationsResponse>, errorList: seq<VerifyError>)

  /** The record a successful `Set` call stores. */
  function Stored(c: SetCall): MonitoringResult
  {
    MonitoringResult(c.smr, c.seen, c.errorList, c.response)
  }

  /** The field invariants the record's documentation states. */
  predicate Documented(r: MonitoringResult)
  {
    && (r.smr.Some? ==> |r.errors| == 0)
    && (r.response.Some? ==> |r.errors| > 0)
  }

  /** What a `Set(epoch, …)` call may do, seen through `Get`: an epoch already
      stored is refused with an already-stored error and keeps its result; a
      successful call makes `Get(epoch)` return exactly the given data. */
  predicate SetHonoursContract(
    before: map<Int64, MonitoringResult>, epoch: Int64, stored: MonitoringResult,
    err: Option<StorageError>, after: map<Int64, MonitoringResult>)
  {
    && (epoch in before ==> err.Some? && err.value.AlreadyStored? && epoch in after && after[epoch] == before[epoch])
    && (err.None? ==> epoch in after && after[epoch] == stored)
  }

  /** What `Get(epoch)` must return: the stored result, or an error. */
  predicate GetHonoursContract(view: map<Int64, MonitoringResult>, epoch: Int64, r: Result<MonitoringResult, StorageError>)
  {
    && (epoch in view ==> r == Success(view[epoch]))
    && (epoch !in view ==> r.Failure? && r.error.NotFound?)
  }
}
