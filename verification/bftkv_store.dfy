/** The remote-backed `Storage`: the in-memory store, plus a write-once copy
    of each response on a remote key/value service keyed by the epoch's
    8-byte big-endian encoding. The remote is absent when opening its client
    failed. */
module BftkvStore {
  import opened Ints
  import opened Results
  import opened Types
  import opened StorageContract
  import BigEndian
  import MemoryStore

  /** The remote service as the wrapper sees it: its contents and the
      failures its next read and write report. */
  datatype Client = Client(kv: map<seq<byte>, seq<byte>>, readFault: Option<string>, writeFault: Option<string>)

  /** The remote calls one `Set` made. */
  datatype RemoteCall = RemoteRead(key: seq<byte>) | RemoteWrite(key: seq<byte>, value: seq<byte>)

  /** `client.Read`: the stored value, or an error when the key is absent or
      the read fails. */
  function Read(c: Client, key: seq<byte>): (r: Result<seq<byte>, string>)
    ensures r.Success? <==> c.readFault.None? && key in c.kv
  {
    match c.readFault
    case Some(e) => Failure(e)
    case None => if key in c.kv then Success(c.kv[key]) else Failure("not found")
  }

  /** `client.Write`: stores the value unless the write fails. */
  function Write(c: Client, key: seq<byte>, value: seq<byte>): (r: (Client, Option<string>))
    ensures r.1 == c.writeFault
    ensures r.1.None? ==> key in r.0.kv && r.0.kv[key] == value
    ensures r.1.Some? ==> r.0 == c
  {
    match c.writeFault
    case Some(e) => (c, Some(e))
    case None => (c.(kv := c.kv[key := value]), None)
  }

  datatype Store = Store(local: MemoryStore.Store, client: Option<Client>)

  /** `New`: a fresh local store; the client is kept only if it opened. */
  function New(connection: Result<Client, string>): (s: Store)
    ensures forall e :: Get(s, e) == Failure(MemoryStore.ErrNotFound)
    ensures LatestEpoch(s) == 0
    ensures s.client.Some? <==> connection.Success?
  {
    Store(MemoryStore.New(), match connection case Success(c) => Some(c) case Failure(_) => None)
  }

  /** The remote key of an epoch. */
  function EpochKey(epoch: Int64): seq<byte>
  {
    BigEndian.EncodeInt64(epoch)
  }

  /** The state after a `Set`, its error, and the remote calls it made. */
  datatype SetOutcome = SetOutcome(store: Store, err: Option<StorageError>, remote: seq<RemoteCall>)

  /** `Set`: stores locally first and returns a local error untouched. With
      a remote, a key already present there yields the core package's
      already-stored error without writing; otherwise the rendered response
      is written and the write's error returned. A failed remote read counts
      as an absent key. `rendered` is the response's text form. */
  function Set(s: Store, epoch: Int64, seen: Int64, smr: Option<SignedMapRoot>,
               response: Option<MutationsResponse>, errorList: seq<VerifyError>, rendered: seq<byte>): (r: SetOutcome)
    ensures var local := MemoryStore.Set(s.local, epoch, seen, smr, response, errorList);
      && r.store.local == local.store
      && (local.err.Some? ==> r == SetOutcome(s, local.err, []))
      && (s.client.None? ==> r == SetOutcome(Store(local.store, None), local.err, []))
    ensures s.client.Some? && epoch !in s.local.results ==>
      var c := s.client.value;
      var key := EpochKey(epoch);
      && |r.remote| > 0 && r.remote[0] == RemoteRead(key)
      && (Read(c, key).Success? ==>
            r.err == Some(ErrAlreadyStored) && r.remote == [RemoteRead(key)] && r.store.client == s.client)
      && (Read(c, key).Failure? ==>
            && r.remote == [RemoteRead(key), RemoteWrite(key, rendered)]
            && r.store.client == Some(Write(c, key, rendered).0)
            && (r.err.None? <==> c.writeFault.None?)
            && (c.writeFault.Some? ==> r.err == Some(RemoteFailed(c.writeFault.value))))
    ensures SetHonoursContract(s.local.results, epoch, MonitoringResult(smr, seen, errorList, response), r.err, r.store.local.results)
  {
    var local := MemoryStore.Set(s.local, epoch, seen, smr, response, errorList);
    if local.err.Some? then SetOutcome(s, local.err, [])
    else
      match s.client
      case None => SetOutcome(Store(local.store, None), None, [])
      case Some(c) =>
        var key := EpochKey(epoch);
        if Read(c, key).Success? then
          SetOutcome(Store(local.store, s.client), Some(ErrAlreadyStored), [RemoteRead(key)])
        else
          var (c', werr) := Write(c, key, rendered);
          var err := match werr case Some(e) => Some(RemoteFailed(e)) case None => None;
          SetOutcome(Store(local.store, Some(c')), err, [RemoteRead(key), RemoteWrite(key, rendered)])
  }

  /** `Get`: answered by the local store alone. */
  function Get(s: Store, epoch: Int64): (r: Result<MonitoringResult, StorageError>)
    ensures GetHonoursContract(s.local.results, epoch, r)
  {
    MemoryStore.Get(s.local, epoch)
  }

  /** `LatestEpoch`: answered by the local store alone. */
  function LatestEpoch(s: Store): Int64
  {
    MemoryStore.LatestEpoch(s.local)
  }

  /** The wrapper keeps the `Storage` interface's promises towards its
      readers, up to which package's error value is returned: a result `Set`
      accepted is retrievable by `Get`, an epoch already stored is refused
      with an already-stored error, and `Get` of an unstored epoch fails
      (see `DuplicateErrorDependsOnWhereFound`). */
  lemma ImplementsStorageInterface(s: Store, call: SetCall, rendered: seq<byte>, epoch: Int64)
    ensures var r := Set(s, call.epoch, call.seen, call.smr, call.response, call.errorList, rendered);
      && SetHonoursContract(s.local.results, call.epoch, Stored(call), r.err, r.store.local.results)
      && (r.err.None? ==> Get(r.store, call.epoch) == Success(Stored(call)))
    ensures GetHonoursContract(s.local.results, epoch, Get(s, epoch))
  {
  }

  /** The remote refusal: the epoch is new locally and is stored there, yet
      `Set` reports the core package's already-stored error, which is a
      different value from the local store's. */
  lemma RemoteRefusalAfterLocalStore(s: Store, epoch: Int64, seen: Int64, smr: Option<SignedMapRoot>,
                                     response: Option<MutationsResponse>, errorList: seq<VerifyError>, rendered: seq<byte>)
    requires s.client.Some? && epoch !in s.local.results
    requires Read(s.client.value, EpochKey(epoch)).Success?
    ensures var r := Set(s, epoch, seen, smr, response, errorList, rendered);
      && r.err == Some(ErrAlreadyStored)
      && r.err != Some(MemoryStore.ErrAlreadyStored)
      && Get(r.store, epoch) == Success(MonitoringResult(smr, seen, errorList, response))
      && LatestEpoch(r.store) == epoch
      && forall c :: c in r.remote ==> !c.RemoteWrite?
  {
  }

  /** One `Set` reports a duplicate with two different error values: the
      in-memory package's when the epoch is already stored locally, the core
      package's when only the remote holds it. */
  lemma DuplicateErrorDependsOnWhereFound(s: Store, epoch: Int64, seen: Int64, smr: Option<SignedMapRoot>,
                                          response: Option<MutationsResponse>, errorList: seq<VerifyError>, rendered: seq<byte>)
    ensures epoch in s.local.results ==>
      Set(s, epoch, seen, smr, response, errorList, rendered).err == Some(MemoryStore.ErrAlreadyStored)
    ensures s.client.Some? && epoch !in s.local.results && Read(s.client.value, EpochKey(epoch)).Success? ==>
      Set(s, epoch, seen, smr, response, errorList, rendered).err == Some(StorageContract.ErrAlreadyStored)
    ensures MemoryStore.ErrAlreadyStored != StorageContract.ErrAlreadyStored
  {
  }

  /** The remote key the wrapper writes decodes back to the epoch. */
  lemma WrittenKeyNamesEpoch(s: Store, epoch: Int64, seen: Int64, smr: Option<SignedMapRoot>,
                             response: Option<MutationsResponse>, errorList: seq<VerifyError>, rendered: seq<byte>)
    ensures forall c :: c in Set(s, epoch, seen, smr, response, errorList, rendered).remote ==>
      |c.key| == 8 && BigEndian.DecodeInt64(c.key) == epoch
  {
    BigEndian.Int64RoundTrip(epoch);
  }

  /** The wrapper's state after a series of `Set` calls; `render` gives the
      text form of each response. */
  function SetAll(s: Store, calls: seq<SetCall>, render: Option<MutationsResponse> -> seq<byte>): Store
  {
    if |calls| == 0 then s
    else
      var c := calls[|calls| - 1];
      Set(SetAll(s, calls[..|calls| - 1], render), c.epoch, c.seen, c.smr, c.response, c.errorList, render(c.response)).store
  }

  /** Whatever the remote does, reads through the wrapper return exactly
      what a plain in-memory store given the same calls would return. */
  lemma {:induction false} ReadsMatchLocalStore(s: Store, calls: seq<SetCall>,
                                                render: Option<MutationsResponse> -> seq<byte>, epoch: Int64)
    ensures SetAll(s, calls, render).local == MemoryStore.SetAll(s.local, calls)
    ensures Get(SetAll(s, calls, render), epoch) == MemoryStore.Get(MemoryStore.SetAll(s.local, calls), epoch)
    ensures LatestEpoch(SetAll(s, calls, render)) == MemoryStore.LatestEpoch(MemoryStore.SetAll(s.local, calls))
  {
    if |calls| > 0 {
      ReadsMatchLocalStore(s, calls[..|calls| - 1], render, epoch);
    }
  }
}
