/** The monitor's handling of one mutations response (`Monitor.Process`):
    verify, sign only when nothing failed, store the outcome, then compare the
    signed root hash with the one a witness published. The verifier, the
    signer, the result store and the witness are abstract collaborators. */
module Monitor {
  import opened Ints
  import opened Results
  import opened Types
  import opened StorageContract

  /** A call made to a collaborator. */
  datatype Call =
    | Verify
    | Sign
    | StoreSet(args: SetCall)
    | WitnessRead(mapId: Int64, epoch: Int64)

  datatype MonitorError = SignFailed(cause: string) | StoreFailed(error: StorageError)

  /** How `Process` ends: nil error, an error, or a nil-pointer panic. */
  datatype Outcome = Done | Failed(error: MonitorError) | NilDereference

  /** The verifier (`verifyMutationsResponse`), the signer (`signMapRoot`)
      and the result store's `Set`. */
  datatype Collaborators = Collaborators(
    verify: MutationsResponse -> seq<VerifyError>,
    sign: MutationsResponse -> Result<SignedMapRoot, string>,
    storeSet: SetCall -> Option<StorageError>)

  /** The outcome, the calls made, and the logged result of the root-hash
      comparison (`None` when the witness had no hash or was not consulted). */
  datatype Processed = Processed(outcome: Outcome, trace: seq<Call>, rootsMatch: Option<bool>)

  /** The `Set` call `Process` makes for a response whose verification
      reported `errs`, given the root it signed, if any. */
  function StoreCallAsWritten(resp: MutationsResponse, seen: Int64, smr: Option<SignedMapRoot>, errs: seq<VerifyError>): SetCall
  {
    SetCall(resp.epoch, seen, smr, Some(resp), errs)
  }

  /** The advisory comparison with the witness's published hash (`witnessHash`
      maps a map id and an epoch to the hash text, empty when unavailable). */
  function CrossCheck(smr: SignedMapRoot, epoch: Int64, witnessHash: (Int64, Int64) -> seq<byte>): Option<bool>
  {
    var published := witnessHash(smr.mapId, epoch);
    if |published| == 0 then None else Some(smr.rootHash == published)
  }

  /** Verification passed but signing the root failed: the one path on which
      `Process` returns before storing anything. */
  predicate SignFails(c: Collaborators, resp: MutationsResponse)
  {
    |c.verify(resp)| == 0 && c.sign(resp).Failure?
  }

  /** The root `Process` signs: present only when verification passed and
      signing succeeded, nil otherwise. */
  function Signed(c: Collaborators, resp: MutationsResponse): Option<SignedMapRoot>
  {
    if |c.verify(resp)| == 0 && c.sign(resp).Success? then Some(c.sign(resp).value) else None
  }

  /** `Process` as written. After a successful `Set` on the failed
      verification path the signed root is nil, and building the witness key
      dereferences it. */
  function Process(c: Collaborators, resp: MutationsResponse, seen: Int64,
                   witnessHash: (Int64, Int64) -> seq<byte>): (r: Processed)
    ensures (Sign in r.trace) <==> |c.verify(resp)| == 0
    ensures |c.verify(resp)| == 0 && c.sign(resp).Failure? ==>
      r.outcome == Failed(SignFailed(c.sign(resp).error)) && forall k :: k in r.trace ==> !k.StoreSet?
    ensures forall k :: k in r.trace && k.StoreSet? ==>
      && k.args.epoch == resp.epoch && k.args.seen == seen
      && k.args.response == Some(resp) && k.args.errorList == c.verify(resp)
      && (k.args.smr.Some? <==> |c.verify(resp)| == 0)
      && (k.args.smr.Some? ==> c.sign(resp) == Success(k.args.smr.value))
      && (c.storeSet(k.args).Some? ==> r.outcome == Failed(StoreFailed(c.storeSet(k.args).value)))
    ensures r.outcome == Done ==> |c.verify(resp)| == 0
    ensures !SignFails(c, resp) ==> StoreSet(StoreCallAsWritten(resp, seen, Signed(c, resp), c.verify(resp))) in r.trace
    ensures (r.outcome.Failed? && r.outcome.error.SignFailed?) <==> SignFails(c, resp)
    ensures |c.verify(resp)| == 0 && c.sign(resp).Success? ==>
      (r.outcome == Done <==> c.storeSet(StoreCallAsWritten(resp, seen, Signed(c, resp), c.verify(resp))).None?)
    ensures r.outcome == NilDereference <==>
      |c.verify(resp)| > 0 && c.storeSet(StoreCallAsWritten(resp, seen, None, c.verify(resp))).None?
  {
    var errs := c.verify(resp);
    if |errs| == 0 && c.sign(resp).Failure? then
      Processed(Failed(SignFailed(c.sign(resp).error)), [Verify, Sign], None)
    else
      var smr := if |errs| == 0 then Some(c.sign(resp).value) else None;
      var args := StoreCallAsWritten(resp, seen, smr, errs);
      var t := (if |errs| == 0 then [Verify, Sign] else [Verify]) + [StoreSet(args)];
      match c.storeSet(args)
      case Some(e) => Processed(Failed(StoreFailed(e)), t, None)
      case None =>
        match smr
        case None => Processed(NilDereference, t, None)
        case Some(root) =>
          Processed(Done, t + [WitnessRead(root.mapId, resp.epoch)], CrossCheck(root, resp.epoch, witnessHash))
  }

  /** The failing obligation: whenever verification reports an error and the
      store accepts the result, `Process` dereferences its nil root. */
  lemma FailedVerificationDereferencesNil(c: Collaborators, resp: MutationsResponse, seen: Int64,
                                          witnessHash: (Int64, Int64) -> seq<byte>)
    requires |c.verify(resp)| > 0
    requires c.storeSet(StoreCallAsWritten(resp, seen, None, c.verify(resp))).None?
    ensures Process(c, resp, seen, witnessHash).outcome == NilDereference
  {
  }

  /** As written, a fully verified response is stored together with the
      original response, against the record's documentation. */
  lemma ResponseStoredOnSuccess(c: Collaborators, resp: MutationsResponse, seen: Int64,
                                witnessHash: (Int64, Int64) -> seq<byte>)
    requires |c.verify(resp)| == 0 && c.sign(resp).Success?
    ensures exists k :: k in Process(c, resp, seen, witnessHash).trace && k.StoreSet? && !Documented(Stored(k.args))
  {
    var args := StoreCallAsWritten(resp, seen, Some(c.sign(resp).value), c.verify(resp));
    assert StoreSet(args) in Process(c, resp, seen, witnessHash).trace;
  }

  /** The witness comparison only logs: it never changes the outcome. */
  lemma CrossCheckIsAdvisory(c: Collaborators, resp: MutationsResponse, seen: Int64,
                             w1: (Int64, Int64) -> seq<byte>, w2: (Int64, Int64) -> seq<byte>)
    ensures Process(c, resp, seen, w1).outcome == Process(c, resp, seen, w2).outcome
    ensures ProcessCorrected(c, resp, seen, w1).outcome == ProcessCorrected(c, resp, seen, w2).outcome
  {
  }

  /** The `Set` call of the corrected `Process`: the original response is kept
      only when a verification failed. */
  function StoreCall(resp: MutationsResponse, seen: Int64, smr: Option<SignedMapRoot>, errs: seq<VerifyError>): SetCall
  {
    SetCall(resp.epoch, seen, smr, if |errs| > 0 then Some(resp) else None, errs)
  }

  /** `Process` with the evident intent restored: the witness comparison is
      skipped when no root was signed, and the stored record has the
      documented shape. It never panics, signs only fully verified responses,
      never stores after a signing failure and surfaces store errors. */
  function ProcessCorrected(c: Collaborators, resp: MutationsResponse, seen: Int64,
                            witnessHash: (Int64, Int64) -> seq<byte>): (r: Processed)
    ensures r.outcome != NilDereference
    ensures (Sign in r.trace) <==> |c.verify(resp)| == 0
    ensures |c.verify(resp)| == 0 && c.sign(resp).Failure? ==>
      r.outcome == Failed(SignFailed(c.sign(resp).error)) && forall k :: k in r.trace ==> !k.StoreSet?
    ensures forall k :: k in r.trace && k.StoreSet? ==>
      && Documented(Stored(k.args))
      && k.args.epoch == resp.epoch && k.args.seen == seen && k.args.errorList == c.verify(resp)
      && (k.args.smr.Some? <==> |c.verify(resp)| == 0)
      && (k.args.response.Some? <==> |c.verify(resp)| > 0)
      && (k.args.response.Some? ==> k.args.response.value == resp)
      && (c.storeSet(k.args).Some? ==> r.outcome == Failed(StoreFailed(c.storeSet(k.args).value)))
    ensures r.outcome == Done <==>
      (|c.verify(resp)| > 0 || c.sign(resp).Success?) && exists k :: k in r.trace && k.StoreSet? && c.storeSet(k.args).None?
    ensures !SignFails(c, resp) ==> StoreSet(StoreCall(resp, seen, Signed(c, resp), c.verify(resp))) in r.trace
    ensures (r.outcome.Failed? && r.outcome.error.SignFailed?) <==> SignFails(c, resp)
    ensures !SignFails(c, resp) ==>
      (r.outcome == Done <==> c.storeSet(StoreCall(resp, seen, Signed(c, resp), c.verify(resp))).None?)
  {
    var errs := c.verify(resp);
    if |errs| == 0 && c.sign(resp).Failure? then
      Processed(Failed(SignFailed(c.sign(resp).error)), [Verify, Sign], None)
    else
      var smr := if |errs| == 0 then Some(c.sign(resp).value) else None;
      var args := StoreCall(resp, seen, smr, errs);
      var t := (if |errs| == 0 then [Verify, Sign] else [Verify]) + [StoreSet(args)];
      assert StoreSet(args) in t;
      match c.storeSet(args)
      case Some(e) => Processed(Failed(StoreFailed(e)), t, None)
      case None =>
        match smr
        case None => Processed(Done, t, None)
        case Some(root) =>
          Processed(Done, t + [WitnessRead(root.mapId, resp.epoch)], CrossCheck(root, resp.epoch, witnessHash))
  }
}
