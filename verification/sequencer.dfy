/** One epoch-creation cycle of the sequencer (`CreateEpoch`), the read of
    pending mutations (`newMutations`) and the start-up bootstrap
    (`Initialize`). The Trillian map and log, the mutation queue and its
    transactions are abstract collaborators whose answers are parameters; the
    model records the trace of calls made so that the order of reads, writes,
    commits and rollbacks can be stated. */
module Sequencer {
  import opened Ints
  import opened Results
  import opened Types
  import Resolver

  /** A call made to a collaborator, with the arguments that matter. */
  datatype Call =
    | GetLatestSignedLogRoot
    | GetSignedMapRoot
    | NewTxn
    | ReadAll(startSequence: Uint64)
    | Rollback
    | Commit
    | GetLeaves(indexes: seq<seq<byte>>)
    | SetLeaves(leaves: set<MapLeaf>, highestFullyCompletedSeq: Int64)
    | QueueLeaf(root: SignedMapRoot)

  /** Why a cycle was aborted; `cause` is the collaborator's own error. */
  datatype CycleError =
    | LogRootFailed(cause: string)
    | MapRootFailed(cause: string)
    | TxnFailed(cause: string)
    | ReadAllFailed(startSequence: Int64, cause: string)
    | CommitFailed(cause: string)
    | GetLeavesFailed(cause: string)
    | SetLeavesFailed(cause: string)
    | QueueLeafFailed(cause: string)

  /** A batch read from the mutation queue: the mutations and the highest
      sequence number the read observed. */
  datatype Batch = Batch(maxSequence: Uint64, mutations: seq<Mutation>)

  /** The answers of the collaborators for one cycle. `queueLeaf` stands for
      `queueLogLeaf` as a whole (serialisation, identity hash and the
      `QueueLeaf` RPC); the rollback outcome is only logged and not modelled. */
  datatype Backends = Backends(
    logRoot: Result<SignedLogRoot, string>,
    mapRoot: Result<SignedMapRoot, string>,
    newTxn: Option<string>,
    readAll: Uint64 -> Result<Batch, string>,
    commit: Option<string>,
    getLeaves: seq<seq<byte>> -> Result<seq<MapLeaf>, string>,
    setLeaves: (set<MapLeaf>, Int64) -> Result<SignedMapRoot, string>,
    queueLeaf: SignedMapRoot -> Option<string>,
    policy: Resolver.Policy)

  /** An outcome together with the calls made to reach it. */
  datatype Run<T> = Run(result: Result<T, CycleError>, trace: seq<Call>)

  predicate IsReadAll(c: Call) { c.ReadAll? }
  predicate IsWrite(c: Call) { c.GetLeaves? || c.SetLeaves? || c.QueueLeaf? }

  /** A transaction trace: open, read, then exactly one of rollback (after a
      failed read) or commit, and never a write to the map or the log. */
  predicate TxnShape(t: seq<Call>, start: Uint64)
  {
    || t == [NewTxn]
    || t == [NewTxn, ReadAll(start), Rollback]
    || t == [NewTxn, ReadAll(start), Commit]
  }

  /** `newMutations`: reads all mutations after `startSequence` inside a
      transaction. A failed read is rolled back and reported; a failed commit
      is reported; the mutations and the converted maximum sequence number are
      returned only after a successful commit. */
  function NewMutations(b: Backends, startSequence: Int64): (r: Run<(seq<Mutation>, Int64)>)
    ensures TxnShape(r.trace, Int64ToUint64(startSequence))
    ensures Rollback in r.trace ==> r.result.Failure? && r.result.error.ReadAllFailed? && Commit !in r.trace
    ensures r.result.Success? <==> r.trace == [NewTxn, ReadAll(Int64ToUint64(startSequence)), Commit] && b.commit.None?
    ensures r.result.Success? ==>
      var batch := b.readAll(Int64ToUint64(startSequence));
      batch.Success? && r.result.value == (batch.value.mutations, Uint64ToInt64(batch.value.maxSequence))
    ensures b.newTxn.Some? ==> r == Run(Failure(TxnFailed(b.newTxn.value)), [NewTxn])
    ensures b.newTxn.None? && b.readAll(Int64ToUint64(startSequence)).Failure? ==>
      && r.trace == [NewTxn, ReadAll(Int64ToUint64(startSequence)), Rollback]
      && r.result == Failure(ReadAllFailed(startSequence, b.readAll(Int64ToUint64(startSequence)).error))
    ensures b.newTxn.None? && b.readAll(Int64ToUint64(startSequence)).Success? && b.commit.Some? ==>
      && r.trace == [NewTxn, ReadAll(Int64ToUint64(startSequence)), Commit]
      && r.result == Failure(CommitFailed(b.commit.value))
  {
    match b.newTxn
    case Some(e) => Run(Failure(TxnFailed(e)), [NewTxn])
    case None =>
      var start := Int64ToUint64(startSequence);
      match b.readAll(start)
      case Failure(e) => Run(Failure(ReadAllFailed(startSequence, e)), [NewTxn, ReadAll(start), Rollback])
      case Success(batch) =>
        match b.commit
        case Some(e) => Run(Failure(CommitFailed(e)), [NewTxn, ReadAll(start), Commit])
        case None => Run(Success((batch.mutations, Uint64ToInt64(batch.maxSequence))), [NewTxn, ReadAll(start), Commit])
  }

  /** The raw keys of a batch, in batch order (the `indexes` of `GetLeaves`). */
  function Indexes(ms: seq<Mutation>): (ix: seq<seq<byte>>)
    ensures |ix| == |ms| && forall i :: 0 <= i < |ms| ==> ix[i] == ms[i].key
  {
    seq(|ms|, i requires 0 <= i < |ms| => ms[i].key)
  }

  /** The leaves the cycle writes: the conflict resolver's output for the
      batch against the leaves returned by the map. */
  function NewLeaves(policy: Resolver.Policy, mutations: seq<Mutation>, leaves: seq<MapLeaf>): set<MapLeaf>
  {
    Resolver.Resolve(policy, Resolver.LeafMap(leaves), mutations).Values
  }

  /** `CreateEpoch`: reads the map head, reads the pending mutations after
      its high-water mark, skips the cycle when there is nothing to do and it
      is not forced, and otherwise reads the touched leaves, writes the
      resolved leaves tagged with the new high-water mark and queues the new
      map head in the log. Any collaborator failure aborts the cycle. */
  function CreateEpoch(b: Backends, force: bool): (r: Run<()>)
    ensures |r.trace| > 0 && r.trace[0] == GetSignedMapRoot
    ensures r.result.Success? ==>
      || (!force && r.trace[|r.trace| - 1] == Commit)
      || r.trace[|r.trace| - 1].QueueLeaf?
    ensures Rollback in r.trace ==> r.result.Failure? && Commit !in r.trace
  {
    match b.mapRoot
    case Failure(e) => Run(Failure(MapRootFailed(e)), [GetSignedMapRoot])
    case Success(root) =>
      var nm := NewMutations(b, root.highestFullyCompletedSeq);
      var t1 := [GetSignedMapRoot] + nm.trace;
      match nm.result
      case Failure(e) => Run(Failure(e), t1)
      case Success(pending) =>
        var (mutations, sequence) := pending;
        if |mutations| == 0 && !force then Run(Success(()), t1)
        else
          var indexes := Indexes(mutations);
          var t2 := t1 + [GetLeaves(indexes)];
          match b.getLeaves(indexes)
          case Failure(e) => Run(Failure(GetLeavesFailed(e)), t2)
          case Success(leaves) =>
            var newLeaves := NewLeaves(b.policy, mutations, leaves);
            var t3 := t2 + [SetLeaves(newLeaves, sequence)];
            match b.setLeaves(newLeaves, sequence)
            case Failure(e) => Run(Failure(SetLeavesFailed(e)), t3)
            case Success(newRoot) =>
              var t4 := t3 + [QueueLeaf(newRoot)];
              match b.queueLeaf(newRoot)
              case Some(e) => Run(Failure(QueueLeafFailed(e)), t4)
              case None => Run(Success(()), t4)
  }

  /** The start sequence the cycle reads from: the map head's high-water mark. */
  function StartOf(root: SignedMapRoot): Uint64
  {
    Int64ToUint64(root.highestFullyCompletedSeq)
  }

  /** The committed read every write of a cycle follows. */
  function CommittedRead(root: SignedMapRoot): seq<Call>
  {
    [GetSignedMapRoot, NewTxn, ReadAll(StartOf(root)), Commit]
  }

  /** Map and log writes happen only after the queue transaction committed:
      every `GetLeaves`, `SetLeaves` or `QueueLeaf` of a cycle is preceded by
      exactly the head read, the transaction and the read from the map
      head's high-water mark, and no write follows a rollback. */
  lemma WritesFollowCommittedRead(b: Backends, force: bool)
    ensures var t := CreateEpoch(b, force).trace;
      forall i :: 0 <= i < |t| && IsWrite(t[i]) ==>
        b.mapRoot.Success? && i >= 4 && t[..4] == CommittedRead(b.mapRoot.value) && Rollback !in t
  {
  }

  /** A cycle that finds no pending mutations and is not forced succeeds
      without reading or writing any leaf and without touching the log. */
  lemma IdleCycleSkipsWrites(b: Backends)
    requires b.mapRoot.Success? && b.newTxn.None? && b.commit.None?
    requires b.readAll(StartOf(b.mapRoot.value)).Success?
    requires |b.readAll(StartOf(b.mapRoot.value)).value.mutations| == 0
    ensures CreateEpoch(b, false) == Run(Success(()), CommittedRead(b.mapRoot.value))
    ensures forall c :: c in CreateEpoch(b, false).trace ==> !IsWrite(c)
  {
  }

  /** A forced cycle with no pending mutations still writes the map, with no
      leaves and tagged with the sequence number the read returned, and
      anchors the resulting head. */
  lemma ForcedIdleCycleWritesEmptyRevision(b: Backends)
    requires b.mapRoot.Success? && b.newTxn.None? && b.commit.None?
    requires b.readAll(StartOf(b.mapRoot.value)).Success?
    requires |b.readAll(StartOf(b.mapRoot.value)).value.mutations| == 0
    requires b.getLeaves([]).Success?
    ensures var seqNo := Uint64ToInt64(b.readAll(StartOf(b.mapRoot.value)).value.maxSequence);
      SetLeaves({}, seqNo) in CreateEpoch(b, true).trace
  {
    var ms := b.readAll(StartOf(b.mapRoot.value)).value.mutations;
    assert Indexes(ms) == [];
    assert Resolver.Resolve(b.policy, Resolver.LeafMap(b.getLeaves([]).value), ms) == map[];
  }

  /** The map write of a cycle carries the resolver's output for the batch
      read from the map head's high-water mark, against the leaves the map
      returned for the batch's keys, and is tagged with the maximum sequence
      number of that read. */
  lemma SetLeavesCarriesBatch(b: Backends, force: bool, i: nat)
    requires var t := CreateEpoch(b, force).trace; i < |t| && t[i].SetLeaves?
    ensures b.mapRoot.Success? && b.readAll(StartOf(b.mapRoot.value)).Success?
    ensures var batch := b.readAll(StartOf(b.mapRoot.value)).value;
      && b.getLeaves(Indexes(batch.mutations)).Success?
      && CreateEpoch(b, force).trace[i]
         == SetLeaves(NewLeaves(b.policy, batch.mutations, b.getLeaves(Indexes(batch.mutations)).value),
                      Uint64ToInt64(batch.maxSequence))
  {
  }

  /** The root queued in the log is exactly the one the map write returned. */
  lemma AnchorsWrittenRoot(b: Backends, force: bool, root: SignedMapRoot)
    requires QueueLeaf(root) in CreateEpoch(b, force).trace
    ensures exists leaves, seqNo :: SetLeaves(leaves, seqNo) in CreateEpoch(b, force).trace
                                  && b.setLeaves(leaves, seqNo) == Success(root)
  {
    var t := CreateEpoch(b, force).trace;
    assert t[|t| - 2].SetLeaves?;
  }

  /** If the queue reports a maximum no smaller than the start it was asked
      for (and representable as `int64`), the new high-water mark does not
      go below the previous one. */
  lemma HighWaterMarkMonotonic(b: Backends, force: bool, i: nat)
    requires b.mapRoot.Success? && b.mapRoot.value.highestFullyCompletedSeq >= 0
    requires var batch := b.readAll(StartOf(b.mapRoot.value));
      batch.Success? ==> StartOf(b.mapRoot.value) <= batch.value.maxSequence <= MaxInt64
    requires var t := CreateEpoch(b, force).trace; i < |t| && t[i].SetLeaves?
    ensures CreateEpoch(b, force).trace[i].highestFullyCompletedSeq >= b.mapRoot.value.highestFullyCompletedSeq
  {
    SetLeavesCarriesBatch(b, force, i);
  }

  /** A cycle succeeds exactly when every collaborator it consults succeeds,
      the last one being the commit for a skipped cycle and the log for an
      anchored one. */
  lemma CycleSucceedsIff(b: Backends, force: bool)
    ensures CreateEpoch(b, force).result.Success? <==>
      && b.mapRoot.Success? && b.newTxn.None? && b.commit.None?
      && b.readAll(StartOf(b.mapRoot.value)).Success?
      && var ms := b.readAll(StartOf(b.mapRoot.value)).value.mutations;
         var seqNo := Uint64ToInt64(b.readAll(StartOf(b.mapRoot.value)).value.maxSequence);
         || (|ms| == 0 && !force)
         || (&& b.getLeaves(Indexes(ms)).Success?
             && var newLeaves := NewLeaves(b.policy, ms, b.getLeaves(Indexes(ms)).value);
                b.setLeaves(newLeaves, seqNo).Success? && b.queueLeaf(b.setLeaves(newLeaves, seqNo).value).None?)
  {
  }

  /** `Initialize`: when the log is empty and the map is at revision 0,
      queues the genesis map head in the log so that log size and map
      revision advance in lockstep. */
  function Initialize(b: Backends): (r: Run<()>)
    ensures (exists root :: QueueLeaf(root) in r.trace) <==>
      && b.logRoot.Success? && b.mapRoot.Success?
      && b.logRoot.value.treeSize == 0 && b.mapRoot.value.mapRevision == 0
    ensures forall c :: c in r.trace ==> c.QueueLeaf? ==> c.root == b.mapRoot.value
    ensures r.result.Success? <==>
      && b.logRoot.Success? && b.mapRoot.Success?
      && (b.logRoot.value.treeSize == 0 && b.mapRoot.value.mapRevision == 0 ==> b.queueLeaf(b.mapRoot.value).None?)
  {
    match b.logRoot
    case Failure(e) => Run(Failure(LogRootFailed(e)), [GetLatestSignedLogRoot])
    case Success(logRoot) =>
      match b.mapRoot
      case Failure(e) => Run(Failure(MapRootFailed(e)), [GetLatestSignedLogRoot, GetSignedMapRoot])
      case Success(mapRoot) =>
        if logRoot.treeSize == 0 && mapRoot.mapRevision == 0 then
          var t := [GetLatestSignedLogRoot, GetSignedMapRoot, QueueLeaf(mapRoot)];
          match b.queueLeaf(mapRoot)
          case Some(e) => Run(Failure(QueueLeafFailed(e)), t)
          case None => Run(Success(()), t)
        else Run(Success(()), [GetLatestSignedLogRoot, GetSignedMapRoot])
  }
}
