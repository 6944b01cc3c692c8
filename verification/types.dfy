/** The records the sequencer and the monitor exchange with the Trillian map,
    the Trillian log and the key-transparency API. Fields the modelled code
    never inspects are kept as opaque byte strings. */
module Types {
  import opened Ints

  /** A map head signed by the map backend (`trillian.SignedMapRoot`), with
      the mapper metadata field `HighestFullyCompletedSeq` (the high-water mark). */
  datatype SignedMapRoot = SignedMapRoot(
    mapId: Int64,
    mapRevision: Int64,
    rootHash: seq<byte>,
    timestampNanos: Int64,
    highestFullyCompletedSeq: Int64,
    signature: seq<byte>)

  /** The log head the sequencer reads at start-up; only its size matters. */
  datatype SignedLogRoot = SignedLogRoot(treeSize: Int64)

  /** One map leaf (`trillian.MapLeaf`): a raw, variable-length index and its value. */
  datatype MapLeaf = MapLeaf(index: seq<byte>, leafValue: seq<byte>)

  /** A queued signed key/value update (`SignedKV`); `key` is `KeyValue.Key`
      and everything else about the mutation is opaque to the sequencer. */
  datatype Mutation = Mutation(key: seq<byte>, payload: seq<byte>)

  /** A decoded leaf value (`tpb.Entry`), opaque to the sequencer. */
  datatype Entry = Entry(content: seq<byte>)

  /** The mutations API answer a monitor checks (`GetMutationsResponse`). */
  datatype MutationsResponse = MutationsResponse(epoch: Int64, smr: SignedMapRoot, body: seq<byte>)
}
