/** Batch conflict resolution of the sequencer (`toArray`, `applyMutations`):
    a pure function from an ordered batch of mutations and the current leaves
    to the deduplicated set of new leaves, one per canonical key. */
module Resolver {
  import opened Ints
  import opened Results
  import opened Types

  /** Width of the fixed-size array the leaves are deduplicated on. */
  const KeyWidth: nat := 32

  /** A canonical key: exactly `KeyWidth` bytes. */
  type Key = k: seq<byte> | |k| == KeyWidth witness seq(32, _ => 0)

  /** The mutation policy the sequencer is configured with: decoding of a
      stored leaf value (`entry.FromLeafValue`, which may yield a nil entry
      without an error) and the validating update (`mutator.Mutate`). Both
      are foreign code and may fail. */
  datatype Policy = Policy(
    decode: seq<byte> -> Result<Option<Entry>, string>,
    mutate: (Option<Entry>, Mutation) -> Result<seq<byte>, string>)

  /** Byte `i` of `b` seen as an infinite zero-extended string. */
  function ByteAt(b: seq<byte>, i: nat): byte
  {
    if i < |b| then b[i] else 0
  }

  /** `toArray`: the first `KeyWidth` bytes of `b`, zero padded. */
  function ToArray(b: seq<byte>): Key
  {
    if |b| >= KeyWidth then b[..KeyWidth] else b + seq(KeyWidth - |b|, _ => 0)
  }

  /** The canonical key holds the first `min(|b|, KeyWidth)` bytes of `b` and
      zeros after them. */
  lemma ToArrayContents(b: seq<byte>)
    ensures |ToArray(b)| == KeyWidth
    ensures forall i :: 0 <= i < |b| && i < KeyWidth ==> ToArray(b)[i] == b[i]
    ensures forall i :: |b| <= i < KeyWidth ==> ToArray(b)[i] == 0
  {
  }

  /** Two raw keys share a canonical key exactly when their zero-extensions
      agree on the first `KeyWidth` bytes; this is where distinct keys collide. */
  lemma ToArrayCollision(a: seq<byte>, b: seq<byte>)
    ensures ToArray(a) == ToArray(b) <==> forall i :: 0 <= i < KeyWidth ==> ByteAt(a, i) == ByteAt(b, i)
  {
    ToArrayContents(a);
    ToArrayContents(b);
    var ka, kb := ToArray(a), ToArray(b);
    assert forall i :: 0 <= i < KeyWidth ==> ka[i] == ByteAt(a, i) && kb[i] == ByteAt(b, i);
  }

  /** Keys that differ only beyond the first `KeyWidth` bytes, or only by
      trailing zeros, collide. */
  lemma ToArrayIgnoresTailAndTrailingZeros(b: seq<byte>, tail: seq<byte>, zeros: nat)
    ensures |b| >= KeyWidth ==> ToArray(b + tail) == ToArray(b)
    ensures ToArray(b + seq(zeros, _ => 0)) == ToArray(b)
  {
    ToArrayCollision(b + tail, b);
    ToArrayCollision(b + seq(zeros, _ => 0), b);
    assert forall i :: 0 <= i < KeyWidth ==> ByteAt(b + seq(zeros, _ => 0), i) == ByteAt(b, i);
    if |b| >= KeyWidth {
      assert forall i :: 0 <= i < KeyWidth ==> ByteAt(b + tail, i) == ByteAt(b, i);
    }
  }

  /** A canonical key is its own canonical form. */
  lemma ToArrayIdempotent(b: seq<byte>)
    ensures ToArray(ToArray(b)) == ToArray(b)
  {
  }

  /** The pre-batch leaf map: leaves indexed by canonical key, where a later
      leaf with the same canonical key replaces an earlier one. */
  function LeafMap(leaves: seq<MapLeaf>): map<Key, MapLeaf>
  {
    if |leaves| == 0 then map[]
    else LeafMap(leaves[..|leaves| - 1])[ToArray(leaves[|leaves| - 1].index) := leaves[|leaves| - 1]]
  }

  /** Position of the last leaf whose canonical index is `k`, or -1. */
  function LastLeaf(leaves: seq<MapLeaf>, k: Key): (i: int)
    ensures -1 <= i < |leaves|
    ensures i >= 0 ==> ToArray(leaves[i].index) == k
    ensures forall j :: i < j < |leaves| ==> ToArray(leaves[j].index) != k
  {
    if |leaves| == 0 then -1
    else if ToArray(leaves[|leaves| - 1].index) == k then |leaves| - 1
    else LastLeaf(leaves[..|leaves| - 1], k)
  }

  /** A canonical key is in the leaf map iff some leaf has it, and then it
      maps to the last such leaf. */
  lemma {:induction false} LeafMapSpec(leaves: seq<MapLeaf>, k: Key)
    ensures k in LeafMap(leaves) <==> exists i :: 0 <= i < |leaves| && ToArray(leaves[i].index) == k
    ensures k in LeafMap(leaves) ==> LeafMap(leaves)[k] == leaves[LastLeaf(leaves, k)]
  {
    if |leaves| > 0 {
      var n := |leaves| - 1;
      LeafMapSpec(leaves[..n], k);
      if ToArray(leaves[n].index) != k {
        assert forall i :: 0 <= i < n ==> leaves[..n][i] == leaves[i];
      }
    }
  }

  /** The old value a mutation is validated against: the decoded pre-batch
      leaf for its canonical key (itself possibly nil), `None` (Go's nil)
      when there is no such leaf, or a failure when the stored value does not
      decode. */
  function OldValue(policy: Policy, leafMap: map<Key, MapLeaf>, m: Mutation): Result<Option<Entry>, string>
  {
    var k := ToArray(m.key);
    if k in leafMap then
      policy.decode(leafMap[k].leafValue)
    else Success(None)
  }

  /** Processing one mutation on its own: the new leaf it yields, or `None`
      when it is skipped (undecodable old value or rejected by `Mutate`).
      The new leaf's index is the mutation's raw key. */
  function Step(policy: Policy, leafMap: map<Key, MapLeaf>, m: Mutation): Option<MapLeaf>
  {
    match OldValue(policy, leafMap, m)
    case Failure(_) => None
    case Success(prior) =>
      match policy.mutate(prior, m)
      case Failure(_) => None
      case Success(v) => Some(MapLeaf(m.key, v))
  }

  /** `m` targets canonical key `k` and is applied successfully. */
  predicate Applies(policy: Policy, leafMap: map<Key, MapLeaf>, m: Mutation, k: Key)
  {
    ToArray(m.key) == k && Step(policy, leafMap, m).Some?
  }

  /** Position of the last mutation of `ms` that applies to `k`, or -1. */
  function LastValid(policy: Policy, leafMap: map<Key, MapLeaf>, ms: seq<Mutation>, k: Key): (i: int)
    ensures -1 <= i < |ms|
    ensures i >= 0 ==> Applies(policy, leafMap, ms[i], k)
    ensures forall j :: i < j < |ms| ==> !Applies(policy, leafMap, ms[j], k)
  {
    if |ms| == 0 then -1
    else if Applies(policy, leafMap, ms[|ms| - 1], k) then |ms| - 1
    else LastValid(policy, leafMap, ms[..|ms| - 1], k)
  }

  /** The result map of `applyMutations` after folding in the batch `ms`:
      each successfully applied mutation sets the entry of its canonical key. */
  function Resolve(policy: Policy, leafMap: map<Key, MapLeaf>, ms: seq<Mutation>): (r: map<Key, MapLeaf>)
    ensures |r| <= |ms|
  {
    if |ms| == 0 then map[]
    else
      var r0 := Resolve(policy, leafMap, ms[..|ms| - 1]);
      var m := ms[|ms| - 1];
      match Step(policy, leafMap, m)
      case None => r0
      case Some(leaf) => r0[ToArray(m.key) := leaf]
  }

  /** The fold keeps, for every key, the leaf of the last mutation on it
      that applied, and no entry when none applied. */
  lemma {:induction false} ResolveLastValid(policy: Policy, leafMap: map<Key, MapLeaf>, ms: seq<Mutation>, k: Key)
    ensures k in Resolve(policy, leafMap, ms) <==> LastValid(policy, leafMap, ms, k) >= 0
    ensures k in Resolve(policy, leafMap, ms) ==>
      Some(Resolve(policy, leafMap, ms)[k]) == Step(policy, leafMap, ms[LastValid(policy, leafMap, ms, k)])
  {
    if |ms| > 0 {
      var n := |ms| - 1;
      var prefix := ms[..n];
      ResolveLastValid(policy, leafMap, prefix, k);
      var r0 := Resolve(policy, leafMap, prefix);
      var r := Resolve(policy, leafMap, ms);
      if Applies(policy, leafMap, ms[n], k) {
        assert LastValid(policy, leafMap, ms, k) == n;
        assert r == r0[k := Step(policy, leafMap, ms[n]).value];
      } else {
        assert LastValid(policy, leafMap, ms, k) == LastValid(policy, leafMap, prefix, k);
        assert k in r <==> k in r0;
        assert k in r ==> r[k] == r0[k];
        var w := LastValid(policy, leafMap, prefix, k);
        assert w >= 0 ==> prefix[w] == ms[w];
      }
    }
  }

  /** Last valid mutation wins: a key has an entry iff one of its mutations
      applied, and the entry is the leaf produced by the last such mutation. */
  lemma ResolveSpec(policy: Policy, leafMap: map<Key, MapLeaf>, ms: seq<Mutation>, k: Key)
    ensures k in Resolve(policy, leafMap, ms) <==> exists i :: 0 <= i < |ms| && Applies(policy, leafMap, ms[i], k)
    ensures k in Resolve(policy, leafMap, ms) <==> LastValid(policy, leafMap, ms, k) >= 0
    ensures k in Resolve(policy, leafMap, ms) ==>
      Some(Resolve(policy, leafMap, ms)[k]) == Step(policy, leafMap, ms[LastValid(policy, leafMap, ms, k)])
  {
    ResolveLastValid(policy, leafMap, ms, k);
    var w := LastValid(policy, leafMap, ms, k);
    if w >= 0 {
      assert Applies(policy, leafMap, ms[w], k);
    }
  }

  /** The winning leaf of every key carries the raw key of its mutation as
      index, and that raw key canonicalises back to the map key. */
  lemma ResolvedLeafIndex(policy: Policy, leafMap: map<Key, MapLeaf>, ms: seq<Mutation>, k: Key)
    requires k in Resolve(policy, leafMap, ms)
    ensures LastValid(policy, leafMap, ms, k) >= 0
      && Resolve(policy, leafMap, ms)[k].index == ms[LastValid(policy, leafMap, ms, k)].key
    ensures ToArray(Resolve(policy, leafMap, ms)[k].index) == k
  {
    ResolveSpec(policy, leafMap, ms, k);
  }

  /** Earlier mutations of the batch never affect a later one: appending a
      mutation to any batch sets its key exactly as applying it alone to the
      pre-batch leaves would, and a skipped mutation changes nothing. */
  lemma EarlierMutationsIrrelevant(policy: Policy, leafMap: map<Key, MapLeaf>, prefix: seq<Mutation>, m: Mutation)
    ensures Step(policy, leafMap, m).None? ==> Resolve(policy, leafMap, prefix + [m]) == Resolve(policy, leafMap, prefix)
    ensures Step(policy, leafMap, m).Some? ==>
      Resolve(policy, leafMap, prefix + [m]) == Resolve(policy, leafMap, prefix)[ToArray(m.key) := Step(policy, leafMap, m).value]
    ensures Step(policy, leafMap, m).Some? ==>
      Resolve(policy, leafMap, prefix + [m])[ToArray(m.key)] == Resolve(policy, leafMap, [m])[ToArray(m.key)]
  {
    assert (prefix + [m])[..|prefix|] == prefix;
    assert [m][..0] == [];
  }

  /** Two mutations for key A followed by one for key B, all valid: the
      first mutation for A is superseded and leaves no trace. */
  lemma SupersededMutationDropped(policy: Policy, leafMap: map<Key, MapLeaf>, m1: Mutation, m2: Mutation, m3: Mutation)
    requires ToArray(m1.key) == ToArray(m2.key) != ToArray(m3.key)
    requires Step(policy, leafMap, m1).Some? && Step(policy, leafMap, m2).Some? && Step(policy, leafMap, m3).Some?
    ensures Resolve(policy, leafMap, [m1, m2, m3])
      == map[ToArray(m2.key) := Step(policy, leafMap, m2).value, ToArray(m3.key) := Step(policy, leafMap, m3).value]
  {
    assert [m1, m2, m3][..2] == [m1, m2];
    assert [m1, m2][..1] == [m1];
    assert [m1][..0] == [];
    var a, b := ToArray(m1.key), ToArray(m3.key);
    assert Resolve(policy, leafMap, [m1]) == map[a := Step(policy, leafMap, m1).value];
    assert Resolve(policy, leafMap, [m1, m2]) == map[a := Step(policy, leafMap, m2).value];
  }

  /** A rejected mutation for key C next to a valid one for key D: only D's
      leaf is produced, and the batch does not fail. */
  lemma RejectedMutationDropped(policy: Policy, leafMap: map<Key, MapLeaf>, c: Mutation, d: Mutation)
    requires Step(policy, leafMap, c).None? && Step(policy, leafMap, d).Some?
    ensures Resolve(policy, leafMap, [c, d]) == map[ToArray(d.key) := Step(policy, leafMap, d).value]
  {
    assert [c, d][..1] == [c];
    assert [c][..0] == [];
  }

  /** `applyMutations`: builds the pre-batch leaf map, then folds the batch
      into the result map in input order. Go returns the map's values in
      unspecified order, so the model returns the map itself; the Go error
      result is always nil. The result is the reference fold `Resolve` over
      the leaf map, whose meaning per key `ResolveSpec` states. */
  method ApplyMutations(policy: Policy, mutations: seq<Mutation>, leaves: seq<MapLeaf>) returns (out: map<Key, MapLeaf>)
    ensures out == Resolve(policy, LeafMap(leaves), mutations)
    ensures |out| <= |mutations|
  {
    var leafMap: map<Key, MapLeaf> := map[];
    for i := 0 to |leaves|
      invariant leafMap == LeafMap(leaves[..i])
    {
      assert leaves[..i + 1][..i] == leaves[..i];
      leafMap := leafMap[ToArray(leaves[i].index) := leaves[i]];
    }
    assert leaves[..|leaves|] == leaves;
    out := map[];
    for i := 0 to |mutations|
      invariant out == Resolve(policy, leafMap, mutations[..i])
    {
      assert mutations[..i + 1][..i] == mutations[..i];
      var m := mutations[i];
      var k := ToArray(m.key);
      var prior: Option<Entry> := None;
      var skip := false;
      if k in leafMap {
        var decoded := policy.decode(leafMap[k].leafValue);
        if decoded.Failure? {
          skip := true;
        } else {
          prior := decoded.value;
        }
      }
      if !skip {
        var newValue := policy.mutate(prior, m);
        if newValue.Success? {
          out := out[k := MapLeaf(m.key, newValue.value)];
        }
      }
    }
    assert mutations[..|mutations|] == mutations;
  }
}
