/**
 * The per-user usage ledger (SpaceCheckingKeyFilter.Usage) and the per-writer
 * Stat record, as values and as the mutable objects the filter holds.
 */
module Ledger {
  import opened MerkleBtree

  /** A public signing key's hash, the identity of a writer. */
  datatype PublicKeyHash = PublicKeyHash(hash: Multihash)

  type Username = string

  // ----- Sums over the pending map -----

  ghost function PickKey(m: map<PublicKeyHash, int>): (k: PublicKeyHash)
    requires m != map[]
    ensures k in m
  {
    var k :| k in m; k
  }

  /** The sum of all values of a map. */
  ghost function SumValues(m: map<PublicKeyHash, int>): int
    decreases |m|
  {
    if m == map[] then 0
    else
      var k := PickKey(m);
      m[k] + SumValues(m - {k})
  }

  /** Any key may be split off the sum, not only the one SumValues picks. */
  lemma {:induction false} SumValuesRemove(m: map<PublicKeyHash, int>, k: PublicKeyHash)
    requires k in m
    ensures SumValues(m) == m[k] + SumValues(m - {k})
    decreases |m|
  {
    var j := PickKey(m);
    if j != k {
      SumValuesRemove(m - {j}, k);
      SumValuesRemove(m - {k}, j);
      assert m - {j} - {k} == m - {k} - {j};
    }
  }

  lemma SumValuesUpdate(m: map<PublicKeyHash, int>, k: PublicKeyHash, v: int)
    ensures SumValues(m[k := v]) == SumValues(m - {k}) + v
  {
    SumValuesRemove(m[k := v], k);
    assert m[k := v] - {k} == m - {k};
  }

  // ----- Usage -----

  /** Confirmed usage plus the in-flight reservations, keyed by writer. */
  datatype UsageValue = UsageValue(usage: int, pending: map<PublicKeyHash, int>) {

    /** usage(): confirmed usage plus the sum of all pending reservations. */
    ghost function Effective(): int {
      usage + SumValues(pending)
    }

    /** getPending: the writer's reservation, 0 when it has none. */
    function GetPending(writer: PublicKeyHash): (r: int)
      ensures writer in pending ==> r == pending[writer]
      ensures writer !in pending ==> r == 0
    {
      if writer in pending then pending[writer] else 0
    }

    /** addPending: adds to the writer's reservation. */
    function AddPending(writer: PublicKeyHash, usageDelta: int): (u: UsageValue)
      ensures u.usage == usage
      ensures u.pending.Keys == pending.Keys + {writer}
      ensures u.GetPending(writer) == GetPending(writer) + usageDelta
      ensures forall w :: w in pending && w != writer ==> u.pending[w] == pending[w]
    {
      UsageValue(usage, pending[writer := GetPending(writer) + usageDelta])
    }

    /** clearPending: drops the writer's reservation and nothing else. */
    function ClearPending(writer: PublicKeyHash): (u: UsageValue)
      ensures u.usage == usage
      ensures u.pending.Keys == pending.Keys - {writer}
      ensures forall w :: w in u.pending ==> u.pending[w] == pending[w]
    {
      UsageValue(usage, pending - {writer})
    }

    /** confirmUsage: drops the writer's reservation and adds the confirmed change. */
    function ConfirmUsage(writer: PublicKeyHash, usageDelta: int): (u: UsageValue)
      ensures u.usage == usage + usageDelta
      ensures u.pending == ClearPending(writer).pending
    {
      UsageValue(usage + usageDelta, pending - {writer})
    }
  }

  /** usage() counts each writer's reservation exactly once, a writer without one adding nothing. */
  lemma EffectiveCountsEachWriterOnce(u: UsageValue, writer: PublicKeyHash)
    ensures u.Effective() == u.usage + u.GetPending(writer) + SumValues(u.pending - {writer})
  {
    if writer in u.pending {
      SumValuesRemove(u.pending, writer);
    } else {
      assert u.pending - {writer} == u.pending;
    }
  }

  /** A reservation raises effective usage by exactly its size. */
  lemma AddPendingEffect(u: UsageValue, writer: PublicKeyHash, usageDelta: int)
    ensures u.AddPending(writer, usageDelta).Effective() == u.Effective() + usageDelta
  {
    SumValuesUpdate(u.pending, writer, u.GetPending(writer) + usageDelta);
    if writer in u.pending {
      SumValuesRemove(u.pending, writer);
    } else {
      assert u.pending - {writer} == u.pending;
    }
  }

  /** Clearing a reservation lowers effective usage by exactly that reservation. */
  lemma ClearPendingEffect(u: UsageValue, writer: PublicKeyHash)
    ensures u.ClearPending(writer).Effective() == u.Effective() - u.GetPending(writer)
  {
    if writer in u.pending {
      SumValuesRemove(u.pending, writer);
    } else {
      assert u.pending - {writer} == u.pending;
    }
  }

  /** Confirmation replaces the writer's reservation by the confirmed change. */
  lemma ConfirmUsageEffect(u: UsageValue, writer: PublicKeyHash, usageDelta: int)
    ensures u.ConfirmUsage(writer, usageDelta).Effective() == u.Effective() - u.GetPending(writer) + usageDelta
  {
    ClearPendingEffect(u, writer);
  }

  /** SpaceCheckingKeyFilter.Usage: one user's ledger, updated in place. */
  class Usage {
    var usage: int
    var pending: map<PublicKeyHash, int>

    function Value(): UsageValue
      reads this
    {
      UsageValue(usage, pending)
    }

    constructor (usage: int)
      ensures Value() == UsageValue(usage, map[])
    {
      this.usage := usage;
      pending := map[];
    }

    method ConfirmUsage(writer: PublicKeyHash, usageDelta: int)
      modifies this
      ensures Value() == old(Value()).ConfirmUsage(writer, usageDelta)
      ensures Value().Effective() == old(Value().Effective() - Value().GetPending(writer)) + usageDelta
    {
      pending := pending - {writer};
      usage := usage + usageDelta;
      ConfirmUsageEffect(old(Value()), writer, usageDelta);
    }

    method AddPending(writer: PublicKeyHash, usageDelta: int)
      modifies this
      ensures Value() == old(Value()).AddPending(writer, usageDelta)
      ensures Value().Effective() == old(Value().Effective()) + usageDelta
    {
      pending := pending[writer := (if writer in pending then pending[writer] else 0) + usageDelta];
      AddPendingEffect(old(Value()), writer, usageDelta);
    }

    method ClearPending(writer: PublicKeyHash)
      modifies this
      ensures Value() == old(Value()).ClearPending(writer)
      ensures Value().Effective() == old(Value().Effective() - Value().GetPending(writer))
    {
      pending := pending - {writer};
      ClearPendingEffect(old(Value()), writer);
    }

    method GetPending(writer: PublicKeyHash) returns (r: int)
      ensures r == Value().GetPending(writer)
    {
      r := if writer in pending then pending[writer] else 0;
    }

    /** usage(): confirmed usage plus every pending reservation. */
    method EffectiveUsage() returns (total: int)
      ensures total == Value().Effective()
    {
      var sum := SumPending(pending);
      total := usage + sum;
    }
  }

  /** The stream sum of usage(): the pending reservations added up one writer at a time. */
  method SumPending(pending: map<PublicKeyHash, int>) returns (sum: int)
    ensures sum == SumValues(pending)
  {
    var rest := pending;
    sum := 0;
    while rest != map[]
      invariant sum + SumValues(rest) == SumValues(pending)
      decreases |rest|
    {
      var w :| w in rest;
      SumValuesRemove(rest, w);
      sum := sum + rest[w];
      rest := rest - {w};
    }
  }

  // ----- Stat -----

  /** What the filter knows of one writer: its owner, root, directly retained size and owned keys. */
  datatype StatValue = StatValue(
    owner: Username,
    target: MaybeMultihash,
    directRetainedStorage: int,
    ownedKeys: set<PublicKeyHash>)
  {
    /** Stat.update: a new root, owned keys and retained size under the same owner. */
    function Update(target: MaybeMultihash, ownedKeys: set<PublicKeyHash>, retainedStorage: int): (st: StatValue)
      ensures st.owner == owner && st.target == target
      ensures st.ownedKeys == ownedKeys && st.directRetainedStorage == retainedStorage
    {
      StatValue(owner, target, retainedStorage, ownedKeys)
    }
  }

  /** The state of a writer whose root is absent: no root, nothing retained, no owned keys. */
  function ZeroStat(owner: Username): (st: StatValue)
    ensures st.owner == owner && !st.target.IsPresent()
    ensures st.directRetainedStorage == 0 && st.ownedKeys == {}
  {
    StatValue(owner, Empty(), 0, {})
  }

  /** SpaceCheckingKeyFilter.Stat: the owner is fixed, the rest is replaced by update. */
  class Stat {
    const owner: Username
    var target: MaybeMultihash
    var directRetainedStorage: int
    var ownedKeys: set<PublicKeyHash>

    function Value(): StatValue
      reads this
    {
      StatValue(owner, target, directRetainedStorage, ownedKeys)
    }

    constructor (owner: Username, target: MaybeMultihash, directRetainedStorage: int, ownedKeys: set<PublicKeyHash>)
      ensures Value() == StatValue(owner, target, directRetainedStorage, ownedKeys)
    {
      this.owner := owner;
      this.target := target;
      this.directRetainedStorage := directRetainedStorage;
      this.ownedKeys := ownedKeys;
    }

    method Update(target: MaybeMultihash, ownedKeys: set<PublicKeyHash>, retainedStorage: int)
      modifies this
      ensures Value() == old(Value()).Update(target, ownedKeys, retainedStorage)
    {
      this.target := target;
      this.ownedKeys := ownedKeys;
      this.directRetainedStorage := retainedStorage;
    }
  }
}
