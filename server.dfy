/**
 * SpaceCheckingKeyFilter: the server-side view of every writer's root and the
 * per-user usage ledger, updated as pointer and registration events arrive,
 * and consulted by allowWrite before a write is accepted.
 *
 * The filter's two maps hold the Stat and Usage values (Ledger.StatValue,
 * Ledger.UsageValue); every in-place update of a Stat or Usage object in the
 * source is the corresponding value update of the map entry here.
 */
module Server {
  import opened Wrappers
  import opened MerkleBtree
  import Storage
  import opened Ledger
  import opened FilterSpec
  import opened FilterProperties

  class SpaceCheckingKeyFilter {
    /** The block store and the WriterData under each root; both are content-addressed and never change. */
    const dht: Storage.BlockStore
    const ownedKeys: (PublicKeyHash, MaybeMultihash) -> set<PublicKeyHash>
    const keyRank: PublicKeyHash -> nat
    var currentView: map<PublicKeyHash, StatValue>
    var usage: map<Username, UsageValue>

    function State(): FilterState
      reads this
    {
      FilterState(currentView, usage)
    }

    /** What a call sees: the fixed store and owned keys, and the pointer targets read during that call. */
    function Env(pointers: PublicKeyHash -> MaybeMultihash): Environment {
      Environment(dht, pointers, ownedKeys, keyRank)
    }

    /** Owned keys are acyclic in the store, and so are the ones the filter records. */
    ghost predicate Valid()
      reads this
    {
      Storage.Acyclic(dht) && KeysRanked(ownedKeys, keyRank) && RanksBelow(keyRank, currentView)
    }

    /** A filter with nothing observed yet; the persisted usages init() reads are not part of this model. */
    constructor (dht: Storage.BlockStore, ownedKeys: (PublicKeyHash, MaybeMultihash) -> set<PublicKeyHash>, keyRank: PublicKeyHash -> nat)
      requires Storage.Acyclic(dht) && KeysRanked(ownedKeys, keyRank)
      ensures Valid() && this.dht == dht && this.ownedKeys == ownedKeys && this.keyRank == keyRank
      ensures State() == FilterState(map[], map[])
    {
      this.dht := dht;
      this.ownedKeys := ownedKeys;
      this.keyRank := keyRank;
      currentView := map[];
      usage := map[];
    }

    /**
     * processRemovedOwnedKeys: retract every removed key that still has a
     * pointer target; a key without a Stat is skipped (the source logs the
     * exception and goes on). Each key's target is read from pointers.
     */
    method ProcessRemovedOwnedKeys(pointers: PublicKeyHash -> MaybeMultihash, removed: set<PublicKeyHash>, ghost bound: nat)
      requires Valid()
      requires forall r :: r in removed ==> keyRank(r) < bound
      modifies this
      ensures Valid()
      ensures State() == old(State()).(view := Zero(old(currentView), CascadeSet(Env(pointers), old(currentView).Keys, removed, bound)))
      decreases bound, 0
    {
      var env := Env(pointers);
      CascadeSetEmpty(env, currentView.Keys, bound);
      ZeroNothing(currentView);
      var todo := removed;
      while todo != {}
        invariant todo <= removed
        invariant Valid()
        invariant usage == old(usage)
        invariant currentView == Zero(old(currentView), CascadeSet(env, old(currentView).Keys, removed - todo, bound))
        decreases todo
      {
        var ownedKey :| ownedKey in todo;
        var currentTarget := pointers(ownedKey);
        RetractStep(env, old(currentView), State(), removed - todo, ownedKey, bound);
        var outcome := ProcessMutablePointerEvent(pointers, ownedKey, currentTarget, Empty());
        assert (removed - todo) + {ownedKey} == removed - (todo - {ownedKey});
        todo := todo - {ownedKey};
      }
      assert removed - todo == removed;
    }

    /**
     * The computeIfAbsent loop of processMutablePointerEvent: an empty Stat
     * under the writer's owner for each owned key not seen before.
     */
    method ObserveOwnedKeys(keys: set<PublicKeyHash>, owner: Username)
      requires Valid()
      modifies this
      ensures Valid()
      ensures State() == old(State()).(view := WithStatsFor(old(currentView), keys, owner))
    {
      var todo := keys;
      while todo != {}
        invariant todo <= keys
        invariant Valid()
        invariant usage == old(usage)
        invariant currentView == WithStatsFor(old(currentView), keys - todo, owner)
        decreases todo
      {
        var owned :| owned in todo;
        WithStatsForAdd(old(currentView), keys - todo, owned, owner);
        if owned !in currentView {
          InsertKeepsRanks(keyRank, currentView, owned, ZeroStat(owner));
          currentView := currentView[owned := ZeroStat(owner)];
        }
        assert (keys - todo) + {owned} == keys - (todo - {owned});
        todo := todo - {owned};
      }
      assert keys - todo == keys;
    }

    /**
     * The update branch of processMutablePointerEvent: diff the DAG, observe
     * the new owned keys, confirm the diff into the owner's ledger, retract the
     * children no longer owned and commit. Without a ledger for the owner the
     * update stops after observing (the source's NullPointerException, caught
     * and logged).
     */
    method UpdatePointer(pointers: PublicKeyHash -> MaybeMultihash, writer: PublicKeyHash, newRoot: Multihash) returns (r: Outcome<FilterError>)
      requires Valid() && writer in currentView
      modifies this
      ensures Valid()
      ensures State() == PointerUpdate(Env(pointers), old(State()), writer, newRoot)
      ensures r == if old(currentView)[writer].owner in old(usage) then Pass else Fail(NoUsage(old(currentView)[writer].owner))
      decreases keyRank(writer), 1
    {
      var env := Env(pointers);
      assert WellFormed(env);
      ghost var start := State();
      var current := currentView[writer];
      var changeInStorage := Storage.ChangeInContainedSize(env.dht, current.target, newRoot);
      var updatedOwned := env.ownedKeys(writer, Of(newRoot));
      ObserveOwnedKeys(updatedOwned, current.owner);
      ghost var observed := currentView;
      if current.owner !in usage {
        return Fail(NoUsage(current.owner));
      }
      PointerUpdateLedgerStep(env, start, writer, newRoot);
      PointerUpdateViewStep(env, start, writer, newRoot);
      usage := usage[current.owner := usage[current.owner].ConfirmUsage(writer, changeInStorage)];

      var removedChildren := current.ownedKeys - updatedOwned;
      ProcessRemovedOwnedKeys(pointers, removedChildren, env.keyRank(writer));
      CascadeSetBelow(env, observed.Keys, removedChildren, env.keyRank(writer));
      var latest := currentView[writer];
      assert latest == current;
      currentView := currentView[writer := latest.Update(Of(newRoot), updatedOwned, latest.directRetainedStorage + changeInStorage)];
      assert currentView == PointerUpdate(env, start, writer, newRoot).view;
      assert usage == PointerUpdate(env, start, writer, newRoot).ledger;
      return Pass;
    }

    /**
     * processMutablePointerEvent: nothing when the roots agree, an error for an
     * unknown writer, a retraction when the new root is absent, and otherwise
     * an update.
     */
    method ProcessMutablePointerEvent(pointers: PublicKeyHash -> MaybeMultihash, writer: PublicKeyHash, existingRoot: MaybeMultihash, newRoot: MaybeMultihash)
      returns (r: Outcome<FilterError>)
      requires Valid()
      modifies this
      ensures Valid()
      ensures State() == PointerEvent(Env(pointers), old(State()), writer, existingRoot, newRoot)
      ensures r == PointerEventOutcome(old(State()), writer, existingRoot, newRoot)
      decreases keyRank(writer), 2
    {
      var env := Env(pointers);
      if existingRoot.Equals(newRoot) {
        return Pass;
      }
      if writer !in currentView {
        return Fail(UnknownWriter(writer));
      }
      var current := currentView[writer];
      if !newRoot.IsPresent() {
        currentView := currentView[writer := current.Update(Empty(), {}, 0)];
        assert currentView == Zero(old(currentView), {writer});
        InsertKeepsRanks(keyRank, old(currentView), writer, ZeroStat(current.owner));
        if existingRoot.IsPresent() {
          var updatedOwned := ownedKeys(writer, newRoot);
          ProcessRemovedOwnedKeys(pointers, updatedOwned, keyRank(writer));
          ZeroCompose(old(currentView), {writer}, CascadeSet(env, old(currentView).Keys, updatedOwned, keyRank(writer)));
          RetractionSetUnfold(env, old(currentView).Keys, writer);
        }
        return Pass;
      }

      r := UpdatePointer(pointers, writer, newRoot.hash.value);
    }

    /**
     * allowWrite: the owner's effective usage (confirmed plus every pending
     * reservation) against its quota; an admitted write is reserved for the
     * writer, a refused one drops the writer's reservation. quota is what the
     * quota supplier answers at the time of the call.
     */
    method AllowWrite(quota: Username -> int, writer: PublicKeyHash, size: int) returns (r: Outcome<FilterError>)
      requires Valid()
      modifies this
      ensures Valid()
      ensures Checked(State(), r) == WriteCheck(quota, old(State()), writer, size)
    {
      if writer !in currentView {
        return Fail(UnknownWriter(writer));
      }
      var state := currentView[writer];
      if state.owner !in usage {
        return Fail(NoUsage(state.owner));
      }
      var ledger := usage[state.owner];
      var pendingTotal := SumPending(ledger.pending);
      var spaceUsed := ledger.usage + pendingTotal;
      var ownerQuota := quota(state.owner);
      if spaceUsed > ownerQuota || ownerQuota - spaceUsed - size <= 0 {
        var pending := ledger.GetPending(writer);
        usage := usage[state.owner := ledger.ClearPending(writer)];
        return Fail(QuotaReached(ledger.usage, ownerQuota, size + pending));
      }
      usage := usage[state.owner := ledger.AddPending(writer, size)];
      return Pass;
    }

    /**
     * The synchronous part of accept(CorenodeEvent): an empty Stat for the
     * key and an empty ledger for the user, each only if absent.
     */
    method Register(username: Username, keyHash: PublicKeyHash)
      requires Valid()
      modifies this
      ensures Valid()
      ensures State() == FilterSpec.Register(old(State()), username, keyHash)
    {
      if keyHash !in currentView {
        InsertKeepsRanks(keyRank, currentView, keyHash, ZeroStat(username));
        currentView := currentView[keyHash := ZeroStat(username)];
      }
      if username !in usage {
        usage := usage[username := UsageValue(0, map[])];
      }
    }

    /**
     * processCorenodeEvent: make sure the user has a ledger and the key a Stat
     * (recording its direct owned keys), replay the key's current pointer
     * target, then do the same for every directly owned key. Afterwards every
     * key of the tree, as the pointer targets define it, has a Stat.
     */
    method ProcessCorenodeEvent(pointers: PublicKeyHash -> MaybeMultihash, username: Username, ownedKeyHash: PublicKeyHash)
      requires Valid()
      modifies this
      ensures Valid()
      ensures usage.Keys == old(usage.Keys) + {username}
      ensures old(currentView.Keys) <= currentView.Keys
      ensures TreeTracked(Env(pointers), currentView.Keys, ownedKeyHash)
      decreases keyRank(ownedKeyHash)
    {
      var env := Env(pointers);
      if username !in usage {
        usage := usage[username := UsageValue(0, map[])];
      }
      var childrenKeys := ownedKeys(ownedKeyHash, pointers(ownedKeyHash));
      if ownedKeyHash !in currentView {
        InsertKeepsRanks(keyRank, currentView, ownedKeyHash, StatValue(username, Empty(), 0, childrenKeys));
        currentView := currentView[ownedKeyHash := StatValue(username, Empty(), 0, childrenKeys)];
      }
      var current := currentView[ownedKeyHash];
      var updatedRoot := pointers(ownedKeyHash);
      PointerEventKeepsKeys(env, State(), ownedKeyHash, current.target, updatedRoot);
      var outcome := ProcessMutablePointerEvent(pointers, ownedKeyHash, current.target, updatedRoot);
      var todo := childrenKeys;
      while todo != {}
        invariant todo <= childrenKeys
        invariant Valid()
        invariant usage.Keys == old(usage.Keys) + {username}
        invariant old(currentView.Keys) + {ownedKeyHash} <= currentView.Keys
        invariant forall c :: c in childrenKeys - todo ==> TreeTracked(env, currentView.Keys, c)
        decreases todo
      {
        var childKey :| childKey in todo;
        ghost var keysBefore := currentView.Keys;
        ProcessCorenodeEvent(pointers, username, childKey);
        forall c | c in childrenKeys - todo
          ensures TreeTracked(env, currentView.Keys, c)
        {
          TreeTrackedGrows(env, keysBefore, currentView.Keys, c);
        }
        todo := todo - {childKey};
      }
      assert childrenKeys - todo == childrenKeys;
      TreeTrackedFromChildren(env, currentView.Keys, ownedKeyHash);
    }

    /**
     * accept(CorenodeEvent): register, then walk the user's key tree. The
     * source hands the walk to a thread pool; here it runs to completion.
     */
    method Accept(pointers: PublicKeyHash -> MaybeMultihash, username: Username, keyHash: PublicKeyHash)
      requires Valid()
      modifies this
      ensures Valid()
      ensures usage.Keys == old(usage.Keys) + {username}
      ensures old(currentView.Keys) + {keyHash} <= currentView.Keys
      ensures TreeTracked(Env(pointers), currentView.Keys, keyHash)
    {
      Register(username, keyHash);
      ProcessCorenodeEvent(pointers, username, keyHash);
    }
  }
}
