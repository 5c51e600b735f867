/**
 * What the filter's transitions guarantee: the retraction cascade stays below
 * the retracted writer, transitions are idempotent, no owned key is ever left
 * without a Stat that had one, and retained sizes stay exact when diffs are.
 */
module FilterProperties {
  import opened Wrappers
  import opened MerkleBtree
  import Storage
  import opened Ledger
  import opened FilterSpec

  // ----- The cascade in terms of ranks and sets -----

  /** Retraction only reaches keys ranked no higher than the retracted writer. */
  lemma {:induction false} RetractionReachesRank(env: Environment, dom: set<PublicKeyHash>, w: PublicKeyHash, k: PublicKeyHash)
    requires RetractionReaches(env, dom, w, k)
    ensures env.keyRank(k) <= env.keyRank(w)
    decreases env.keyRank(w), 1
  {
    if k != w {
      CascadeReachesRank(env, dom, env.ownedKeys(w, Empty()), k, env.keyRank(w));
    }
  }

  /** A cascade from roots ranked below bound only reaches keys ranked below bound. */
  lemma {:induction false} CascadeReachesRank(env: Environment, dom: set<PublicKeyHash>, roots: set<PublicKeyHash>, k: PublicKeyHash, bound: nat)
    requires CascadeReaches(env, dom, roots, k, bound)
    ensures env.keyRank(k) < bound
    decreases bound, 0
  {
    var r :| r in roots && r in dom && env.keyRank(r) < bound && env.pointerTarget(r).IsPresent() && RetractionReaches(env, dom, r, k);
    RetractionReachesRank(env, dom, r, k);
  }

  /** The recursively computed cascade is exactly the set of keys with a Stat the cascade reaches. */
  lemma {:induction false} CascadeSetMembers(env: Environment, dom: set<PublicKeyHash>, roots: set<PublicKeyHash>, bound: nat, x: PublicKeyHash)
    ensures x in CascadeSet(env, dom, roots, bound) <==> x in dom && CascadeReaches(env, dom, roots, x, bound)
    decreases bound, 1, |roots|
  {
    if roots != {} {
      var r := PickRoot(roots);
      var rest := roots - {r};
      var retracts := r in dom && env.keyRank(r) < bound && env.pointerTarget(r).IsPresent();
      CascadeSetMembers(env, dom, rest, bound, x);
      if retracts {
        RetractionSetMembers(env, dom, r, x);
      }
      if CascadeReaches(env, dom, roots, x, bound) && !CascadeReaches(env, dom, rest, x, bound) {
        var r' :| r' in roots && r' in dom && env.keyRank(r') < bound && env.pointerTarget(r').IsPresent() && RetractionReaches(env, dom, r', x);
        assert r' !in rest;
      }
      if CascadeReaches(env, dom, rest, x, bound) {
        var r' :| r' in rest && r' in dom && env.keyRank(r') < bound && env.pointerTarget(r').IsPresent() && RetractionReaches(env, dom, r', x);
        assert r' in roots;
      }
    }
  }

  /** The recursively computed retraction is exactly the set of keys with a Stat the retraction reaches. */
  lemma {:induction false} RetractionSetMembers(env: Environment, dom: set<PublicKeyHash>, w: PublicKeyHash, x: PublicKeyHash)
    ensures x in RetractionSet(env, dom, w) <==> x in dom && RetractionReaches(env, dom, w, x)
    decreases env.keyRank(w), 2, 0
  {
    CascadeSetMembers(env, dom, env.ownedKeys(w, Empty()), env.keyRank(w), x);
  }

  lemma CascadeSetBelow(env: Environment, dom: set<PublicKeyHash>, roots: set<PublicKeyHash>, bound: nat)
    ensures forall k :: k in CascadeSet(env, dom, roots, bound) ==> env.keyRank(k) < bound
  {
    forall k | k in CascadeSet(env, dom, roots, bound) ensures env.keyRank(k) < bound {
      CascadeSetMembers(env, dom, roots, bound, k);
      CascadeReachesRank(env, dom, roots, k, bound);
    }
  }

  lemma CascadeSetEmpty(env: Environment, dom: set<PublicKeyHash>, bound: nat)
    ensures CascadeSet(env, dom, {}, bound) == {}
  {
  }

  /** Retracting one more root adds exactly what that root's own retraction reaches, whatever order the roots are taken in. */
  lemma CascadeSetAdd(env: Environment, dom: set<PublicKeyHash>, roots: set<PublicKeyHash>, r: PublicKeyHash, bound: nat)
    ensures CascadeSet(env, dom, roots + {r}, bound) ==
      CascadeSet(env, dom, roots, bound) +
      (if r in dom && env.keyRank(r) < bound && env.pointerTarget(r).IsPresent() then RetractionSet(env, dom, r) else {})
  {
    var retracts := r in dom && env.keyRank(r) < bound && env.pointerTarget(r).IsPresent();
    var added := if retracts then RetractionSet(env, dom, r) else {};
    forall x
      ensures x in CascadeSet(env, dom, roots + {r}, bound) <==> x in CascadeSet(env, dom, roots, bound) + added
    {
      CascadeSetMembers(env, dom, roots + {r}, bound, x);
      CascadeSetMembers(env, dom, roots, bound, x);
      RetractionSetMembers(env, dom, r, x);
      if CascadeReaches(env, dom, roots + {r}, x, bound) && !CascadeReaches(env, dom, roots, x, bound) {
        var r' :| r' in roots + {r} && r' in dom && env.keyRank(r') < bound && env.pointerTarget(r').IsPresent() && RetractionReaches(env, dom, r', x);
        assert r' == r;
      }
    }
  }

  lemma RetractionSetUnfold(env: Environment, dom: set<PublicKeyHash>, w: PublicKeyHash)
    requires w in dom
    ensures RetractionSet(env, dom, w) == {w} + CascadeSet(env, dom, env.ownedKeys(w, Empty()), env.keyRank(w))
  {
  }

  /**
   * The retracted set is closed under the cascade step: a retracted key's
   * child (under the absent root) that has a Stat and a present pointer is retracted too.
   */
  lemma {:induction false} RetractionIsClosed(env: Environment, dom: set<PublicKeyHash>, w: PublicKeyHash, k: PublicKeyHash, c: PublicKeyHash)
    requires WellFormed(env)
    requires RetractionReaches(env, dom, w, k)
    requires c in env.ownedKeys(k, Empty()) && c in dom && env.pointerTarget(c).IsPresent()
    ensures RetractionReaches(env, dom, w, c)
    decreases env.keyRank(w)
  {
    assert env.keyRank(c) < env.keyRank(k);
    if k == w {
      assert RetractionReaches(env, dom, c, c);
      assert CascadeReaches(env, dom, env.ownedKeys(w, Empty()), c, env.keyRank(w));
    } else {
      var r :| r in env.ownedKeys(w, Empty()) && r in dom && env.keyRank(r) < env.keyRank(w) &&
        env.pointerTarget(r).IsPresent() && RetractionReaches(env, dom, r, k);
      RetractionIsClosed(env, dom, r, k, c);
      assert CascadeReaches(env, dom, env.ownedKeys(w, Empty()), c, env.keyRank(w));
    }
  }

  lemma ZeroCompose(view: map<PublicKeyHash, StatValue>, a: set<PublicKeyHash>, b: set<PublicKeyHash>)
    ensures Zero(Zero(view, a), b) == Zero(view, a + b)
  {
  }

  lemma ZeroNothing(view: map<PublicKeyHash, StatValue>)
    ensures Zero(view, {}) == view
  {
  }

  // ----- Idempotence -----

  /** Retracting a writer twice is retracting it once. */
  lemma RetractionIsIdempotent(env: Environment, st: FilterState, writer: PublicKeyHash)
    ensures Retraction(env, Retraction(env, st, writer), writer) == Retraction(env, st, writer)
  {
    var a := RetractionSet(env, st.view.Keys, writer);
    ZeroCompose(st.view, a, a);
    assert a + a == a;
  }

  /**
   * An update with a ledger commits the new root, its owned keys and the
   * diffed size on the writer, gives every new owned key a Stat, and leaves no
   * reservation for the writer.
   */
  lemma PointerUpdateCommits(env: Environment, st: FilterState, writer: PublicKeyHash, newRoot: Multihash)
    requires WellFormed(env) && writer in st.view && st.view[writer].owner in st.ledger
    ensures var current := st.view[writer];
      var once := PointerUpdate(env, st, writer, newRoot);
      var updatedOwned := env.ownedKeys(writer, Of(newRoot));
      && writer in once.view
      && once.view[writer] == StatValue(current.owner, Of(newRoot),
           current.directRetainedStorage + Storage.ChangeInContainedSize(env.dht, current.target, newRoot), updatedOwned)
      && updatedOwned <= once.view.Keys
      && current.owner in once.ledger
      && writer !in once.ledger[current.owner].pending
  {
  }

  /**
   * An update to the root a writer already records, whose owned keys all have
   * Stats and which has no reservation pending, changes nothing.
   */
  lemma PointerUpdateFixpoint(env: Environment, st: FilterState, writer: PublicKeyHash, newRoot: Multihash)
    requires WellFormed(env) && writer in st.view
    requires var current := st.view[writer];
      current.target == Of(newRoot) && current.ownedKeys == env.ownedKeys(writer, Of(newRoot)) &&
      current.ownedKeys <= st.view.Keys &&
      (current.owner in st.ledger ==> writer !in st.ledger[current.owner].pending)
    ensures PointerUpdate(env, st, writer, newRoot) == st
  {
    var current := st.view[writer];
    var updatedOwned := current.ownedKeys;
    Storage.ChangeToSelfIsZero(env.dht, newRoot);
    assert WithStatsFor(st.view, updatedOwned, current.owner) == st.view;
    if current.owner in st.ledger {
      CascadeSetEmpty(env, st.view.Keys, env.keyRank(writer));
      assert current.ownedKeys - updatedOwned == {};
      ZeroNothing(st.view);
      assert st.ledger[current.owner].ConfirmUsage(writer, 0) == st.ledger[current.owner];
      assert st.ledger == st.ledger[current.owner := st.ledger[current.owner].ConfirmUsage(writer, 0)];
      assert st.view == st.view[writer := StatValue(current.owner, Of(newRoot), current.directRetainedStorage + 0, updatedOwned)];
      PointerUpdateLedgerStep(env, st, writer, newRoot);
      PointerUpdateViewStep(env, st, writer, newRoot);
    }
  }

  /** Applying the same pointer update twice changes nothing the second time, usage included. */
  lemma PointerUpdateIsIdempotent(env: Environment, st: FilterState, writer: PublicKeyHash, newRoot: Multihash)
    requires WellFormed(env) && writer in st.view
    ensures var once := PointerUpdate(env, st, writer, newRoot);
      PointerUpdate(env, once, writer, newRoot) == once
  {
    var current := st.view[writer];
    var once := PointerUpdate(env, st, writer, newRoot);
    if current.owner in st.ledger {
      PointerUpdateCommits(env, st, writer, newRoot);
      PointerUpdateFixpoint(env, once, writer, newRoot);
    } else {
      var updatedOwned := env.ownedKeys(writer, Of(newRoot));
      assert WithStatsFor(once.view, updatedOwned, current.owner) == once.view;
    }
  }

  /**
   * Replaying a pointer event whose new root is present leaves the state of the
   * first application, whatever the replay names as the existing root.
   */
  lemma PointerEventIsIdempotent(env: Environment, st: FilterState, writer: PublicKeyHash, existingRoot: MaybeMultihash, replayedRoot: MaybeMultihash, newRoot: Multihash)
    requires WellFormed(env) && existingRoot != Of(newRoot)
    ensures var once := PointerEvent(env, st, writer, existingRoot, Of(newRoot));
      PointerEvent(env, once, writer, replayedRoot, Of(newRoot)) == once
  {
    if writer in st.view {
      PointerUpdateIsIdempotent(env, st, writer, newRoot);
    }
  }

  // ----- Invariants every transition keeps -----

  lemma ZeroKeepsRanks(env: Environment, view: map<PublicKeyHash, StatValue>, keys: set<PublicKeyHash>)
    requires RanksBelow(env.keyRank, view)
    ensures RanksBelow(env.keyRank, Zero(view, keys))
  {
  }

  lemma WithStatsForKeepsRanks(env: Environment, view: map<PublicKeyHash, StatValue>, keys: set<PublicKeyHash>, owner: Username)
    requires RanksBelow(env.keyRank, view)
    ensures RanksBelow(env.keyRank, WithStatsFor(view, keys, owner))
  {
  }

  /** Owned keys stay ranked below their owners across every pointer event. */
  lemma PointerEventKeepsRanks(env: Environment, st: FilterState, writer: PublicKeyHash, existingRoot: MaybeMultihash, newRoot: MaybeMultihash)
    requires WellFormed(env) && RanksBelow(env.keyRank, st.view)
    ensures RanksBelow(env.keyRank, PointerEvent(env, st, writer, existingRoot, newRoot).view)
  {
    if existingRoot != newRoot && writer in st.view {
      if !newRoot.IsPresent() {
        ZeroKeepsRanks(env, st.view, RetractionSet(env, st.view.Keys, writer));
      } else {
        var current := st.view[writer];
        var updatedOwned := env.ownedKeys(writer, newRoot);
        var observed := WithStatsFor(st.view, updatedOwned, current.owner);
        WithStatsForKeepsRanks(env, st.view, updatedOwned, current.owner);
        if current.owner in st.ledger {
          ZeroKeepsRanks(env, observed, CascadeSet(env, observed.Keys, current.ownedKeys - updatedOwned, env.keyRank(writer)));
        }
      }
    }
  }

  lemma ZeroNoNewDangling(view: map<PublicKeyHash, StatValue>, keys: set<PublicKeyHash>)
    ensures Dangling(Zero(view, keys)) <= Dangling(view)
  {
    var z := Zero(view, keys);
    forall x | x in Dangling(z) ensures x in Dangling(view) {
      var k, c :| k in z && c in z[k].ownedKeys && c !in z && x == c;
      assert k !in keys;
    }
  }

  lemma WithStatsForNoNewDangling(view: map<PublicKeyHash, StatValue>, keys: set<PublicKeyHash>, owner: Username)
    ensures Dangling(WithStatsFor(view, keys, owner)) <= Dangling(view)
  {
    var v := WithStatsFor(view, keys, owner);
    forall x | x in Dangling(v) ensures x in Dangling(view) {
      var k, c :| k in v && c in v[k].ownedKeys && c !in v && x == c;
      assert k in view;
    }
  }

  lemma CommitNoNewDangling(view: map<PublicKeyHash, StatValue>, writer: PublicKeyHash, s: StatValue)
    requires writer in view && s.ownedKeys <= view.Keys
    ensures Dangling(view[writer := s]) <= Dangling(view)
  {
    var v := view[writer := s];
    forall x | x in Dangling(v) ensures x in Dangling(view) {
      var k, c :| k in v && c in v[k].ownedKeys && c !in v && x == c;
      assert k != writer;
    }
  }

  /**
   * Consistency: a pointer event never leaves an owned key without a
   * Stat unless it was already without one.
   */
  lemma PointerEventNoNewDangling(env: Environment, st: FilterState, writer: PublicKeyHash, existingRoot: MaybeMultihash, newRoot: MaybeMultihash)
    requires WellFormed(env)
    ensures Dangling(PointerEvent(env, st, writer, existingRoot, newRoot).view) <= Dangling(st.view)
  {
    if existingRoot != newRoot && writer in st.view {
      if !newRoot.IsPresent() {
        ZeroNoNewDangling(st.view, RetractionSet(env, st.view.Keys, writer));
      } else {
        var current := st.view[writer];
        var updatedOwned := env.ownedKeys(writer, newRoot);
        var observed := WithStatsFor(st.view, updatedOwned, current.owner);
        WithStatsForNoNewDangling(st.view, updatedOwned, current.owner);
        if current.owner in st.ledger {
          var retracted := Zero(observed, CascadeSet(env, observed.Keys, current.ownedKeys - updatedOwned, env.keyRank(writer)));
          ZeroNoNewDangling(observed, CascadeSet(env, observed.Keys, current.ownedKeys - updatedOwned, env.keyRank(writer)));
          CommitNoNewDangling(retracted, writer, PointerEvent(env, st, writer, existingRoot, newRoot).view[writer]);
        }
      }
    }
  }

  lemma ZeroKeepsSizesTracked(env: Environment, view: map<PublicKeyHash, StatValue>, keys: set<PublicKeyHash>)
    requires WellFormed(env) && SizesTracked(env, view)
    ensures SizesTracked(env, Zero(view, keys))
  {
  }

  lemma WithStatsForKeepsSizesTracked(env: Environment, view: map<PublicKeyHash, StatValue>, keys: set<PublicKeyHash>, owner: Username)
    requires WellFormed(env) && SizesTracked(env, view)
    ensures SizesTracked(env, WithStatsFor(view, keys, owner))
  {
  }

  /** Without duplicate links the diff is exact: an update leaves the writer retaining its new root's size. */
  lemma ExactDelta(env: Environment, current: StatValue, h: Multihash)
    requires WellFormed(env) && Storage.NoDuplicateLinks(env.dht)
    requires current.directRetainedStorage == RootSize(env, current.target)
    ensures current.directRetainedStorage + Storage.ChangeInContainedSize(env.dht, current.target, h) == RootSize(env, Of(h))
  {
    if current.target.IsPresent() {
      Storage.ChangeIsExactWithoutDuplicates(env.dht, current.target.hash.value, h);
    } else {
      Storage.ChangeFromAbsent(env.dht, h);
    }
  }

  /** Without duplicate links the diff is exact, so each writer keeps retaining exactly its root's size. */
  lemma PointerEventKeepsSizesTracked(env: Environment, st: FilterState, writer: PublicKeyHash, existingRoot: MaybeMultihash, newRoot: MaybeMultihash)
    requires WellFormed(env) && Storage.NoDuplicateLinks(env.dht) && SizesTracked(env, st.view)
    ensures SizesTracked(env, PointerEvent(env, st, writer, existingRoot, newRoot).view)
  {
    if existingRoot != newRoot && writer in st.view {
      if !newRoot.IsPresent() {
        ZeroKeepsSizesTracked(env, st.view, RetractionSet(env, st.view.Keys, writer));
      } else {
        PointerUpdateKeepsSizesTracked(env, st, writer, newRoot.hash.value);
      }
    }
  }

  /** The update case: observed keys start at zero, the cascade resets, and the writer's new total is its root's size. */
  lemma PointerUpdateKeepsSizesTracked(env: Environment, st: FilterState, writer: PublicKeyHash, h: Multihash)
    requires WellFormed(env) && Storage.NoDuplicateLinks(env.dht) && SizesTracked(env, st.view) && writer in st.view
    ensures SizesTracked(env, PointerUpdate(env, st, writer, h).view)
  {
    var current := st.view[writer];
    var updatedOwned := env.ownedKeys(writer, Of(h));
    var observed := WithStatsFor(st.view, updatedOwned, current.owner);
    WithStatsForKeepsSizesTracked(env, st.view, updatedOwned, current.owner);
    if current.owner in st.ledger {
      ZeroKeepsSizesTracked(env, observed, CascadeSet(env, observed.Keys, current.ownedKeys - updatedOwned, env.keyRank(writer)));
      ExactDelta(env, current, h);
      PointerUpdateViewStep(env, st, writer, h);
    }
  }

  /** Retraction and its cascade only reset Stats: the usage ledger is left as it was. */
  lemma RetractionKeepsLedger(env: Environment, st: FilterState, writer: PublicKeyHash, existingRoot: MaybeMultihash)
    requires WellFormed(env)
    ensures PointerEvent(env, st, writer, existingRoot, Empty()).ledger == st.ledger
  {
  }

  /** An update confirms its diff into the owner's ledger, replacing the writer's reservation. */
  lemma PointerUpdateConfirmsDelta(env: Environment, st: FilterState, writer: PublicKeyHash, newRoot: Multihash)
    requires WellFormed(env) && writer in st.view && st.view[writer].owner in st.ledger
    ensures var current := st.view[writer];
      var delta := Storage.ChangeInContainedSize(env.dht, current.target, newRoot);
      var after := PointerUpdate(env, st, writer, newRoot);
      after.ledger[current.owner].Effective() == st.ledger[current.owner].Effective() - st.ledger[current.owner].GetPending(writer) + delta &&
      after.view[writer].directRetainedStorage == current.directRetainedStorage + delta &&
      after.view[writer].target == Of(newRoot)
  {
    var current := st.view[writer];
    ConfirmUsageEffect(st.ledger[current.owner], writer, Storage.ChangeInContainedSize(env.dht, current.target, newRoot));
  }

  // ----- Registration -----

  lemma RegisterIsIdempotent(st: FilterState, username: Username, keyHash: PublicKeyHash)
    ensures Register(Register(st, username, keyHash), username, keyHash) == Register(st, username, keyHash)
  {
  }

  lemma RegisterKeepsInvariants(env: Environment, st: FilterState, username: Username, keyHash: PublicKeyHash)
    requires WellFormed(env)
    ensures RanksBelow(env.keyRank, st.view) ==> RanksBelow(env.keyRank, Register(st, username, keyHash).view)
    ensures SizesTracked(env, st.view) ==> SizesTracked(env, Register(st, username, keyHash).view)
    ensures Dangling(Register(st, username, keyHash).view) <= Dangling(st.view)
  {
    var v := Register(st, username, keyHash).view;
    forall x | x in Dangling(v) ensures x in Dangling(st.view) {
      var k, c :| k in v && c in v[k].ownedKeys && c !in v && x == c;
      assert k in st.view;
    }
  }

  /** A Stat created for a new key can leave only its own owned keys dangling. */
  lemma InsertNoNewDangling(view: map<PublicKeyHash, StatValue>, k: PublicKeyHash, s: StatValue)
    requires k !in view
    ensures Dangling(view[k := s]) <= Dangling(view) + s.ownedKeys
  {
    var v := view[k := s];
    forall x | x in Dangling(v) ensures x in Dangling(view) + s.ownedKeys {
      var j, c :| j in v && c in v[j].ownedKeys && c !in v && x == c;
      if j != k {
        assert j in view && c in view[j].ownedKeys && c !in view;
      }
    }
  }

  lemma WithStatsForAdd(view: map<PublicKeyHash, StatValue>, keys: set<PublicKeyHash>, k: PublicKeyHash, owner: Username)
    ensures WithStatsFor(view, keys + {k}, owner) ==
      var v := WithStatsFor(view, keys, owner); if k in v then v else v[k := ZeroStat(owner)]
  {
  }

  lemma InsertKeepsRanks(keyRank: PublicKeyHash -> nat, view: map<PublicKeyHash, StatValue>, k: PublicKeyHash, s: StatValue)
    requires RanksBelow(keyRank, view)
    requires forall c :: c in s.ownedKeys ==> keyRank(c) < keyRank(k)
    ensures RanksBelow(keyRank, view[k := s])
  {
  }

  /** One step of processRemovedOwnedKeys: retracting key k extends the cascade by k. */
  lemma RetractStep(env: Environment, start: map<PublicKeyHash, StatValue>, st: FilterState,
                    done: set<PublicKeyHash>, k: PublicKeyHash, bound: nat)
    requires WellFormed(env)
    requires st.view == Zero(start, CascadeSet(env, start.Keys, done, bound))
    requires env.keyRank(k) < bound
    ensures PointerEvent(env, st, k, env.pointerTarget(k), Empty()) ==
      st.(view := Zero(start, CascadeSet(env, start.Keys, done + {k}, bound)))
  {
    CascadeStep(env, start, st.view, done, k, bound);
    if env.pointerTarget(k).IsPresent() && k in st.view {
      assert PointerEvent(env, st, k, env.pointerTarget(k), Empty()) == Retraction(env, st, k);
    } else {
      assert PointerEvent(env, st, k, env.pointerTarget(k), Empty()) == st;
    }
  }

  /** The cascade of done + {k} is that of done followed by k's retraction, if k has a target and a Stat. */
  lemma CascadeStep(env: Environment, start: map<PublicKeyHash, StatValue>, before: map<PublicKeyHash, StatValue>,
                    done: set<PublicKeyHash>, k: PublicKeyHash, bound: nat)
    requires before == Zero(start, CascadeSet(env, start.Keys, done, bound))
    requires env.keyRank(k) < bound
    ensures var after := if !env.pointerTarget(k).IsPresent() || k !in before then before
                         else Zero(before, RetractionSet(env, before.Keys, k));
      after == Zero(start, CascadeSet(env, start.Keys, done + {k}, bound))
  {
    CascadeSetAdd(env, start.Keys, done, k, bound);
    ZeroCompose(start, CascadeSet(env, start.Keys, done, bound), RetractionSet(env, start.Keys, k));
  }

  /** The ledger an update with a ledger leaves: the diff confirmed into the owner's usage. */
  lemma PointerUpdateLedgerStep(env: Environment, st: FilterState, writer: PublicKeyHash, newRoot: Multihash)
    requires WellFormed(env) && writer in st.view && st.view[writer].owner in st.ledger
    ensures var current := st.view[writer];
      PointerUpdate(env, st, writer, newRoot).ledger ==
      st.ledger[current.owner := st.ledger[current.owner].ConfirmUsage(writer, Storage.ChangeInContainedSize(env.dht, current.target, newRoot))]
  {
  }

  /**
   * The view an update with a ledger leaves: the new owned keys observed, the
   * children no longer owned retracted, and the writer's Stat committed.
   */
  lemma PointerUpdateViewStep(env: Environment, st: FilterState, writer: PublicKeyHash, newRoot: Multihash)
    requires WellFormed(env) && writer in st.view && st.view[writer].owner in st.ledger
    ensures var current := st.view[writer];
      var updatedOwned := env.ownedKeys(writer, Of(newRoot));
      var observed := WithStatsFor(st.view, updatedOwned, current.owner);
      PointerUpdate(env, st, writer, newRoot).view ==
      Zero(observed, CascadeSet(env, observed.Keys, current.ownedKeys - updatedOwned, env.keyRank(writer)))
        [writer := StatValue(current.owner, Of(newRoot), current.directRetainedStorage + Storage.ChangeInContainedSize(env.dht, current.target, newRoot), updatedOwned)]
  {
  }

  // ----- Keys are never forgotten -----

  /** A pointer event never drops a Stat and never adds or drops a ledger. */
  lemma PointerEventKeepsKeys(env: Environment, st: FilterState, writer: PublicKeyHash, existingRoot: MaybeMultihash, newRoot: MaybeMultihash)
    requires WellFormed(env)
    ensures var after := PointerEvent(env, st, writer, existingRoot, newRoot);
      st.view.Keys <= after.view.Keys && after.ledger.Keys == st.ledger.Keys
  {
  }

  // ----- allowWrite -----

  /**
   * A write is admitted exactly when the writer and its owner's ledger are
   * known, the owner's effective usage is within quota, and the write leaves
   * strictly less than the quota.
   */
  lemma WriteCheckAdmits(quota: Username -> int, st: FilterState, writer: PublicKeyHash, size: int)
    ensures WriteCheck(quota, st, writer, size).outcome == Pass <==>
      writer in st.view && st.view[writer].owner in st.ledger &&
      var owner := st.view[writer].owner;
      st.ledger[owner].Effective() <= quota(owner) &&
      st.ledger[owner].Effective() + size < quota(owner)
  {
  }

  /** An admitted write reserves its size: the owner's effective usage grows by it and stays below quota. */
  lemma WriteCheckReserves(quota: Username -> int, st: FilterState, writer: PublicKeyHash, size: int)
    requires WriteCheck(quota, st, writer, size).outcome == Pass
    ensures var owner := st.view[writer].owner;
      var after := WriteCheck(quota, st, writer, size).state;
      owner in after.ledger &&
      after.ledger[owner].Effective() == st.ledger[owner].Effective() + size &&
      after.ledger[owner].Effective() < quota(owner) &&
      after.ledger[owner].GetPending(writer) == st.ledger[owner].GetPending(writer) + size
  {
    var owner := st.view[writer].owner;
    AddPendingEffect(st.ledger[owner], writer, size);
  }

  /**
   * A refused write drops the writer's whole reservation: the owner's
   * effective usage falls by it, and the error reports the confirmed usage,
   * the quota and the write together with the dropped reservation.
   */
  lemma WriteCheckRefusal(quota: Username -> int, st: FilterState, writer: PublicKeyHash, size: int)
    requires WriteCheck(quota, st, writer, size).outcome.Fail?
    requires WriteCheck(quota, st, writer, size).outcome.error.QuotaReached?
    ensures var owner := st.view[writer].owner;
      var before := st.ledger[owner];
      var after := WriteCheck(quota, st, writer, size).state;
      owner in after.ledger &&
      after.ledger[owner].Effective() == before.Effective() - before.GetPending(writer) &&
      after.ledger[owner].GetPending(writer) == 0 &&
      WriteCheck(quota, st, writer, size).outcome.error ==
        QuotaReached(before.usage, quota(owner), size + before.GetPending(writer))
  {
    var owner := st.view[writer].owner;
    ClearPendingEffect(st.ledger[owner], writer);
  }

  /** allowWrite touches only the writer's pending entry in its owner's ledger. */
  lemma WriteCheckFrame(quota: Username -> int, st: FilterState, writer: PublicKeyHash, size: int)
    ensures var after := WriteCheck(quota, st, writer, size).state;
      after.view == st.view && after.ledger.Keys == st.ledger.Keys &&
      (forall u :: u in st.ledger && (writer !in st.view || u != st.view[writer].owner) ==> after.ledger[u] == st.ledger[u]) &&
      (forall u, w :: u in st.ledger && w != writer ==> after.ledger[u].GetPending(w) == st.ledger[u].GetPending(w))
  {
  }

  // ----- processCorenodeEvent -----

  /** A tree whose keys all have Stats stays tracked as more Stats appear. */
  lemma TreeTrackedGrows(env: Environment, keys: set<PublicKeyHash>, more: set<PublicKeyHash>, root: PublicKeyHash)
    requires WellFormed(env) && keys <= more && TreeTracked(env, keys, root)
    ensures TreeTracked(env, more, root)
  {
  }

  /** A root with a Stat whose children's trees are tracked has its whole tree tracked. */
  lemma TreeTrackedFromChildren(env: Environment, keys: set<PublicKeyHash>, root: PublicKeyHash)
    requires WellFormed(env) && root in keys
    requires forall c :: c in DirectOwnedKeys(env, root) ==> TreeTracked(env, keys, c)
    ensures TreeTracked(env, keys, root)
  {
    forall k | InKeyTree(env, root, k) ensures k in keys {
      if k != root {
        var c :| c in DirectOwnedKeys(env, root) && InKeyTree(env, c, k);
        assert TreeTracked(env, keys, c);
      }
    }
  }
}
