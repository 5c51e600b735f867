/**
 * The quota filter's state as values, and the state each of its operations
 * leaves behind, stated without loops: the retraction cascade is the set of
 * writers reachable through owned keys, whatever order the source visits them in.
 */
module FilterSpec {
  import opened Wrappers
  import opened MerkleBtree
  import Storage
  import opened Ledger

  /**
   * What one call of the filter reads from the rest of the server: the block
   * store, the mutable pointers' targets at the time of the call, and the
   * owned keys recorded under a writer's root (WriterData). Blocks and the
   * WriterData under a root are content-addressed and never change; the
   * pointer targets do, so each call is given the targets it reads. keyRank
   * witnesses that owned keys are acyclic: an owned key ranks below its owner.
   */
  datatype Environment = Environment(
    dht: Storage.BlockStore,
    pointerTarget: PublicKeyHash -> MaybeMultihash,
    ownedKeys: (PublicKeyHash, MaybeMultihash) -> set<PublicKeyHash>,
    keyRank: PublicKeyHash -> nat)

  /** Under every root, each owned key ranks below its owner. */
  ghost predicate KeysRanked(ownedKeys: (PublicKeyHash, MaybeMultihash) -> set<PublicKeyHash>, keyRank: PublicKeyHash -> nat) {
    forall k, root, c :: c in ownedKeys(k, root) ==> keyRank(c) < keyRank(k)
  }

  ghost predicate WellFormed(env: Environment) {
    Storage.Acyclic(env.dht) && KeysRanked(env.ownedKeys, env.keyRank)
  }

  /** WriterData.getDirectOwnedKeys: the keys owned under the writer's current root. */
  function DirectOwnedKeys(env: Environment, writer: PublicKeyHash): set<PublicKeyHash> {
    env.ownedKeys(writer, env.pointerTarget(writer))
  }

  datatype FilterState = FilterState(view: map<PublicKeyHash, StatValue>, ledger: map<Username, UsageValue>)

  datatype FilterError =
    | UnknownWriter(writer: PublicKeyHash)
    | NoUsage(owner: Username)
    | QuotaReached(used: int, quota: int, requested: int)

  /** Every recorded owned key ranks below its owner. */
  ghost predicate RanksBelow(keyRank: PublicKeyHash -> nat, view: map<PublicKeyHash, StatValue>) {
    forall k, c :: k in view && c in view[k].ownedKeys ==> keyRank(c) < keyRank(k)
  }

  /** The owned keys some Stat records that have no Stat of their own. */
  function Dangling(view: map<PublicKeyHash, StatValue>): set<PublicKeyHash> {
    set k, c | k in view && c in view[k].ownedKeys && c !in view :: c
  }

  // ----- The retraction cascade -----

  /**
   * k is retracted by retracting the keys in roots: some root with a Stat,
   * ranked below bound and with a present pointer target reaches k.
   */
  ghost predicate CascadeReaches(env: Environment, dom: set<PublicKeyHash>, roots: set<PublicKeyHash>, k: PublicKeyHash, bound: nat)
    decreases bound, 0
  {
    exists r :: r in roots && r in dom && env.keyRank(r) < bound && env.pointerTarget(r).IsPresent() && RetractionReaches(env, dom, r, k)
  }

  /** Retracting w zeroes w, then cascades over the keys owned under the (absent) new root. */
  ghost predicate RetractionReaches(env: Environment, dom: set<PublicKeyHash>, w: PublicKeyHash, k: PublicKeyHash)
    decreases env.keyRank(w), 1
  {
    k == w || CascadeReaches(env, dom, env.ownedKeys(w, Empty()), k, env.keyRank(w))
  }

  ghost function PickRoot(roots: set<PublicKeyHash>): (r: PublicKeyHash)
    requires roots != {}
    ensures r in roots
  {
    var r :| r in roots; r
  }

  /**
   * The keys retracting the roots resets, one root at a time: a root retracts
   * when it has a Stat, ranks below bound and its pointer still has a target.
   * CascadeSetMembers shows the result is what CascadeReaches describes,
   * whichever root is picked first.
   */
  ghost function CascadeSet(env: Environment, dom: set<PublicKeyHash>, roots: set<PublicKeyHash>, bound: nat): set<PublicKeyHash>
    decreases bound, 1, |roots|
  {
    if roots == {} then {}
    else
      var r := PickRoot(roots);
      CascadeSet(env, dom, roots - {r}, bound) +
      (if r in dom && env.keyRank(r) < bound && env.pointerTarget(r).IsPresent() then RetractionSet(env, dom, r) else {})
  }

  /** The keys retracting w resets: w itself, then the cascade over the keys owned under the absent root. */
  ghost function RetractionSet(env: Environment, dom: set<PublicKeyHash>, w: PublicKeyHash): set<PublicKeyHash>
    decreases env.keyRank(w), 2, 0
  {
    (if w in dom then {w} else {}) + CascadeSet(env, dom, env.ownedKeys(w, Empty()), env.keyRank(w))
  }

  /** The view with the Stats of keys reset to no root, nothing retained and no owned keys. */
  function Zero(view: map<PublicKeyHash, StatValue>, keys: set<PublicKeyHash>): (v: map<PublicKeyHash, StatValue>)
    ensures v.Keys == view.Keys
    ensures forall k :: k in view && k in keys ==> v[k] == ZeroStat(view[k].owner)
    ensures forall k :: k in view && k !in keys ==> v[k] == view[k]
  {
    map k | k in view :: if k in keys then ZeroStat(view[k].owner) else view[k]
  }

  /** computeIfAbsent for each key: missing keys get an empty Stat of the given owner. */
  function WithStatsFor(view: map<PublicKeyHash, StatValue>, keys: set<PublicKeyHash>, owner: Username): (v: map<PublicKeyHash, StatValue>)
    ensures v.Keys == view.Keys + keys
    ensures forall k :: k in view ==> v[k] == view[k]
    ensures forall k :: k in keys && k !in view ==> v[k] == ZeroStat(owner)
  {
    map k | k in view.Keys + keys :: if k in view then view[k] else ZeroStat(owner)
  }

  // ----- processMutablePointerEvent as a state transformer -----

  ghost function Retraction(env: Environment, st: FilterState, writer: PublicKeyHash): FilterState {
    st.(view := Zero(st.view, RetractionSet(env, st.view.Keys, writer)))
  }

  ghost function PointerUpdate(env: Environment, st: FilterState, writer: PublicKeyHash, newRoot: Multihash): FilterState
    requires WellFormed(env) && writer in st.view
  {
    var current := st.view[writer];
    var delta := Storage.ChangeInContainedSize(env.dht, current.target, newRoot);
    var updatedOwned := env.ownedKeys(writer, Of(newRoot));
    var observed := WithStatsFor(st.view, updatedOwned, current.owner);
    if current.owner !in st.ledger then FilterState(observed, st.ledger)
    else
      var ledger := st.ledger[current.owner := st.ledger[current.owner].ConfirmUsage(writer, delta)];
      var retracted := Zero(observed, CascadeSet(env, observed.Keys, current.ownedKeys - updatedOwned, env.keyRank(writer)));
      var committed := retracted[writer := StatValue(current.owner, Of(newRoot), current.directRetainedStorage + delta, updatedOwned)];
      FilterState(committed, ledger)
  }

  ghost function PointerEvent(env: Environment, st: FilterState, writer: PublicKeyHash, existingRoot: MaybeMultihash, newRoot: MaybeMultihash): FilterState
    requires WellFormed(env)
  {
    if existingRoot == newRoot || writer !in st.view then st
    else if !newRoot.IsPresent() then Retraction(env, st, writer)
    else PointerUpdate(env, st, writer, newRoot.hash.value)
  }

  function PointerEventOutcome(st: FilterState, writer: PublicKeyHash, existingRoot: MaybeMultihash, newRoot: MaybeMultihash): (r: Outcome<FilterError>)
    ensures r == Fail(UnknownWriter(writer)) <==> existingRoot != newRoot && writer !in st.view
    ensures r.Fail? && r.error.NoUsage? <==>
      existingRoot != newRoot && writer in st.view && newRoot.IsPresent() && st.view[writer].owner !in st.ledger
  {
    if existingRoot == newRoot then Pass
    else if writer !in st.view then Fail(UnknownWriter(writer))
    else if newRoot.IsPresent() && st.view[writer].owner !in st.ledger then Fail(NoUsage(st.view[writer].owner))
    else Pass
  }

  /** The synchronous part of accept(CorenodeEvent): insert-if-absent of a Stat and a Usage. */
  function Register(st: FilterState, username: Username, keyHash: PublicKeyHash): (s: FilterState)
    ensures s.view.Keys == st.view.Keys + {keyHash} && s.ledger.Keys == st.ledger.Keys + {username}
    ensures forall k :: k in st.view ==> s.view[k] == st.view[k]
    ensures forall u :: u in st.ledger ==> s.ledger[u] == st.ledger[u]
    ensures keyHash !in st.view ==> s.view[keyHash] == ZeroStat(username)
    ensures username !in st.ledger ==> s.ledger[username] == UsageValue(0, map[])
  {
    FilterState(
      if keyHash in st.view then st.view else st.view[keyHash := ZeroStat(username)],
      if username in st.ledger then st.ledger else st.ledger[username := UsageValue(0, map[])])
  }

  /** The retained size a writer's root accounts for when diffs are exact. */
  ghost function RootSize(env: Environment, root: MaybeMultihash): int
    requires WellFormed(env)
  {
    if root.IsPresent() then Storage.RecursiveBlockSize(env.dht, root.hash.value) else 0
  }

  /** Every Stat retains exactly the recursive size of its root. */
  ghost predicate SizesTracked(env: Environment, view: map<PublicKeyHash, StatValue>)
    requires WellFormed(env)
  {
    forall k :: k in view ==> view[k].directRetainedStorage == RootSize(env, view[k].target)
  }

  // ----- allowWrite -----

  /** allowWrite's admission test: rejected when used > quota or quota - used - size <= 0. */
  predicate WithinQuota(used: int, quota: int, size: int) {
    !(used > quota || quota - used - size <= 0)
  }

  /** The state an operation leaves behind and how it completes. */
  datatype Checked = Checked(state: FilterState, outcome: Outcome<FilterError>)

  /**
   * allowWrite: an unknown writer or an owner without a ledger is an error; a
   * write within quota reserves its size for the writer, any other write drops
   * the writer's reservation and is refused.
   */
  ghost function WriteCheck(quota: Username -> int, st: FilterState, writer: PublicKeyHash, size: int): Checked {
    if writer !in st.view then Checked(st, Fail(UnknownWriter(writer)))
    else
      var owner := st.view[writer].owner;
      if owner !in st.ledger then Checked(st, Fail(NoUsage(owner)))
      else
        var u := st.ledger[owner];
        if WithinQuota(u.Effective(), quota(owner), size) then
          Checked(st.(ledger := st.ledger[owner := u.AddPending(writer, size)]), Pass)
        else
          Checked(st.(ledger := st.ledger[owner := u.ClearPending(writer)]),
                  Fail(QuotaReached(u.usage, quota(owner), size + u.GetPending(writer))))
  }

  // ----- processCorenodeEvent -----

  /** k is root or lies below it through the keys owned under each writer's current root. */
  ghost predicate InKeyTree(env: Environment, root: PublicKeyHash, k: PublicKeyHash)
    requires WellFormed(env)
    decreases env.keyRank(root)
  {
    k == root || exists c :: c in DirectOwnedKeys(env, root) && InKeyTree(env, c, k)
  }

  /** Every key of root's tree has a Stat. */
  ghost predicate TreeTracked(env: Environment, keys: set<PublicKeyHash>, root: PublicKeyHash)
    requires WellFormed(env)
  {
    forall k :: InKeyTree(env, root, k) ==> k in keys
  }
}
