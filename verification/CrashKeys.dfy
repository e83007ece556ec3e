/**
 * src/base/crash_keys.cc as interleaved atomic steps: any number of threads inside CrashKey::Register, and
 * one crashing thread inside SerializeCrashKeys.
 */
module CrashKeys {
  import opened Wrappers

  type Key = nat
  type Tid = nat

  const MAX_KEYS: nat := 32
  /** `g_num_keys` is a uint32_t. */
  const COUNTER_RANGE: nat := 0x1_0000_0000

  /** Where a thread is in Register: outside, between exchange and fetch_add, between fetch_add and store. */
  datatype Pc = Outside | Won(key: Key) | Claimed(key: Key, slot: nat)

  /**
   * Where the serializer is.  `before` remembers the keys stored before it loaded the counter, `seen` the
   * slots it found keys in, and `emitted` those keys.
   */
  datatype Reader =
    | NotStarted
    | Reading(count: nat, at: nat, len: nat, written: nat, before: set<Key>, seen: seq<nat>, emitted: seq<Key>)
    | Returned(count: nat, len: nat, written: nat, before: set<Key>, emitted: seq<Key>)
    | OutOfBounds(count: nat)

  /** `fetched` and `stored` remember which keys got past fetch_add and past the store. */
  datatype State = State(
    registered: set<Key>, numKeys: nat, slots: seq<Option<Key>>, threads: map<Tid, Pc>, reader: Reader,
    fetched: set<Key>, stored: set<Key>)

  predicate Init(s: State) {
    s.registered == {} && s.numKeys == 0 && s.slots == seq(MAX_KEYS, _ => None) && s.threads == map[] &&
    s.reader == NotStarted && s.fetched == {} && s.stored == {}
  }

  function PcOf(s: State, t: Tid): Pc {
    if t in s.threads then s.threads[t] else Outside
  }

  /** `registered_.exchange(true)`: the thread that finds false goes on, any other returns. */
  predicate Exchange(s: State, s': State, t: Tid, k: Key) {
    PcOf(s, t) == Outside &&
    s' == if k in s.registered then s
          else s.(registered := s.registered + {k}, threads := s.threads[t := Won(k)])
  }

  /** `g_num_keys.fetch_add(1)`: beyond the last slot the key is given up. */
  predicate FetchAdd(s: State, s': State, t: Tid) {
    var pc := PcOf(s, t);
    pc.Won? &&
    s' == s.(numKeys := (s.numKeys + 1) % COUNTER_RANGE,
             fetched := s.fetched + {pc.key},
             threads := s.threads[t := if s.numKeys >= MAX_KEYS then Outside else Claimed(pc.key, s.numKeys)])
  }

  /** `g_keys[slot].store(this)` */
  predicate Store(s: State, s': State, t: Tid) {
    var pc := PcOf(s, t);
    pc.Claimed? && pc.slot < |s.slots| &&
    s' == s.(slots := s.slots[pc.slot := Some(pc.key)], stored := s.stored + {pc.key},
             threads := s.threads[t := Outside])
  }

  /** `g_num_keys.load()`, with a buffer of `len` bytes. */
  predicate Load(s: State, s': State, len: nat) {
    s.reader == NotStarted && s' == s.(reader := Reading(s.numKeys, 0, len, 0, s.stored, [], []))
  }

  /**
   * One turn of the loop: load a slot; if it holds a key, ToString writes `w` bytes, which by the contract
   * of SprintfTrunc leaves room for the terminator.
   */
  predicate Visit(s: State, s': State, w: nat) {
    s.reader.Reading? &&
    var r := s.reader;
    r.at < r.count && r.written < r.len &&
    if r.at >= |s.slots| then s' == s.(reader := OutOfBounds(r.count))
    else if s.slots[r.at].None? then s' == s.(reader := r.(at := r.at + 1))
    else
      w < r.len - r.written &&
      s' == s.(reader := r.(at := r.at + 1, written := r.written + w, seen := r.seen + [r.at],
                            emitted := r.emitted + [s.slots[r.at].value]))
  }

  /** The loop ends. */
  predicate Return(s: State, s': State) {
    s.reader.Reading? &&
    var r := s.reader;
    !(r.at < r.count && r.written < r.len) &&
    s' == s.(reader := Returned(r.count, r.len, r.written, r.before, r.emitted))
  }

  ghost predicate Next(s: State, s': State) {
    (exists t, k :: Exchange(s, s', t, k)) ||
    (exists t :: FetchAdd(s, s', t)) ||
    (exists t :: Store(s, s', t)) ||
    (exists len :: Load(s, s', len)) ||
    (exists w :: Visit(s, s', w)) ||
    Return(s, s')
  }

  /** A run of the system: every interleaving of every number of calls is one of these. */
  ghost predicate IsRun(run: seq<State>) {
    run != [] && Init(run[0]) && forall i :: 0 < i < |run| ==> Next(run[i - 1], run[i])
  }

  // ----- what registration keeps

  /** The key a thread is registering, if any. */
  predicate Holds(s: State, t: Tid, k: Key) {
    PcOf(s, t) == Won(k) || (PcOf(s, t).Claimed? && PcOf(s, t).key == k)
  }

  ghost predicate Registration(s: State) {
    |s.slots| == MAX_KEYS &&
    s.stored <= s.fetched <= s.registered && |s.fetched| == s.numKeys &&
    // a key is held by one thread at most, and not after it has been stored
    (forall t, k :: Holds(s, t, k) ==> k in s.registered && k !in s.stored) &&
    (forall t, u, k :: Holds(s, t, k) && Holds(s, u, k) ==> t == u) &&
    (forall t :: PcOf(s, t).Won? ==> PcOf(s, t).key !in s.fetched) &&
    (forall t :: PcOf(s, t).Claimed? ==>
       PcOf(s, t).key in s.fetched && PcOf(s, t).slot < MAX_KEYS && PcOf(s, t).slot < s.numKeys &&
       s.slots[PcOf(s, t).slot] == None) &&
    (forall t, u :: PcOf(s, t).Claimed? && PcOf(s, u).Claimed? && PcOf(s, t).slot == PcOf(s, u).slot ==> t == u) &&
    // the slots hold exactly the stored keys, each once, below the counter
    (forall i :: 0 <= i < MAX_KEYS && s.slots[i].Some? ==> i < s.numKeys && s.slots[i].value in s.stored) &&
    (forall i, j ::
       0 <= i < MAX_KEYS && 0 <= j < MAX_KEYS && s.slots[i].Some? && s.slots[i] == s.slots[j] ==> i == j) &&
    forall k :: k in s.stored ==> exists i :: 0 <= i < MAX_KEYS && s.slots[i] == Some(k)
  }

  /** What the serializer knows. */
  ghost predicate Serializing(s: State) {
    match s.reader
    case NotStarted => true
    case OutOfBounds(count) => count > MAX_KEYS
    case Reading(count, at, len, written, before, seen, emitted) =>
      before <= s.stored && at <= MAX_KEYS && (len > 0 ==> written < len) && |seen| == |emitted| &&
      (forall j :: 0 <= j < |seen| ==>
         seen[j] < at && seen[j] < |s.slots| && s.slots[seen[j]] == Some(emitted[j])) &&
      (forall i, j :: 0 <= i < j < |seen| ==> seen[i] < seen[j]) &&
      forall i :: 0 <= i < |s.slots| && s.slots[i].Some? && s.slots[i].value in before ==>
        i < count && (i < at ==> s.slots[i].value in emitted)
    case Returned(count, len, written, before, emitted) =>
      (forall k :: k in emitted ==> k in s.stored) &&
      (forall i, j :: 0 <= i < j < |emitted| ==> emitted[i] != emitted[j]) &&
      (len > 0 ==> written < len && count <= MAX_KEYS && forall k :: k in before ==> k in emitted)
  }

  ghost predicate Inv(s: State) {
    Registration(s) && Serializing(s)
  }

  lemma ExchangeKeeps(s: State, s': State, t: Tid, k: Key)
    requires Registration(s) && Exchange(s, s', t, k)
    ensures Registration(s')
  {
    if s' != s {
      assert forall u :: PcOf(s', u) == if u == t then Won(k) else PcOf(s, u);
      assert forall u, x :: Holds(s', u, x) ==> Holds(s, u, x) || (u == t && x == k);
    }
  }

  lemma FetchAddKeeps(s: State, s': State, t: Tid)
    requires Registration(s) && FetchAdd(s, s', t) && |s.registered| < COUNTER_RANGE
    ensures Registration(s')
  {
    var k := PcOf(s, t).key;
    assert Holds(s, t, k);
    assert forall u :: u != t ==> PcOf(s', u) == PcOf(s, u);
    assert forall u, x :: Holds(s', u, x) ==> Holds(s, u, x);
    forall u | PcOf(s', u).Won? ensures PcOf(s', u).key != k {
      assert Holds(s, u, PcOf(s, u).key);
    }
    SubsetSize(s.fetched + {k}, s.registered);
    assert s'.numKeys == s.numKeys + 1;
    assert forall i :: 0 <= i < MAX_KEYS && i == s.numKeys ==> s.slots[i] == None;
  }

  lemma StoreFills(s: State, s': State, t: Tid, x: Key)
    requires Registration(s) && Store(s, s', t) && x in s'.stored
    ensures exists i :: 0 <= i < MAX_KEYS && s'.slots[i] == Some(x)
  {
    var k, slot := PcOf(s, t).key, PcOf(s, t).slot;
    if x == k {
      assert s'.slots[slot] == Some(k);
    } else {
      var i :| 0 <= i < MAX_KEYS && s.slots[i] == Some(x);
      assert s'.slots[i] == Some(x);
    }
  }

  lemma StoreKeeps(s: State, s': State, t: Tid)
    requires Registration(s) && Store(s, s', t)
    ensures Registration(s')
    ensures forall i :: 0 <= i < MAX_KEYS && s.slots[i].Some? ==> s'.slots[i] == s.slots[i]
  {
    assert Holds(s, t, PcOf(s, t).key);
    assert forall u :: u != t ==> PcOf(s', u) == PcOf(s, u);
    assert forall u, x :: Holds(s', u, x) ==> Holds(s, u, x) && u != t;
    forall x | x in s'.stored ensures exists i :: 0 <= i < MAX_KEYS && s'.slots[i] == Some(x) {
      StoreFills(s, s', t, x);
    }
  }

  /** The serializer's knowledge survives a store into an empty slot. */
  lemma StoreKeepsSerializing(s: State, s': State, t: Tid)
    requires Inv(s) && Store(s, s', t)
    ensures Serializing(s')
  {
    StoreKeeps(s, s', t);
    assert Holds(s, t, PcOf(s, t).key);
  }

  lemma VisitKeeps(s: State, s': State, w: nat)
    requires Inv(s) && Visit(s, s', w)
    ensures Serializing(s')
  {
  }

  lemma ReturnKeeps(s: State, s': State)
    requires Inv(s) && Return(s, s')
    ensures Serializing(s')
  {
    var r := s.reader;
    forall k | k in r.before && r.len > 0 ensures k in r.emitted {
      var i :| 0 <= i < MAX_KEYS && s.slots[i] == Some(k);
      assert s.slots[i].value in r.before;
    }
    forall i, j | 0 <= i < j < |r.emitted| ensures r.emitted[i] != r.emitted[j] {
      assert s.slots[r.seen[i]] == Some(r.emitted[i]) && s.slots[r.seen[j]] == Some(r.emitted[j]);
    }
    forall k | k in r.emitted ensures k in s.stored {
      var j :| 0 <= j < |r.emitted| && r.emitted[j] == k;
      assert s.slots[r.seen[j]] == Some(k);
    }
  }

  lemma LoadKeeps(s: State, s': State, len: nat)
    requires Inv(s) && Load(s, s', len)
    ensures Serializing(s')
  {
  }

  /** Registration does not look at the reader. */
  lemma ReaderStepKeeps(s: State, s': State)
    requires Registration(s) && s' == s.(reader := s'.reader)
    ensures Registration(s')
  {
    assert forall t :: PcOf(s', t) == PcOf(s, t);
    assert forall t, k :: Holds(s', t, k) <==> Holds(s, t, k);
  }

  /** Every step of every thread keeps the invariant, as long as the counter does not wrap around. */
  lemma NextKeeps(s: State, s': State)
    requires Inv(s) && Next(s, s') && |s.registered| < COUNTER_RANGE
    ensures Inv(s') && s.registered <= s'.registered
  {
    if t, k :| Exchange(s, s', t, k) {
      ExchangeKeeps(s, s', t, k);
    } else if t :| FetchAdd(s, s', t) {
      FetchAddKeeps(s, s', t);
    } else if t :| Store(s, s', t) {
      StoreKeeps(s, s', t);
      StoreKeepsSerializing(s, s', t);
    } else if len :| Load(s, s', len) {
      LoadKeeps(s, s', len);
      ReaderStepKeeps(s, s');
    } else if w :| Visit(s, s', w) {
      VisitKeeps(s, s', w);
      ReaderStepKeeps(s, s');
    } else {
      ReturnKeeps(s, s');
      ReaderStepKeeps(s, s');
    }
  }

  lemma RegisteredGrows(s: State, s': State)
    requires Next(s, s')
    ensures s.registered <= s'.registered && |s.registered| <= |s'.registered|
  {
    SubsetSize(s.registered, s'.registered);
  }

  /** A run without its last step is a run. */
  ghost function Shorter(run: seq<State>): (shorter: seq<State>)
    requires IsRun(run) && |run| > 1
    ensures IsRun(shorter) && |shorter| == |run| - 1 && shorter == run[..|run| - 1]
    ensures shorter[|shorter| - 1] == run[|run| - 2] && Next(run[|run| - 2], run[|run| - 1])
    ensures |shorter[|shorter| - 1].registered| <= |run[|run| - 1].registered|
  {
    var shorter := run[..|run| - 1];
    assert Next(run[|run| - 2], run[|run| - 1]);
    assert forall i :: 0 < i < |shorter| ==> Next(run[i - 1], run[i]);
    RegisteredGrows(run[|run| - 2], run[|run| - 1]);
    shorter
  }

  lemma {:induction false} RunKeeps(run: seq<State>)
    requires IsRun(run) && |run[|run| - 1].registered| < COUNTER_RANGE
    ensures Inv(run[|run| - 1])
  {
    if |run| > 1 {
      var shorter := Shorter(run);
      RunKeeps(shorter);
      NextKeeps(run[|run| - 2], run[|run| - 1]);
    }
  }

  // ----- what every run guarantees

  /** In every reachable state a key fills at most one slot, and only after it has been registered. */
  lemma SlotsHoldRegisteredKeysOnce(run: seq<State>, i: nat, j: nat)
    requires IsRun(run) && |run[|run| - 1].registered| < COUNTER_RANGE
    requires i < MAX_KEYS && j < MAX_KEYS
    ensures var s := run[|run| - 1];
            |s.slots| == MAX_KEYS &&
            (s.slots[i].Some? ==> s.slots[i].value in s.registered) &&
            (s.slots[i].Some? && s.slots[i] == s.slots[j] ==> i == j)
  {
    RunKeeps(run);
  }

  /** No two threads are ever about to fill the same slot, nor one that is filled. */
  lemma ClaimsAreExclusive(run: seq<State>, t: Tid, u: Tid)
    requires IsRun(run) && |run[|run| - 1].registered| < COUNTER_RANGE
    requires PcOf(run[|run| - 1], t).Claimed? && PcOf(run[|run| - 1], u).Claimed?
    ensures var s := run[|run| - 1];
            PcOf(s, t).slot < |s.slots| && s.slots[PcOf(s, t).slot] == None &&
            (PcOf(s, t).slot == PcOf(s, u).slot ==> t == u)
  {
    RunKeeps(run);
  }

  // ----- a call that wins the exchange and finishes

  /** Some thread is on its way to a slot for `k`. */
  ghost predicate Held(s: State, k: Key) {
    exists t :: Holds(s, t, k)
  }

  /** No registered key is lost, unless the slots have run out. */
  ghost predicate NoneLost(s: State) {
    s.numKeys <= MAX_KEYS ==> forall k :: k in s.registered ==> Held(s, k) || k in s.stored
  }

  /** A step of thread `t` for key `k` leaves the other keys held that were held. */
  lemma OthersHold(s: State, s': State, t: Tid, k: Key)
    requires forall u :: u != t ==> PcOf(s', u) == PcOf(s, u)
    requires forall x :: Holds(s, t, x) ==> x == k
    ensures forall x :: x != k && Held(s, x) ==> Held(s', x)
  {
    forall x | x != k && Held(s, x) ensures Held(s', x) {
      var u :| Holds(s, u, x);
      assert Holds(s', u, x);
    }
  }

  lemma ExchangeLosesNone(s: State, s': State, t: Tid, k: Key)
    requires NoneLost(s) && Exchange(s, s', t, k)
    ensures NoneLost(s')
  {
    if s' != s {
      OthersHold(s, s', t, k);
      assert Holds(s', t, k);
    }
  }

  lemma FetchAddLosesNone(s: State, s': State, t: Tid)
    requires Registration(s) && NoneLost(s) && FetchAdd(s, s', t) && |s.registered| < COUNTER_RANGE
    ensures NoneLost(s')
  {
    var k := PcOf(s, t).key;
    assert Holds(s, t, k);
    SubsetSize(s.fetched + {k}, s.registered);
    OthersHold(s, s', t, k);
    if s.numKeys < MAX_KEYS {
      assert Holds(s', t, k);
    }
  }

  lemma StoreLosesNone(s: State, s': State, t: Tid)
    requires NoneLost(s) && Store(s, s', t)
    ensures NoneLost(s')
  {
    OthersHold(s, s', t, PcOf(s, t).key);
  }

  lemma ReaderLosesNone(s: State, s': State)
    requires NoneLost(s) && s' == s.(reader := s'.reader)
    ensures NoneLost(s')
  {
    assert forall t, k :: Holds(s', t, k) <==> Holds(s, t, k);
  }

  lemma NoneLostStep(s: State, s': State)
    requires Registration(s) && NoneLost(s) && Next(s, s') && |s.registered| < COUNTER_RANGE
    ensures NoneLost(s')
  {
    if t, k :| Exchange(s, s', t, k) {
      ExchangeLosesNone(s, s', t, k);
    } else if t :| FetchAdd(s, s', t) {
      FetchAddLosesNone(s, s', t);
    } else if t :| Store(s, s', t) {
      StoreLosesNone(s, s', t);
    } else {
      ReaderLosesNone(s, s');
    }
  }

  lemma {:induction false} RunLosesNone(run: seq<State>)
    requires IsRun(run) && |run[|run| - 1].registered| < COUNTER_RANGE
    ensures NoneLost(run[|run| - 1])
  {
    if |run| > 1 {
      var shorter := Shorter(run);
      RunKeeps(shorter);
      RunLosesNone(shorter);
      NoneLostStep(run[|run| - 2], run[|run| - 1]);
    }
  }

  /** With at most `MAX_KEYS` keys registered, a key is stored exactly when the call that won it has finished. */
  lemma StoredIffFinished(run: seq<State>, k: Key)
    requires IsRun(run) && |run[|run| - 1].registered| <= MAX_KEYS
    ensures var s := run[|run| - 1]; k in s.stored <==> k in s.registered && !Held(s, k)
  {
    RunKeeps(run);
    RunLosesNone(run);
    SubsetSize(run[|run| - 1].fetched, run[|run| - 1].registered);
  }

  // ----- the serializer

  lemma PrefixIsRun(run: seq<State>, n: nat)
    requires IsRun(run) && 0 < n <= |run|
    ensures IsRun(run[..n])
  {
    assert forall j :: 0 < j < n ==> Next(run[j - 1], run[j]);
  }

  /** The serializer loaded the counter in step `i`, when the keys in `before` were stored. */
  ghost predicate LoadedAt(run: seq<State>, i: nat, len: nat) {
    i + 1 < |run| && Load(run[i], run[i + 1], len)
  }

  /** A serializer that got `len` bytes has started, when the keys in `before` were stored. */
  ghost predicate Remembers(s: State, before: set<Key>, len: nat) {
    !s.reader.NotStarted? &&
    (s.reader.Reading? || s.reader.Returned? ==> s.reader.before == before && s.reader.len == len)
  }

  lemma RemembersStep(s: State, s': State, before: set<Key>, len: nat)
    requires Remembers(s, before, len) && Next(s, s')
    ensures Remembers(s', before, len)
  {
  }

  lemma {:induction false} RemembersStored(run: seq<State>, i: nat, n: nat, len: nat)
    requires IsRun(run) && i < n < |run| && LoadedAt(run, i, len)
    ensures Remembers(run[n], run[i].stored, len)
    decreases n
  {
    if n > i + 1 {
      RemembersStored(run, i, n - 1, len);
      RemembersStep(run[n - 1], run[n], run[i].stored, len);
    }
  }

  /** A serializer that returns has emitted every key stored before it loaded the counter, exactly once. */
  lemma SerializerEmitsStoredKeysOnce(run: seq<State>, k: Key)
    requires IsRun(run) && |run[|run| - 1].registered| < COUNTER_RANGE
    requires run[|run| - 1].reader.Returned? && run[|run| - 1].reader.len > 0
    ensures var r := run[|run| - 1].reader;
            k in r.before ==> exists j :: 0 <= j < |r.emitted| && r.emitted[j] == k &&
                                forall i :: 0 <= i < |r.emitted| && r.emitted[i] == k ==> i == j
    ensures k in run[|run| - 1].reader.emitted ==> k in run[|run| - 1].registered
    ensures run[|run| - 1].reader.written < run[|run| - 1].reader.len
  {
    RunKeeps(run);
    var r := run[|run| - 1].reader;
    if k in r.before {
      var j :| 0 <= j < |r.emitted| && r.emitted[j] == k;
      assert forall i :: 0 <= i < |r.emitted| && r.emitted[i] == k ==> i == j;
    }
  }

  /**
   * A serializer with a buffer that returns has emitted exactly once every key whose winning call of Register had
   * finished when it loaded the counter, as long as at most `MAX_KEYS` keys are registered by then.
   */
  lemma FinishedKeysAreEmittedOnce(run: seq<State>, i: nat, len: nat, k: Key)
    requires IsRun(run) && |run[|run| - 1].registered| < COUNTER_RANGE
    requires LoadedAt(run, i, len) && len > 0 && run[|run| - 1].reader.Returned?
    requires |run[i].registered| <= MAX_KEYS && k in run[i].registered && !Held(run[i], k)
    ensures var r := run[|run| - 1].reader;
            exists j :: 0 <= j < |r.emitted| && r.emitted[j] == k &&
              forall i :: 0 <= i < |r.emitted| && r.emitted[i] == k ==> i == j
  {
    PrefixIsRun(run, i + 1);
    StoredIffFinished(run[..i + 1], k);
    RemembersStored(run, i, |run| - 1, len);
    SerializerEmitsStoredKeysOnce(run, k);
  }

  /**
   * The loop bound is the raw counter, so a serializer with a buffer that has finished returned normally exactly
   * if the counter it loaded was at most `MAX_KEYS`.
   */
  lemma SerializerStaysInside(run: seq<State>)
    requires IsRun(run) && |run[|run| - 1].registered| < COUNTER_RANGE
    ensures var r := run[|run| - 1].reader;
            (r.OutOfBounds? ==> r.count > MAX_KEYS) &&
            (r.Returned? && r.len > 0 ==> r.count <= MAX_KEYS)
  {
    RunKeeps(run);
  }

  /** The count a serializer works with was the size of a set of registered keys. */
  predicate CountBounded(s: State) {
    s.reader.NotStarted? || s.reader.count <= |s.registered|
  }

  lemma CountBoundedStep(s: State, s': State)
    requires CountBounded(s) && Registration(s) && Next(s, s')
    ensures CountBounded(s')
  {
    RegisteredGrows(s, s');
    SubsetSize(s.fetched, s.registered);
  }

  lemma {:induction false} ReaderCountBounded(run: seq<State>)
    requires IsRun(run) && |run[|run| - 1].registered| < COUNTER_RANGE
    ensures CountBounded(run[|run| - 1])
  {
    if |run| > 1 {
      var shorter := Shorter(run);
      ReaderCountBounded(shorter);
      RunKeeps(shorter);
      CountBoundedStep(run[|run| - 2], run[|run| - 1]);
    }
  }

  lemma FewKeysStayInside(run: seq<State>)
    requires IsRun(run) && |run[|run| - 1].registered| <= MAX_KEYS
    ensures !run[|run| - 1].reader.OutOfBounds?
  {
    RunKeeps(run);
    ReaderCountBounded(run);
  }

  // ----- a run that leaves the array

  lemma ExtendRun(run: seq<State>, s: State)
    requires IsRun(run) && Next(run[|run| - 1], s)
    ensures IsRun(run + [s])
  {
    var longer := run + [s];
    forall i | 0 < i < |longer| ensures Next(longer[i - 1], longer[i]) {
      if i < |run| {
        assert Next(run[i - 1], run[i]);
      }
    }
  }

  function FirstKeys(n: nat): (keys: set<Key>)
    ensures forall k: Key :: k in keys <==> k < n
  {
    if n == 0 then {} else FirstKeys(n - 1) + {n - 1}
  }

  lemma {:induction false} FirstKeysSize(n: nat)
    ensures |FirstKeys(n)| == n
  {
    if n > 0 {
      FirstKeysSize(n - 1);
    }
  }

  /** Threads 0 to n - 1 have each fetched a slot for the key of the same number, and stored nothing yet. */
  function Fetched(n: nat): State {
    State(FirstKeys(n), n, seq(MAX_KEYS, _ => None),
          map t | t in FirstKeys(n) :: if t < MAX_KEYS then Claimed(t, t) else Outside, NotStarted, FirstKeys(n), {})
  }

  /** The next thread has won the exchange. */
  function NextWon(n: nat): State {
    var s := Fetched(n);
    s.(registered := s.registered + {n}, threads := s.threads[n := Won(n)])
  }

  lemma FetchSteps(n: nat)
    requires n + 1 < COUNTER_RANGE
    ensures Exchange(Fetched(n), NextWon(n), n, n) && FetchAdd(NextWon(n), Fetched(n + 1), n)
  {
    var s, won, s' := Fetched(n), NextWon(n), Fetched(n + 1);
    assert PcOf(s, n) == Outside && PcOf(won, n) == Won(n);
    assert s'.threads == won.threads[n := if n < MAX_KEYS then Claimed(n, n) else Outside];
    assert s'.registered == won.registered && s'.fetched == won.fetched + {n};
  }

  lemma {:induction false} FetchRun(n: nat) returns (run: seq<State>)
    requires n < COUNTER_RANGE
    ensures IsRun(run) && run[|run| - 1] == Fetched(n)
  {
    if n == 0 {
      assert Fetched(0).threads == map[];
      run := [Fetched(0)];
    } else {
      run := FetchRun(n - 1);
      FetchSteps(n - 1);
      ExtendRun(run, NextWon(n - 1));
      ExtendRun(run + [NextWon(n - 1)], Fetched(n));
      run := run + [NextWon(n - 1)] + [Fetched(n)];
    }
  }

  /** A reader finds the first `at` slots empty. */
  lemma {:induction false} EmptyVisits(run0: seq<State>, s: State, count: nat, at: nat) returns (run: seq<State>)
    requires IsRun(run0) && run0[|run0| - 1] == s.(reader := Reading(count, 0, 1, 0, {}, [], []))
    requires s.slots == seq(MAX_KEYS, _ => None) && at <= MAX_KEYS < count
    ensures IsRun(run) && run[|run| - 1] == s.(reader := Reading(count, at, 1, 0, {}, [], []))
  {
    if at == 0 {
      run := run0;
    } else {
      run := EmptyVisits(run0, s, count, at - 1);
      var next := s.(reader := Reading(count, at, 1, 0, {}, [], []));
      assert Visit(run[|run| - 1], next, 0);
      ExtendRun(run, next);
      run := run + [next];
    }
  }

  /** One key more than there are slots, and a serializer runs off the end of the array. */
  lemma RunOutOfBounds() returns (run: seq<State>)
    ensures IsRun(run) && |run[|run| - 1].registered| == MAX_KEYS + 1
    ensures run[|run| - 1].reader.OutOfBounds?
  {
    run := FetchRun(MAX_KEYS + 1);
    var s := Fetched(MAX_KEYS + 1);
    var reading := s.(reader := Reading(MAX_KEYS + 1, 0, 1, 0, {}, [], []));
    assert Load(s, reading, 1);
    ExtendRun(run, reading);
    run := EmptyVisits(run + [reading], s, MAX_KEYS + 1, MAX_KEYS);
    var out := s.(reader := OutOfBounds(MAX_KEYS + 1));
    assert Visit(run[|run| - 1], out, 0);
    ExtendRun(run, out);
    run := run + [out];
    FirstKeysSize(MAX_KEYS + 1);
  }

  ghost predicate EndsOutOfBounds(run: seq<State>, limit: nat) {
    IsRun(run) && |run[|run| - 1].registered| <= limit && run[|run| - 1].reader.OutOfBounds?
  }

  /** The serializer can leave the array exactly when more than `MAX_KEYS` keys may be registered. */
  lemma LeavesArrayIffManyKeys(limit: nat)
    ensures limit > MAX_KEYS <==>
            exists run :: EndsOutOfBounds(run, limit)
  {
    if limit > MAX_KEYS {
      var run := RunOutOfBounds();
      assert EndsOutOfBounds(run, limit);
    } else {
      forall run: seq<State> | IsRun(run) && |run[|run| - 1].registered| <= limit
        ensures !EndsOutOfBounds(run, limit)
      {
        FewKeysStayInside(run);
      }
    }
  }

  /** Beyond that, a call can win the exchange and finish, and its key is never stored. */
  lemma KeyWithoutSlot() returns (run: seq<State>, k: Key)
    ensures IsRun(run) && |run[|run| - 1].registered| == MAX_KEYS + 1
    ensures var s := run[|run| - 1]; k in s.registered && !Held(s, k) && k !in s.stored
  {
    run := FetchRun(MAX_KEYS + 1);
    k := MAX_KEYS;
    FirstKeysSize(MAX_KEYS + 1);
  }

  /** The run ends with a key whose winning call has returned and which is not stored. */
  ghost predicate LosesKey(run: seq<State>, limit: nat, k: Key) {
    IsRun(run) &&
    var s := run[|run| - 1];
    |s.registered| <= limit && k in s.registered && !Held(s, k) && k !in s.stored
  }

  /** A call can win, return and leave its key out exactly when more than `MAX_KEYS` keys may be registered. */
  lemma LosesKeyIffManyKeys(limit: nat)
    ensures limit > MAX_KEYS <==> exists run, k :: LosesKey(run, limit, k)
  {
    if limit > MAX_KEYS {
      var run, k := KeyWithoutSlot();
      assert LosesKey(run, limit, k);
    } else {
      forall run: seq<State>, k ensures !LosesKey(run, limit, k) {
        if IsRun(run) && |run[|run| - 1].registered| <= limit {
          StoredIffFinished(run, k);
        }
      }
    }
  }

  /**
   * Only the call that won the exchange promises anything.  Here thread 1 comes back from Register(k) while
   * thread 0 is still on its way to the slot, and a serializer that starts afterwards misses `k`.
   */
  lemma LosingCallPromisesNothing(k: Key) returns (run: seq<State>)
    ensures |run| == 5 && IsRun(run)
    ensures Exchange(run[1], run[2], 1, k) && PcOf(run[2], 1) == Outside
    ensures run[2].reader == NotStarted && run[4].reader.Returned? && run[4].reader.len > 0
    ensures k !in run[4].reader.emitted
  {
    var s0 := State({}, 0, seq(MAX_KEYS, _ => None), map[], NotStarted, {}, {});
    var s1 := s0.(registered := {k}, threads := map[0 := Won(k)]);
    var s3 := s1.(reader := Reading(0, 0, 1, 0, {}, [], []));
    var s4 := s3.(reader := Returned(0, 1, 0, {}, []));
    run := [s0, s1, s1, s3, s4];
    assert Exchange(s0, s1, 0, k) && Exchange(s1, s1, 1, k) && Load(s1, s3, 1) && Return(s3, s4);
  }
}
