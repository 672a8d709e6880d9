/**
  * `ReedSolomonCache::get` under concurrency (src/lib.rs:665-701): a shared read, on a miss a second look
  * and an insertion under the exclusive lock, and a one-time initialization outside of both.
  */
module Cache {
  import opened Wrappers

  type Key = (nat, nat)
  type ThreadId = nat
  type EntryId = nat

  /** The contents of an `Arc<OnceLock<V>>`. While one thread runs the initializer all others wait. */
  datatype Cell<V> = Empty | Running(runner: ThreadId) | Full(value: V)

  /** Where one call of `get` stands. */
  datatype Pc<V> =
    | Idle
    | Missed
    | HasEntry(entry: EntryId)
    | Initializing(entry: EntryId)
    | Done(entry: EntryId, value: V)

  datatype Thread<V> = Thread(key: Key, pc: Pc<V>)

  /**
    * The cache maps keys to entries. Entries are numbered as they are allocated; `keyOf` remembers the key
    * an entry was allocated for and `inits` counts the runs of its initializer.
    */
  datatype State<V> = State(
    cache: map<Key, EntryId>, cells: seq<Cell<V>>, keyOf: seq<Key>, inits: seq<nat>, threads: seq<Thread<V>>)

  datatype Action<V> =
    | ReadHit
    | ReadMiss
    | WriteFinds
    | WriteInserts(evicted: set<Key>)
    | StartInit
    | FinishInit
    | ReadValue
    | Evict(evicted: set<Key>)

  function Initial<V>(keys: seq<Key>): State<V> {
    State(map[], [], [], [], seq(|keys|, i requires 0 <= i < |keys| => Thread(keys[i], Idle)))
  }

  function At<V>(s: State<V>, t: ThreadId, pc: Pc<V>): State<V>
    requires t < |s.threads|
  {
    s.(threads := s.threads[t := s.threads[t].(pc := pc)])
  }

  /** One atomic step of thread `t`; an eviction may strike at any time, and any keys. */
  predicate Step<V(==)>(make: Key -> V, s: State<V>, s': State<V>, t: ThreadId, a: Action<V>)
    requires |s.cells| == |s.keyOf| == |s.inits|
  {
    if a.Evict? then s' == s.(cache := s.cache - a.evicted) else
      && t < |s.threads|
      && var key, pc := s.threads[t].key, s.threads[t].pc;
         match a
         case ReadHit => pc.Idle? && key in s.cache && s' == At(s, t, HasEntry(s.cache[key]))
         case ReadMiss => pc.Idle? && key !in s.cache && s' == At(s, t, Missed)
         case WriteFinds => pc.Missed? && key in s.cache && s' == At(s, t, HasEntry(s.cache[key]))
         case WriteInserts(evicted) =>
           && pc.Missed? && key !in s.cache && key !in evicted
           && var entry := |s.cells|;
              s' == At(s, t, HasEntry(entry)).(cache := (s.cache - evicted)[key := entry],
                cells := s.cells + [Empty], keyOf := s.keyOf + [key], inits := s.inits + [0])
         case StartInit =>
           && pc.HasEntry? && pc.entry < |s.cells| && s.cells[pc.entry].Empty?
           && s' == At(s, t, Initializing(pc.entry)).(cells := s.cells[pc.entry := Running(t)],
                inits := s.inits[pc.entry := s.inits[pc.entry] + 1])
         case FinishInit =>
           && pc.Initializing? && pc.entry < |s.cells|
           && s' == At(s, t, Done(pc.entry, make(key))).(cells := s.cells[pc.entry := Full(make(key))])
         case ReadValue =>
           && pc.HasEntry? && pc.entry < |s.cells| && s.cells[pc.entry].Full?
           && s' == At(s, t, Done(pc.entry, s.cells[pc.entry].value))
         case Evict(_) => true
  }

  // ----- The invariant -----

  predicate ThreadInv<V(==)>(make: Key -> V, s: State<V>, t: ThreadId)
    requires |s.cells| == |s.keyOf| && t < |s.threads|
  {
    var key := s.threads[t].key;
    match s.threads[t].pc
    case Idle => true
    case Missed => true
    case HasEntry(e) => e < |s.cells| && s.keyOf[e] == key
    case Initializing(e) => e < |s.cells| && s.keyOf[e] == key && s.cells[e] == Running(t)
    case Done(e, v) => e < |s.cells| && s.keyOf[e] == key && s.cells[e] == Full(v) && v == make(key)
  }

  predicate CellInv<V(==)>(make: Key -> V, s: State<V>, e: EntryId)
    requires |s.cells| == |s.keyOf| == |s.inits| && e < |s.cells|
  {
    match s.cells[e]
    case Empty => s.inits[e] == 0
    case Running(t) => s.inits[e] == 1 && t < |s.threads| && s.threads[t].pc == Initializing(e)
    case Full(v) => s.inits[e] == 1 && v == make(s.keyOf[e])
  }

  predicate Inv<V(==)>(make: Key -> V, s: State<V>) {
    && |s.cells| == |s.keyOf| == |s.inits|
    && (forall k :: k in s.cache ==> s.cache[k] < |s.cells| && s.keyOf[s.cache[k]] == k)
    && (forall e :: 0 <= e < |s.cells| ==> CellInv(make, s, e))
    && (forall t :: 0 <= t < |s.threads| ==> ThreadInv(make, s, t))
  }

  lemma InitialInv<V>(make: Key -> V, keys: seq<Key>)
    ensures Inv(make, Initial(keys))
  {
  }

  /** What a step does to one cell, given that the stepping thread and the cell were in order. */
  lemma StepKeepsCell<V>(make: Key -> V, s: State<V>, s': State<V>, t: ThreadId, a: Action<V>, e: EntryId)
    requires Inv(make, s) && Step(make, s, s', t, a)
    ensures |s'.cells| == |s'.keyOf| == |s'.inits| >= |s.cells|
    ensures e < |s'.cells| ==> CellInv(make, s', e)
  {
    if e < |s.cells| {
      assert CellInv(make, s, e);
    }
    if !a.Evict? {
      assert ThreadInv(make, s, t);
    }
  }

  lemma StepKeepsThread<V>(make: Key -> V, s: State<V>, s': State<V>, t: ThreadId, a: Action<V>, u: ThreadId)
    requires Inv(make, s) && Step(make, s, s', t, a) && u < |s.threads|
    requires |s'.cells| == |s'.keyOf|
    ensures |s'.threads| == |s.threads| && ThreadInv(make, s', u)
  {
    assert ThreadInv(make, s, u);
    if !a.Evict? {
      assert ThreadInv(make, s, t);
      if a.ReadValue? {
        assert CellInv(make, s, s.threads[t].pc.entry);
      }
    }
  }

  lemma StepKeepsInv<V>(make: Key -> V, s: State<V>, s': State<V>, t: ThreadId, a: Action<V>)
    requires Inv(make, s) && Step(make, s, s', t, a)
    ensures Inv(make, s')
  {
    StepKeepsCell(make, s, s', t, a, 0);
    forall e | 0 <= e < |s'.cells| ensures CellInv(make, s', e) {
      StepKeepsCell(make, s, s', t, a, e);
    }
    forall u | 0 <= u < |s'.threads| ensures ThreadInv(make, s', u) {
      StepKeepsThread(make, s, s', t, a, u);
    }
  }

  // ----- Runs -----

  datatype Event<V> = Event(thread: ThreadId, action: Action<V>)

  predicate StepsAt<V(==)>(make: Key -> V, states: seq<State<V>>, events: seq<Event<V>>, i: nat)
    requires i < |events| < |states|
  {
    && |states[i].cells| == |states[i].keyOf| == |states[i].inits|
    && Step(make, states[i], states[i + 1], events[i].thread, events[i].action)
  }

  /** A run: the states passed through, each following from the one before. */
  predicate IsRun<V(==)>(make: Key -> V, states: seq<State<V>>, events: seq<Event<V>>) {
    && |states| == |events| + 1
    && forall i :: 0 <= i < |events| ==> StepsAt(make, states, events, i)
  }

  lemma {:induction false} RunKeepsInv<V>(make: Key -> V, states: seq<State<V>>, events: seq<Event<V>>, n: nat)
    requires IsRun(make, states, events) && n < |states| && Inv(make, states[0])
    ensures Inv(make, states[n])
    decreases n
  {
    if n > 0 {
      RunKeepsInv(make, states, events, n - 1);
      assert StepsAt(make, states, events, n - 1);
      StepKeepsInv(make, states[n - 1], states[n], events[n - 1].thread, events[n - 1].action);
    }
  }

  /**
    * Under every interleaving and every eviction, a finished call has what direct construction for its key
    * yields, and no entry is initialized more than once.
    */
  lemma CacheAgreesWithConstruction<V>(make: Key -> V, keys: seq<Key>, states: seq<State<V>>, events: seq<Event<V>>,
      n: nat)
    requires IsRun(make, states, events) && states[0] == Initial(keys) && n < |states|
    ensures forall t :: 0 <= t < |states[n].threads| && states[n].threads[t].pc.Done? ==>
              states[n].threads[t].pc.value == make(states[n].threads[t].key)
    ensures forall e :: 0 <= e < |states[n].inits| ==> states[n].inits[e] <= 1
  {
    InitialInv(make, keys);
    RunKeepsInv(make, states, events, n);
    forall t | 0 <= t < |states[n].threads| && states[n].threads[t].pc.Done?
      ensures states[n].threads[t].pc.value == make(states[n].threads[t].key)
    {
      assert ThreadInv(make, states[n], t);
    }
    forall e | 0 <= e < |states[n].inits| ensures states[n].inits[e] <= 1 {
      assert CellInv(make, states[n], e);
    }
  }

  // ----- Sharing -----

  /** The step does not evict the key. */
  predicate Spares<V>(a: Action<V>, key: Key) {
    (a.Evict? || a.WriteInserts?) ==> key !in a.evicted
  }

  /** The entry a call has obtained. */
  function EntryOf<V>(pc: Pc<V>): Option<EntryId> {
    match pc
    case HasEntry(e) => Some(e)
    case Initializing(e) => Some(e)
    case Done(e, _) => Some(e)
    case _ => None
  }

  /** A call for `key` that obtains its entry in this step obtains the one that is cached afterwards. */
  lemma ObtainsCachedEntry<V>(make: Key -> V, s: State<V>, s': State<V>, t: ThreadId, a: Action<V>, u: ThreadId,
      key: Key)
    requires Inv(make, s) && Step(make, s, s', t, a) && Spares(a, key)
    requires u < |s.threads| && s.threads[u].key == key
    ensures u < |s'.threads| && s'.threads[u].key == key
    ensures EntryOf(s.threads[u].pc).Some? ==> EntryOf(s'.threads[u].pc) == EntryOf(s.threads[u].pc)
    ensures EntryOf(s.threads[u].pc).None? && EntryOf(s'.threads[u].pc).Some? ==>
              key in s'.cache && EntryOf(s'.threads[u].pc).value == s'.cache[key]
    ensures key in s.cache ==> key in s'.cache && s'.cache[key] == s.cache[key]
  {
  }

  lemma {:induction false} EntryStaysCached<V>(make: Key -> V, states: seq<State<V>>, events: seq<Event<V>>,
      start: nat, until: nat, key: Key)
    requires IsRun(make, states, events) && start <= until < |states| && Inv(make, states[0])
    requires forall i :: start <= i < until ==> Spares(events[i].action, key)
    requires key in states[start].cache
    ensures key in states[until].cache && states[until].cache[key] == states[start].cache[key]
    decreases until
  {
    if start < until {
      EntryStaysCached(make, states, events, start, until - 1, key);
      assert StepsAt(make, states, events, until - 1);
    }
  }

  /** The call is for the key, and its entry, if it has one, is the cached one. */
  predicate SharesCached<V>(s: State<V>, u: ThreadId, key: Key) {
    && u < |s.threads| && s.threads[u].key == key
    && (EntryOf(s.threads[u].pc).Some? ==>
          key in s.cache && EntryOf(s.threads[u].pc).value == s.cache[key])
  }

  lemma StepKeepsSharing<V>(make: Key -> V, s: State<V>, s': State<V>, t: ThreadId, a: Action<V>, u: ThreadId, key: Key)
    requires Inv(make, s) && Step(make, s, s', t, a) && Spares(a, key) && SharesCached(s, u, key)
    ensures SharesCached(s', u, key)
  {
    ObtainsCachedEntry(make, s, s', t, a, u, key);
  }

  /** A call that obtained its entry while the key was spared has the entry that is cached at the end. */
  lemma {:induction false} ObtainedWhileSpared<V>(make: Key -> V, states: seq<State<V>>, events: seq<Event<V>>,
      start: nat, until: nat, u: ThreadId, key: Key)
    requires IsRun(make, states, events) && start <= until < |states| && Inv(make, states[0])
    requires forall i :: start <= i < until ==> Spares(events[i].action, key)
    requires SharesCached(states[start], u, key)
    ensures SharesCached(states[until], u, key)
    decreases until
  {
    if start < until {
      ObtainedWhileSpared(make, states, events, start, until - 1, u, key);
      RunKeepsInv(make, states, events, until - 1);
      assert StepsAt(make, states, events, until - 1);
      var event := events[until - 1];
      StepKeepsSharing(make, states[until - 1], states[until], event.thread, event.action, u, key);
    }
  }

  /** Calls for one key that obtain their entries between two evictions of that key share one entry. */
  lemma CallersShareEntry<V>(make: Key -> V, states: seq<State<V>>, events: seq<Event<V>>, start: nat, until: nat,
      t: ThreadId, u: ThreadId, key: Key)
    requires IsRun(make, states, events) && start <= until < |states| && Inv(make, states[0])
    requires forall i :: start <= i < until ==> Spares(events[i].action, key)
    requires t < |states[start].threads| && u < |states[start].threads|
    requires states[start].threads[t].key == states[start].threads[u].key == key
    requires EntryOf(states[start].threads[t].pc).None? && EntryOf(states[start].threads[u].pc).None?
    ensures t < |states[until].threads| && u < |states[until].threads|
    ensures EntryOf(states[until].threads[t].pc).Some? && EntryOf(states[until].threads[u].pc).Some? ==>
              EntryOf(states[until].threads[t].pc) == EntryOf(states[until].threads[u].pc)
  {
    ObtainedWhileSpared(make, states, events, start, until, t, key);
    ObtainedWhileSpared(make, states, events, start, until, u, key);
  }

  // ----- Determinism -----

  /** In every state a call has at most one step to take; only what an insertion evicts besides is left open. */
  lemma CallsAreDeterministic<V>(make: Key -> V, s: State<V>, s1: State<V>, s2: State<V>, t: ThreadId, a: Action<V>,
      b: Action<V>)
    requires |s.cells| == |s.keyOf| == |s.inits| && !a.Evict? && !b.Evict?
    requires Step(make, s, s1, t, a) && Step(make, s, s2, t, b)
    ensures a == b || (a.WriteInserts? && b.WriteInserts?)
    ensures a == b ==> s1 == s2
    ensures s1.(cache := s.cache) == s2.(cache := s.cache)
  {
  }

  // ----- Progress -----

  /** No call can be stuck: whatever an unfinished call waits for, some thread can take a step. */
  lemma NeverStuck<V>(make: Key -> V, s: State<V>, t: ThreadId) returns (s': State<V>, stepper: ThreadId, a: Action<V>)
    requires Inv(make, s) && t < |s.threads| && !s.threads[t].pc.Done?
    ensures stepper < |s.threads| && !a.Evict? && Step(make, s, s', stepper, a)
    ensures stepper == t || (&& s.threads[t].pc.HasEntry? && s.threads[t].pc.entry < |s.cells|
                             && s.cells[s.threads[t].pc.entry] == Running(stepper))
  {
    var key, pc := s.threads[t].key, s.threads[t].pc;
    assert ThreadInv(make, s, t);
    stepper := t;
    match pc {
      case Idle =>
        if key in s.cache {
          a, s' := ReadHit, At(s, t, HasEntry(s.cache[key]));
        } else {
          a, s' := ReadMiss, At(s, t, Missed);
        }
      case Missed =>
        if key in s.cache {
          a, s' := WriteFinds, At(s, t, HasEntry(s.cache[key]));
        } else {
          a, s' := WriteInserts({}), At(s, t, HasEntry(|s.cells|)).(cache := (s.cache - {})[key := |s.cells|],
            cells := s.cells + [Empty], keyOf := s.keyOf + [key], inits := s.inits + [0]);
        }
      case HasEntry(e) =>
        assert CellInv(make, s, e);
        match s.cells[e] {
          case Empty =>
            a, s' := StartInit, At(s, t, Initializing(e)).(cells := s.cells[e := Running(t)],
              inits := s.inits[e := s.inits[e] + 1]);
          case Running(u) =>
            stepper, a := u, FinishInit;
            var made := make(s.threads[u].key);
            s' := At(s, u, Done(e, made)).(cells := s.cells[e := Full(made)]);
          case Full(v) =>
            a, s' := ReadValue, At(s, t, Done(e, v));
        }
      case Initializing(e) =>
        var made := make(key);
        a, s' := FinishInit, At(s, t, Done(e, made)).(cells := s.cells[e := Full(made)]);
    }
  }
}
