/** The lock manager object: a map from keys to shared entries that its methods update in
    place. Each method is proved to do to the heap what the functions of LockTable say. */
module FileLockManager {
  import opened LockTable

  class LockEntry {
    ghost const id: nat
    var readers: nat
    var writer: bool
    var refCount: int

    constructor (ghost id: nat)
      ensures this.id == id && Value() == FRESH_ENTRY
    {
      this.id := id;
      readers, writer, refCount := 0, false, 0;
    }

    ghost function Value(): Entry reads this { Entry(readers, writer, refCount) }

    /** unlock() of the lock library */
    method Unlock()
      modifies this
      ensures Value() == Unlocked(old(Value()))
    {
      if writer { writer := false; }
      else if readers > 0 { readers := readers - 1; }
    }
  }

  /** The closure returned by createReleaseFunction. */
  class ReleaseFunction {
    const key: Key
    const entry: LockEntry
    var released: bool

    constructor (key: Key, entry: LockEntry)
      ensures this.key == key && this.entry == entry && !released
    {
      this.key, this.entry, released := key, entry, false;
    }

    /** Runs the closure: the first call unlocks and decrements, every later call does nothing. */
    method Run(manager: Manager)
      requires manager.Valid() && entry in manager.created
      modifies this, manager.created
      ensures manager.Valid() && released && manager.created == old(manager.created)
      ensures manager.Abs() == if old(released) then old(manager.Abs())
                               else Release(old(manager.Abs()), key, entry.id)
    {
      if released { return; }
      released := true;
      entry.Unlock();
      assert manager.Valid();
      assert manager.Abs().heap == old(manager.Abs()).heap[entry.id := Unlocked(old(entry.Value()))];
      manager.DecrementRef(key);
    }
  }

  /** The values of a list of entries, in order. */
  ghost function Values(es: seq<LockEntry>): (r: seq<Entry>)
    reads es
    ensures |r| == |es| && forall i :: 0 <= i < |es| ==> r[i] == es[i].Value()
  {
    if es == [] then [] else Values(es[..|es| - 1]) + [es[|es| - 1].Value()]
  }

  /** The identities stored in a lock map. */
  ghost function Ids(locks: map<Key, LockEntry>): map<Key, nat> {
    map k | k in locks :: locks[k].id
  }

  lemma IdsUpdate(locks: map<Key, LockEntry>, key: Key, entry: LockEntry)
    ensures Ids(locks[key := entry]) == Ids(locks)[key := entry.id]
  {}

  predicate Shared(locks: map<Key, LockEntry>, k: Key, l: Key) {
    k in locks && l in locks && k != l && locks[k] == locks[l]
  }

  /** Entries know their place, the stored ones are known, and no two keys share one. */
  ghost predicate Consistent(locks: map<Key, LockEntry>, created: seq<LockEntry>) {
    && (forall i :: 0 <= i < |created| ==> created[i].id == i)
    && (forall k :: k in locks ==> locks[k].id < |created| && created[locks[k].id] == locks[k])
    && (forall k, l {:trigger Shared(locks, k, l)} :: !Shared(locks, k, l))
  }

  lemma StoreConsistent(locks: map<Key, LockEntry>, created: seq<LockEntry>, key: Key, entry: LockEntry)
    requires Consistent(locks, created) && key !in locks && entry.id == |created|
    ensures Consistent(locks[key := entry], created + [entry])
  {
    var locks' := locks[key := entry];
    forall k, l ensures !Shared(locks', k, l) { assert !Shared(locks, k, l); }
  }

  lemma SubsetConsistent(locks: map<Key, LockEntry>, created: seq<LockEntry>, gone: set<Key>)
    requires Consistent(locks, created)
    ensures Consistent(locks - gone, created)
  {
    forall k, l ensures !Shared(locks - gone, k, l) { assert !Shared(locks, k, l); }
  }

  lemma Abstracts(locks: map<Key, LockEntry>, created: seq<LockEntry>)
    requires Consistent(locks, created)
    ensures WellFormed(Memory(Ids(locks), Values(created)))
  {
    forall k, l | k in locks && l in locks && locks[k].id == locks[l].id ensures k == l {
      assert !Shared(locks, k, l);
    }
  }

  lemma ValuesAppend(es: seq<LockEntry>, entry: LockEntry)
    ensures Values(es + [entry]) == Values(es) + [entry.Value()]
  {
    assert (es + [entry])[..|es|] == es;
  }

  lemma Without(locks: map<Key, LockEntry>, gone: set<Key>)
    requires gone <= locks.Keys
    ensures |locks - gone| == |locks| - |gone|
  {
    assert (locks - gone).Keys == locks.Keys - gone;
    assert |(locks - gone).Keys| == |locks.Keys| - |gone|;
  }

  lemma DropOne(locks: map<Key, LockEntry>, gone: set<Key>, key: Key)
    ensures (locks - gone) - {key} == locks - (gone + {key})
  {}

  /** Forgetting the idle keys is what the specification's cleanup does to the table. */
  lemma CleanedTable(locks: map<Key, LockEntry>, m: Memory, idle: set<Key>)
    requires WellFormed(m) && m.table == Ids(locks)
    requires forall k | k in locks :: k in idle <==> m.heap[m.table[k]].refCount == 0
    ensures Ids(locks - idle) == LockTable.Cleanup(m).table
  {}

  ghost function IdleKeys(locks: map<Key, LockEntry>): (r: set<Key>)
    reads locks.Values
    ensures r <= locks.Keys && forall k :: k in r <==> k in locks && locks[k].refCount == 0
  {
    set k | k in locks && locks[k].refCount == 0
  }

  /** The lock map without its idle keys abstracts to the specification's cleanup. */
  lemma Swept(locks: map<Key, LockEntry>, created: seq<LockEntry>, idle: set<Key>)
    requires Consistent(locks, created) && idle == IdleKeys(locks)
    ensures Consistent(locks - idle, created) && |locks - idle| == |locks| - |idle|
    ensures var m := Memory(Ids(locks), Values(created));
            WellFormed(m) && Memory(Ids(locks - idle), Values(created)) == LockTable.Cleanup(m)
  {
    var m := Memory(Ids(locks), Values(created));
    Abstracts(locks, created);
    SubsetConsistent(locks, created, idle);
    Without(locks, idle);
    forall k | k in locks ensures k in idle <==> m.heap[m.table[k]].refCount == 0 {
      assert created[locks[k].id] == locks[k];
    }
    CleanedTable(locks, m, idle);
  }

  /** Storing a fresh entry, as the abstraction sees it. */
  lemma Stored(locks: map<Key, LockEntry>, es: seq<LockEntry>, key: Key, entry: LockEntry)
    requires Consistent(locks, es) && key !in locks && entry.id == |es| && entry.Value() == FRESH_ENTRY
    ensures Consistent(locks[key := entry], es + [entry])
    ensures Memory(Ids(locks[key := entry]), Values(es + [entry]))
            == Memory(Ids(locks)[key := |es|], Values(es) + [FRESH_ENTRY])
  {
    StoreConsistent(locks, es, key, entry);
    ValuesAppend(es, entry);
    IdsUpdate(locks, key, entry);
  }

  class Manager {
    var locks: map<Key, LockEntry>
    ghost var created: seq<LockEntry>   // every entry ever made, in order

    ghost predicate Valid()
      reads this
    {
      Consistent(locks, created)
    }

    ghost function Abs(): (m: Memory)
      reads this, created
      requires Valid()
      ensures WellFormed(m)
    {
      Abstracts(locks, created);
      Memory(Ids(locks), Values(created))
    }

    constructor ()
      ensures Valid() && Abs() == Memory(map[], [])
    {
      locks, created := map[], [];
    }

    /** The first half of getOrCreateLock: store a fresh entry under an unused key. */
    method Store(key: Key) returns (entry: LockEntry)
      requires Valid() && key !in locks
      modifies this
      ensures Valid() && created == old(created) + [entry] && fresh(entry)
      ensures locks == old(locks)[key := entry]
      ensures Abs() == Memory(old(Abs()).table[key := |old(created)|], old(Abs()).heap + [FRESH_ENTRY])
    {
      ghost var was := Abs();
      entry := new LockEntry(|created|);
      assert Values(created) == was.heap;
      Stored(locks, created, key, entry);
      locks, created := locks[key := entry], created + [entry];
    }

    method Count(entry: LockEntry, delta: int)
      requires Valid() && entry in created
      modifies entry
      ensures Valid()
      ensures entry.id < |created| == |old(Abs()).heap|
      ensures Abs() == Memory(old(Abs()).table, old(Abs()).heap[entry.id := AddRef(old(Abs()).heap[entry.id], delta)])
    {
      ghost var was := Abs();
      assert created[entry.id] == entry;
      entry.refCount := entry.refCount + delta;
      assert Abs().heap == was.heap[entry.id := AddRef(was.heap[entry.id], delta)];
      assert Abs().table == was.table;
    }

    method GetOrCreateLock(key: Key) returns (entry: LockEntry)
      requires Valid()
      modifies this, created
      ensures Valid() && old(created) <= created && entry in created
      ensures Abs() == GetOrCreate(old(Abs()), key).0 && entry.id == GetOrCreate(old(Abs()), key).1
    {
      if key in locks {
        entry := locks[key];
      } else {
        entry := Store(key);
      }
      Count(entry, 1);
    }

    method DecrementRef(key: Key)
      requires Valid()
      modifies created
      ensures Valid() && Abs() == LockTable.DecrementRef(old(Abs()), key)
    {
      if key in locks { Count(locks[key], -1); }
    }

    /** Deletes entries one by one while iterating over the map. */
    method DeleteIdle() returns (cleanedCount: nat)
      modifies this`locks
      ensures locks == old(locks) - old(IdleKeys(locks))
      ensures cleanedCount == |old(IdleKeys(locks))|
    {
      cleanedCount := 0;
      var remaining := locks.Keys;
      ghost var was, idle, done := locks, IdleKeys(locks), {};
      while remaining != {}
        invariant remaining <= was.Keys
        invariant forall k :: k in done <==> k in idle && k !in remaining
        invariant locks == was - done && cleanedCount == |done|
        decreases remaining
      {
        var key :| key in remaining;
        remaining := remaining - {key};
        if locks[key].refCount == 0 {
          DropOne(was, done, key);
          assert |done + {key}| == |done| + 1;
          locks, done := locks - {key}, done + {key};
          cleanedCount := cleanedCount + 1;
        }
      }
      assert done == idle;
    }

    method Cleanup() returns (cleanedCount: nat)
      requires Valid()
      modifies this`locks
      ensures Valid() && created == old(created)
      ensures Abs() == LockTable.Cleanup(old(Abs()))
      ensures cleanedCount == |old(locks)| - |locks|
    {
      Swept(locks, created, IdleKeys(locks));
      cleanedCount := DeleteIdle();
    }
  }
}
