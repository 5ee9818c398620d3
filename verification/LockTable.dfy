/** The lock table of the file lock manager as a value: which entry is stored under a key,
    and the reader/writer state and reference count of every entry ever created.
    Entries keep their identity (an index into `heap`), because a release closure captures
    the entry object itself while the reference count is decremented through the key. */
module LockTable {

  type Key = string

  datatype Mode = Read | Write

  datatype Entry = Entry(readers: nat, writer: bool, refCount: int)

  datatype Memory = Memory(table: map<Key, nat>, heap: seq<Entry>)

  const FRESH_ENTRY := Entry(0, false, 0)

  /** Stored identities are known, and no two keys share an entry. */
  ghost predicate WellFormed(m: Memory) {
    && (forall k :: k in m.table ==> m.table[k] < |m.heap|)
    && (forall k, l :: k in m.table && l in m.table && m.table[k] == m.table[l] ==> k == l)
  }

  /** The entry a fresh lookup of `k` would use. */
  ghost function EntryAt(m: Memory, k: Key): Entry
    requires WellFormed(m)
  {
    if k in m.table then m.heap[m.table[k]] else FRESH_ENTRY
  }

  function AddRef(e: Entry, delta: int): Entry {
    e.(refCount := e.refCount + delta)
  }

  /** getOrCreateLock: find or create the entry, and count one more reference to it. */
  function GetOrCreate(m: Memory, key: Key): (r: (Memory, nat))
    requires WellFormed(m)
    ensures WellFormed(r.0) && key in r.0.table && r.0.table[key] == r.1
    ensures r.0.table.Keys == m.table.Keys + {key}
    ensures forall k :: k in m.table ==> r.0.table[k] == m.table[k]
    ensures EntryAt(r.0, key) == AddRef(EntryAt(m, key), 1)
    ensures forall k :: k != key ==> EntryAt(r.0, k) == EntryAt(m, k)
  {
    var m1 := if key in m.table then m
              else Memory(m.table[key := |m.heap|], m.heap + [FRESH_ENTRY]);
    var id := m1.table[key];
    (Memory(m1.table, m1.heap[id := AddRef(m1.heap[id], 1)]), id)
  }

  /** decrementRef: goes through the key, and does nothing when no entry is stored there. */
  function DecrementRef(m: Memory, key: Key): (r: Memory)
    requires WellFormed(m)
    ensures WellFormed(r) && r.table == m.table
    ensures key in m.table ==> EntryAt(r, key) == AddRef(EntryAt(m, key), -1)
    ensures forall k :: k != key || key !in m.table ==> EntryAt(r, k) == EntryAt(m, k)
  {
    if key in m.table
    then m.(heap := m.heap[m.table[key] := AddRef(m.heap[m.table[key]], -1)])
    else m
  }

  /** A read lock is granted iff there is no writer, a write lock iff the lock is idle. */
  predicate CanGrant(e: Entry, mode: Mode) {
    !e.writer && (mode == Write ==> e.readers == 0)
  }

  function Granted(e: Entry, mode: Mode): Entry {
    if mode == Read then e.(readers := e.readers + 1) else e.(writer := true)
  }

  /** unlock(): a writing lock becomes idle, a reading one loses a reader. */
  function Unlocked(e: Entry): Entry {
    if e.writer then e.(writer := false)
    else if e.readers > 0 then e.(readers := e.readers - 1)
    else e
  }

  function Grant(m: Memory, id: nat, mode: Mode): (r: Memory)
    requires WellFormed(m) && id < |m.heap|
    ensures WellFormed(r) && r.table == m.table
    ensures forall k :: EntryAt(r, k) ==
                        if k in m.table && m.table[k] == id then Granted(EntryAt(m, k), mode) else EntryAt(m, k)
  {
    m.(heap := m.heap[id := Granted(m.heap[id], mode)])
  }

  /** First run of a release closure: unlock the captured entry, whether or not it is still
      stored, then decrement through the key, whatever entry is stored there now. */
  function Release(m: Memory, key: Key, id: nat): (r: Memory)
    requires WellFormed(m) && id < |m.heap|
    ensures WellFormed(r) && r.table == m.table && |r.heap| == |m.heap|
    ensures forall k :: EntryAt(r, k) ==
                        var e := if k in m.table && m.table[k] == id then Unlocked(EntryAt(m, k)) else EntryAt(m, k);
                        if k == key && key in m.table then AddRef(e, -1) else e
  {
    DecrementRef(m.(heap := m.heap[id := Unlocked(m.heap[id])]), key)
  }

  /** cleanup: forget every key whose entry has reference count zero. */
  function Cleanup(m: Memory): (r: Memory)
    requires WellFormed(m)
    ensures WellFormed(r) && r.heap == m.heap
    ensures forall k :: k in r.table <==> k in m.table && EntryAt(m, k).refCount != 0
    ensures forall k :: k in r.table ==> r.table[k] == m.table[k]
  {
    m.(table := map k | k in m.table && m.heap[m.table[k]].refCount != 0 :: m.table[k])
  }
}
