/** The hash table as the kernel runs it: probe loops over an entry array changed in place. */
module HashTables {
  import opened Prelude
  import opened Counting
  import opened HashTableSpec

  class HashTable {
    const hash: nat -> nat
    const entries: array<Entry>
    const maxLoad: nat
    var size: int

    ghost function State(): Table
      reads this, entries
    {
      Table(entries[..], size, maxLoad)
    }

    ghost predicate Valid()
      reads this, entries
    {
      Inv(hash, State())
    }

    /** hash_init */
    constructor (hash: nat -> nat, initialCapacity: nat)
      ensures Valid() && State() == Init(initialCapacity) && this.hash == hash && fresh(entries)
    {
      this.hash := hash;
      var cap := if initialCapacity > 0 then initialCapacity else 16;
      maxLoad := cap * 75 / 100;
      entries := new Entry[cap](_ => Entry(0, 0, false, false));
      size := 0;
      new;
      assert entries[..] == Init(initialCapacity).entries;
      InitInv(hash, initialCapacity);
    }

    /** The probe loop of hash_get and hash_remove: the slot of the key, or the capacity. */
    method Find(key: nat) returns (index: nat)
      requires Valid()
      ensures index <= entries.Length
      ensures index == (match FindFrom(hash, State(), key, 0)
                        case None => entries.Length
                        case Some(d) => Pos(hash, entries.Length, key, d))
    {
      index := hash(key) % entries.Length;
      var original := index;
      ghost var d := 0;
      while true
        invariant d < entries.Length && index == Pos(hash, entries.Length, key, d) && original == Pos(hash, entries.Length, key, 0)
        invariant FindFrom(hash, State(), key, 0) == FindFrom(hash, State(), key, d)
        decreases entries.Length - d
      {
        if !entries[index].occupied {
          return entries.Length;
        }
        if entries[index].key == key && !entries[index].deleted {
          return;
        }
        PosNext(hash, entries.Length, key, d);
        index := (index + 1) % entries.Length;
        d := d + 1;
        if index == original {
          Home(hash, entries.Length, key, d);
          return entries.Length;
        }
      }
    }

    /** hash_put */
    method Put(key: nat, value: nat) returns (ok: bool)
      requires Valid()
      modifies this, entries
      ensures Valid() && (State(), ok) == HashTableSpec.Put(hash, old(State()), key, value)
    {
      PutKeepsInv(hash, State(), key, value);
      if size >= maxLoad {
        return false;
      }
      var index := hash(key) % entries.Length;
      var original := index;
      ghost var d := 0;
      while true
        invariant d < entries.Length && index == Pos(hash, entries.Length, key, d) && original == Pos(hash, entries.Length, key, 0)
        invariant State() == old(State())
        invariant FindSlot(hash, State(), key, 0) == FindSlot(hash, State(), key, d)
        decreases entries.Length - d
      {
        if !entries[index].occupied || entries[index].deleted {
          entries[index] := Entry(key, value, true, false);
          size := size + 1;
          return true;
        }
        if entries[index].key == key && !entries[index].deleted {
          entries[index] := entries[index].(value := value);
          return true;
        }
        PosNext(hash, entries.Length, key, d);
        index := (index + 1) % entries.Length;
        d := d + 1;
        if index == original {
          Home(hash, entries.Length, key, d);
          return false;
        }
      }
    }

    /** hash_get: NULL (0) when the key is absent. */
    method Get(key: nat) returns (value: nat)
      requires Valid()
      ensures value == (match HashTableSpec.Get(hash, State(), key) case None => 0 case Some(v) => v)
    {
      var index := Find(key);
      value := if index == entries.Length then 0 else entries[index].value;
    }

    /** hash_remove */
    method Remove(key: nat) returns (value: nat)
      requires Valid()
      modifies this, entries
      ensures Valid() && State() == HashTableSpec.Remove(hash, old(State()), key).0
      ensures value == (match HashTableSpec.Remove(hash, old(State()), key).1 case None => 0 case Some(v) => v)
    {
      RemoveKeepsInv(hash, State(), key);
      var index := Find(key);
      if index == entries.Length {
        return 0;
      }
      value := entries[index].value;
      entries[index] := entries[index].(deleted := true);
      size := size - 1;
    }
  }

  /** The probe is back home only after the whole round. */
  lemma Home(h: Hash, cap: nat, k: nat, d: nat)
    requires 0 < d <= cap
    requires (if d < cap then Pos(h, cap, k, d) else Pos(h, cap, k, 0)) == Pos(h, cap, k, 0)
    ensures d == cap
  {
  }
}
