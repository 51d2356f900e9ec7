/** The insertion-ordered hash table of src/htable: an append-only entry array, bucket heads,
    and collision chains threaded through the entries. Every method is proved to take the
    step that TableModel gives for it, and to keep the index consistent. */
module HashTables {
  import opened Common
  import opened Bits
  import opened Capacity
  import opened OrderedMap
  import opened TableModel
  import opened TableRuns
  import opened TableSlots
  import opened Chains

  /** Index n enters the bucket of its code. */
  function InsertIndex(chains: seq<seq<nat>>, code: nat, n: nat): (c: seq<seq<nat>>)
    requires |chains| > 0
    ensures |c| == |chains|
  {
    var b := code % |chains|;
    chains[b := InsertAfterHead(chains[b], n)]
  }

  /** The chains right after a rehash: the pairs inserted one by one into empty buckets. */
  function ChainsOf<K, V>(keys: KeyOps<K>, live: seq<Pair<K, V>>, size: nat): (c: seq<seq<nat>>)
    requires size > 0
    ensures |c| == size
  {
    if live == [] then seq(size, _ => [])
    else
      var n := |live| - 1;
      InsertIndex(ChainsOf(keys, live[..n], size), keys.hashcode(live[n].key), n)
  }

  /** The chains after an accepted put of k. */
  ghost function ChainsAfterPut<K, V>(cfg: Config<K>, m: Model<K, V>, chains: seq<seq<nat>>, k: K): seq<seq<nat>>
    requires cfg.maxLoad.den > 0 && m.capacity > 0 && |chains| > 0
  {
    if Has(cfg.keys, m.live, k) then chains
    else if NeedsGrowth(cfg, m) then
      InsertIndex(ChainsOf(cfg.keys, m.live, 2 * m.capacity), cfg.keys.hashcode(k), |m.live|)
    else InsertIndex(chains, cfg.keys.hashcode(k), m.used)
  }

  lemma MaskIsMod(code: nat, size: nat)
    requires IsPow2(size)
    ensures And(code, size - 1) == code % size
  {
    var k: nat :| size == Pow2(k);
    AndMask(code, k);
  }

  /** `ipcl_htable_init`. The work is the slots it writes: entries and bucket heads. */
  method InitArrays<K, V>(size: nat) returns (es: array<Entry<K, V>>, ls: array<int>, ghost work: nat)
    ensures fresh(es) && fresh(ls) && (es as object) != (ls as object)
    ensures es.Length == size && ls.Length == size
    ensures forall i :: 0 <= i < size ==> es[i].item.None?
    ensures forall i :: 0 <= i < size ==> ls[i] == -1
    ensures work == 2 * size
  {
    es := new Entry<K, V>[size](_ => Entry(0, 0, None));
    ls := new int[size];
    work := es.Length;
    for i := 0 to size
      invariant forall j :: 0 <= j < i ==> ls[j] == -1
      invariant forall j :: 0 <= j < size ==> es[j].item.None?
      invariant work == size + i
    {
      ls[i] := -1;
      work := work + 1;
    }
  }

  /** The tail of a put and of each rehash step: store a pair in slot n and link it behind
      the head of its bucket. */
  method Insert<K, V>(keys: KeyOps<K>, es: array<Entry<K, V>>, ls: array<int>, n: nat, p: Pair<K, V>, code: nat,
                      hashidx: nat, ghost chains: seq<seq<nat>>)
    requires (es as object) != (ls as object) && n < es.Length
    requires Indexed(es[..], n, ls[..], chains) && CodesMatch(keys, es[..], n)
    requires code == keys.hashcode(p.key) && hashidx == code % ls.Length
    modifies es, ls
    ensures Indexed(es[..], n + 1, ls[..], InsertIndex(chains, code, n))
    ensures CodesMatch(keys, es[..], n + 1)
    ensures Pairs(es[..], n + 1) == Pairs(old(es[..]), n) + [p]
  {
    InsertKeepsIndex(es[..], n, ls[..], chains, code, p);
    ghost var was := es[..];
    ghost var want := WithNew(was, ls[hashidx], n, code, p);
    es[n] := Entry(-1, code, Some(p));
    var entidx := ls[hashidx];
    if entidx != -1 {
      es[n] := es[n].(next := es[entidx].next);
      es[entidx] := es[entidx].(next := n);
    } else {
      ls[hashidx] := n;
    }
    assert es[..] == want;
    AppendKeepsPairs(keys, was, want, n, p);
  }

  /** The copy loop of a rehash: every live entry is inserted, in order, into new arrays. The
      work is the slots written to set these up and the slots scanned. */
  method MoveEntries<K(!new), V>(keys: KeyOps<K>, entries: array<Entry<K, V>>, used: nat, ghost lookup: seq<int>,
                                 ghost chains: seq<seq<nat>>, size: nat)
    returns (es: array<Entry<K, V>>, ls: array<int>, ghost newChains: seq<seq<nat>>, ghost work: nat)
    requires Sound(keys, entries[..], used, lookup, chains)
    requires IsPow2(size) && |Pairs(entries[..], used)| <= size
    ensures fresh(es) && fresh(ls) && (es as object) != (ls as object)
    ensures es.Length == size && ls.Length == size
    ensures var live := Pairs(entries[..], used);
            && Sound(keys, es[..], |live|, ls[..], newChains)
            && Pairs(es[..], |live|) == live
            && newChains == ChainsOf(keys, live, size)
    ensures work == used + 2 * size
  {
    es, ls, work := InitArrays(size);
    var n: nat := 0;
    newChains := seq(size, _ => []);
    EmptySound(keys, es[..], ls[..]);
    ghost var was := entries[..];
    for i := 0 to used
      invariant fresh(es) && fresh(ls) && (es as object) != (ls as object)
      invariant es.Length == size && ls.Length == size
      invariant entries[..] == was
      invariant n <= size && Moved(keys, es[..], n, ls[..], newChains, Pairs(was, i))
      invariant work == i + 2 * size
    {
      work := work + 1;
      PairsStep(was, i);
      PairsPrefix(was, i + 1, used);
      n, newChains := MoveEntry(keys, entries[i], es, ls, n, newChains, Pairs(was, i));
    }
  }

  /** The new arrays of a rehash once the given pairs have been moved. */
  ghost predicate Moved<K, V>(keys: KeyOps<K>, es: seq<Entry<K, V>>, n: nat, ls: seq<int>, chains: seq<seq<nat>>,
                              live: seq<Pair<K, V>>)
  {
    && Indexed(es, n, ls, chains) && CodesMatch(keys, es, n)
    && Pairs(es, n) == live && n == |live|
    && chains == ChainsOf(keys, live, |ls|)
  }

  method MoveEntry<K, V>(keys: KeyOps<K>, e: Entry<K, V>, es: array<Entry<K, V>>, ls: array<int>, n: nat,
                         ghost chains: seq<seq<nat>>, ghost live: seq<Pair<K, V>>)
    returns (n': nat, ghost chains': seq<seq<nat>>)
    requires (es as object) != (ls as object) && IsPow2(ls.Length)
    requires Moved(keys, es[..], n, ls[..], chains, live)
    requires e.item.Some? ==> n < es.Length && e.code == keys.hashcode(e.item.value.key)
    modifies es, ls
    ensures Moved(keys, es[..], n', ls[..], chains', live + PairOf(e))
  {
    n', chains' := n, chains;
    if e.item.Some? {
      var hashidx := And(e.code, ls.Length - 1);
      MaskIsMod(e.code, ls.Length);
      Insert(keys, es, ls, n, e.item.value, e.code, hashidx, chains);
      n', chains' := n + 1, InsertIndex(chains, e.code, n);
    } else {
      assert live + PairOf(e) == live;
    }
  }

  /** Unlink the node at position j of its chain and mark its slot removed. */
  method ClearNode<K(!new), V>(keys: KeyOps<K>, entries: array<Entry<K, V>>, used: nat, lookup: array<int>,
                               ghost chains: seq<seq<nat>>, hashidx: nat, ghost j: nat, prev: int, entidx: nat,
                               ghost k: K)
    requires (entries as object) != (lookup as object) && Lawful(keys)
    requires Sound(keys, entries[..], used, lookup[..], chains)
    requires hashidx < lookup.Length && j < |chains[hashidx]| && Matches(keys, entries[..], used, entidx, k)
    requires entidx == chains[hashidx][j] && prev == (if j == 0 then -1 else chains[hashidx][j - 1])
    modifies entries, lookup
    ensures Sound(keys, entries[..], used, lookup[..], chains[hashidx := RemoveAt(chains[hashidx], j)])
    ensures var live := old(Pairs(entries[..], used));
            && Has(keys, live, k)
            && live[Position(keys, live, k)] == old(entries[entidx]).item.value
            && Pairs(entries[..], used) == RemoveAt(live, Position(keys, live, k))
  {
    ghost var was, wasLookup, c := entries[..], lookup[..], chains[hashidx];
    ChainInRange(was, used, wasLookup, chains, hashidx);
    MatchIsPosition(keys, was, used, wasLookup, chains, entidx, k);
    RemoveKeepsSound(keys, was, used, wasLookup, chains, hashidx, j, k);
    var ent := entries[entidx];
    if prev != -1 {
      entries[prev] := entries[prev].(next := ent.next);
    } else {
      lookup[hashidx] := ent.next;
    }
    entries[entidx] := Entry(-1, 0, None);
    assert entries[..] == WithoutNode(was, c, j);
    assert lookup[..] == if j == 0 then wasLookup[hashidx := was[c[0]].next] else wasLookup;
  }

  class HashTable<K(!new), V> {
    const cfg: Config<K>
    var count: nat
    var countUsed: nat
    var capacity: nat
    var tableMask: nat
    var entries: array<Entry<K, V>>
    var entryLookup: array<int>
    /** The pairs that remove_entry has been called with, in order. */
    var handed: seq<Pair<K, V>>
    ghost var chains: seq<seq<nat>>
    ghost var work: nat

    ghost predicate Valid()
      reads this, entries, entryLookup
    {
      && ConfigOk(cfg)
      && IsPow2(capacity) && MINTBLSIZE <= capacity <= MAXTBLSIZE
      && tableMask == capacity - 1
      && entries.Length == capacity && entryLookup.Length == capacity
      && (entries as object) != (entryLookup as object)
      && countUsed <= capacity
      && Sound(cfg.keys, entries[..], countUsed, entryLookup[..], chains)
      && count == |Items()|
    }

    ghost function Items(): seq<Pair<K, V>>
      reads this, entries
      requires countUsed <= entries.Length
    {
      Pairs(entries[..], countUsed)
    }

    ghost function Abstract(): Model<K, V>
      reads this, entries
      requires countUsed <= entries.Length
    {
      Model(Items(), capacity, countUsed, handed, work)
    }

    constructor (size: nat, cfg: Config<K>)
      requires ConfigOk(cfg)
      requires IsPow2(size) && MINTBLSIZE <= size <= MAXTBLSIZE
      ensures Valid() && fresh(entries) && fresh(entryLookup)
      ensures this.cfg == cfg && Abstract() == Empty(size)
    {
      this.cfg := cfg;
      count, countUsed, capacity, tableMask := 0, 0, size, size - 1;
      handed, work := [], 0;
      chains := seq(size, _ => []);
      var es, ls, _ := InitArrays<K, V>(size);
      entries, entryLookup := es, ls;
      new;
      EmptySound(cfg.keys, entries[..], entryLookup[..]);
    }

    /** `pcl_htable`. Null is the ERANGE failure. */
    static method Create(request: int, cfg: Config<K>) returns (t: HashTable?<K, V>)
      requires -0x8000_0000 <= request < 0x8000_0000
      requires ConfigOk(cfg)
      ensures t == null <==> request > 0x4000_0000
      ensures t != null ==> fresh(t) && t.Valid() && fresh(t.entries) && fresh(t.entryLookup) && t.cfg == cfg
                            && LeastPow2(t.capacity, Max(if request < 0 then 0 else request, 8))
                            && t.Abstract() == Empty(t.capacity)
    {
      var want := if request < 0 then 0 else request;
      var size := ChkCapacity(want);
      MaxIsPow2();
      if size.None? {
        if want <= MAXTBLSIZE { LeastExists(Max(want, MINTBLSIZE), 30); }
        return null;
      }
      assert Max(want, MINTBLSIZE) <= size.value;
      t := new HashTable(size.value, cfg);
    }

    /** `(int) (code & ht->table_mask)`. */
    method Hashidx(code: nat) returns (b: nat)
      requires Valid()
      ensures b == code % capacity && b < capacity
    {
      b := And(code, tableMask);
      MaskIsMod(code, capacity);
    }

    /** `ipcl_htable_lookup`: walk the chain of the key's bucket. */
    method Find(key: K) returns (found: Option<nat>, code: nat, hashidx: nat)
      requires Valid()
      ensures code == cfg.keys.hashcode(key) && hashidx == code % capacity
      ensures found.Some? <==> Has(cfg.keys, Items(), key)
      ensures found.Some? ==> Matches(cfg.keys, entries[..], countUsed, found.value, key)
    {
      hide Sound, Lawful, IsPow2, Pairs;
      code := cfg.keys.hashcode(key);
      hashidx := Hashidx(code);
      ChainStart(cfg.keys, entries[..], countUsed, entryLookup[..], chains, hashidx);
      var entidx := entryLookup[hashidx];
      ghost var c := chains[hashidx];
      ghost var j := 0;
      while entidx != -1
        invariant j <= |c| && entidx == Link(c, j)
        invariant forall k :: 0 <= k < j ==> !Matches(cfg.keys, entries[..], countUsed, c[k], key)
        decreases |c| - j
      {
        ChainPlace(cfg.keys, entries[..], countUsed, entryLookup[..], chains, hashidx, j, key);
        var e := entries[entidx];
        if e.code == code && cfg.keys.equals(e.item.value.key, key) {
          MatchIsPosition(cfg.keys, entries[..], countUsed, entryLookup[..], chains, entidx, key);
          return Some(entidx), code, hashidx;
        }
        entidx := e.next;
        j := j + 1;
      }
      NotInChain(cfg.keys, entries[..], countUsed, entryLookup[..], chains, key);
      return None, code, hashidx;
    }

    /** `pcl_htable_lookup`. */
    method Lookup(key: Option<K>) returns (r: Outcome<K, V>)
      requires Valid()
      ensures (Abstract(), r) == Step(cfg, Abstract(), Op.Lookup(key))
      ensures r == Einval <==> key.None?
      ensures key.Some? ==> (r.Found? <==> Has(cfg.keys, Items(), key.value))
      ensures r.Found? ==> r.pair in Items() && cfg.keys.equals(r.pair.key, key.value)
    {
      if key.None? {
        return Einval;
      }
      var found, _, _ := Find(key.value);
      if found.None? {
        return NotFound;
      }
      MatchIsPosition(cfg.keys, entries[..], countUsed, entryLookup[..], chains, found.value, key.value);
      return Found(entries[found.value].item.value);
    }

    /** `ipcl_htable_rehash`: move the live entries to arrays of twice or half the size. */
    method Rehash(grow: bool) returns (ok: bool)
      requires Valid()
      requires !grow ==> capacity != MINTBLSIZE && count <= capacity / 2
      modifies this
      ensures ok == (grow ==> 2 * old(capacity) <= MAXTBLSIZE)
      ensures !ok ==> unchanged(this)
      ensures ok ==> Valid() && fresh(entries) && fresh(entryLookup)
      ensures ok ==> Abstract() == Rehashed(old(Abstract()), if grow then 2 * old(capacity) else old(capacity) / 2)
      ensures ok ==> chains == ChainsOf(cfg.keys, Items(), capacity)
    {
      var size := RehashCapacity(capacity, grow);
      if size.None? {
        return false;
      }
      var es, ls, newChains, slots := MoveEntries(cfg.keys, entries, countUsed, entryLookup[..], chains, size.value);
      Adopt(es, ls, newChains, slots);
      return true;
    }

    /** The end of a rehash: the new arrays take over. */
    method Adopt(es: array<Entry<K, V>>, ls: array<int>, ghost newChains: seq<seq<nat>>, ghost slots: nat)
      requires Valid() && slots == countUsed + 2 * es.Length
      requires (es as object) != (ls as object) && es.Length == ls.Length
      requires IsPow2(es.Length) && MINTBLSIZE <= es.Length <= MAXTBLSIZE && count <= es.Length
      requires Sound(cfg.keys, es[..], count, ls[..], newChains) && Pairs(es[..], count) == Items()
      modifies this
      ensures Valid() && entries == es && entryLookup == ls && chains == newChains
      ensures Abstract() == Rehashed(old(Abstract()), es.Length)
    {
      hide Sound, Lawful, IsPow2, Pairs;
      ghost var esNow, lsNow := es[..], ls[..];
      work := work + slots;
      capacity := es.Length;
      tableMask := es.Length - 1;
      entries, entryLookup := es, ls;
      countUsed := count;
      chains := newChains;
      assert entries[..] == esNow && entryLookup[..] == lsNow;
    }

    /** `pcl_htable_put`. */
    method Put(key: Option<K>, value: V, unique: bool) returns (r: Outcome<K, V>)
      requires Valid()
      requires WritesInside(cfg, Abstract(), Op.Put(key, value, unique))
      modifies this, entries, entryLookup
      ensures Valid()
      ensures (entries == old(entries) || fresh(entries)) && (entryLookup == old(entryLookup) || fresh(entryLookup))
      ensures (Abstract(), r) == Step(cfg, old(Abstract()), Op.Put(key, value, unique))
      ensures r == Done && key.Some? ==> chains == ChainsAfterPut(cfg, old(Abstract()), old(chains), key.value)
      ensures r == Einval <==> key.None?
      ensures r == Eexist <==> key.Some? && unique && Has(cfg.keys, old(Items()), key.value)
      ensures r != Done ==> Abstract() == old(Abstract())
      ensures r == Done ==> Items() == Set(cfg.keys, old(Items()), key.value, value)
    {
      hide Sound, Lawful, IsPow2, Pairs, ChainsOf, InsertIndex;
      if key.None? {
        return Einval;
      }
      var k := key.value;
      var found, code, hashidx := Find(k);
      if found.Some? {
        if unique {
          return Eexist;
        }
        Replace(found.value, k, value);
        return Done;
      }
      r := Add(k, value, code, hashidx);
    }

    /** The replace branch of a put: the slot keeps its place, its code and its links. */
    method Replace(i: nat, key: K, value: V)
      requires Valid() && Matches(cfg.keys, entries[..], countUsed, i, key)
      modifies this`handed, entries
      ensures Valid()
      ensures Has(cfg.keys, old(Items()), key)
      ensures var p := Position(cfg.keys, old(Items()), key);
              Abstract() == HandOver(cfg, old(Abstract()).(live := old(Items())[p := Pair(key, value)]), [old(Items())[p]])
    {
      ghost var was := entries[..];
      MatchIsPosition(cfg.keys, was, countUsed, entryLookup[..], chains, i, key);
      ReplaceKeepsSound(cfg.keys, was, countUsed, entryLookup[..], chains, i, Pair(key, value));
      var oldPair := entries[i].item.value;
      entries[i] := entries[i].(item := Some(Pair(key, value)));
      assert entries[..] == was[i := was[i].(item := Some(Pair(key, value)))];
      if cfg.callback {
        handed := handed + [oldPair];
      }
    }

    /** The other branch of a put: grow if the live count asks for it, then append. */
    method Add(key: K, value: V, code: nat, hashidx: nat) returns (r: Outcome<K, V>)
      requires Valid() && !Has(cfg.keys, Items(), key)
      requires code == cfg.keys.hashcode(key) && hashidx == code % capacity
      requires NeedsGrowth(cfg, Abstract()) || countUsed < capacity
      modifies this, entries, entryLookup
      ensures Valid()
      ensures (entries == old(entries) || fresh(entries)) && (entryLookup == old(entryLookup) || fresh(entryLookup))
      ensures (Abstract(), r) == PutStep(cfg, old(Abstract()), key, value, false)
      ensures r == Done ==> chains == ChainsAfterPut(cfg, old(Abstract()), old(chains), key)
    {
      hide Sound, Lawful, IsPow2, ChainsOf, InsertIndex, Threshold;
      var ok, idx := GrowIfFull(code, hashidx);
      if !ok {
        return Erange;
      }
      Append(key, value, code, idx);
      return Done;
    }

    method GrowIfFull(code: nat, hashidx: nat) returns (ok: bool, idx: nat)
      requires Valid() && hashidx == code % capacity
      modifies this
      ensures Valid() && idx == code % capacity
      ensures (entries == old(entries) || fresh(entries)) && (entryLookup == old(entryLookup) || fresh(entryLookup))
      ensures ok == !(NeedsGrowth(cfg, old(Abstract())) && 2 * old(capacity) > MAXTBLSIZE)
      ensures var m := old(Abstract());
              Abstract() == if ok && NeedsGrowth(cfg, m) then Rehashed(m, 2 * m.capacity) else m
      ensures chains == if ok && NeedsGrowth(cfg, old(Abstract())) then ChainsOf(cfg.keys, Items(), capacity)
                        else old(chains)
    {
      ok, idx := true, hashidx;
      if count >= Threshold(cfg.maxLoad, capacity) {
        ok := Rehash(true);
        if ok {
          idx := Hashidx(code);
        }
      }
    }

    method Append(key: K, value: V, code: nat, hashidx: nat)
      requires Valid() && countUsed < capacity && !Has(cfg.keys, Items(), key)
      requires code == cfg.keys.hashcode(key) && hashidx == code % capacity
      modifies this, entries, entryLookup
      ensures Valid() && entries == old(entries) && entryLookup == old(entryLookup)
      ensures var m := old(Abstract()); Abstract() == m.(live := m.live + [Pair(key, value)], used := m.used + 1)
      ensures chains == InsertIndex(old(chains), code, old(countUsed))
    {
      hide Lawful, IsPow2, Pairs, InsertIndex;
      DistinctAfterSet(cfg.keys, Items(), key, value);
      Insert(cfg.keys, entries, entryLookup, countUsed, Pair(key, value), code, hashidx, chains);
      chains := InsertIndex(chains, code, countUsed);
      count := count + 1;
      countUsed := countUsed + 1;
    }

    /** `pcl_htable_remove`. */
    method Remove(key: Option<K>) returns (r: Outcome<K, V>)
      requires Valid()
      requires WritesInside(cfg, Abstract(), Op.Remove(key))
      modifies this, entries, entryLookup
      ensures Valid()
      ensures (entries == old(entries) || fresh(entries)) && (entryLookup == old(entryLookup) || fresh(entryLookup))
      ensures (Abstract(), r) == Step(cfg, old(Abstract()), Op.Remove(key))
      ensures key.Some? ==> Items() == Delete(cfg.keys, old(Items()), key.value) && r == Count(|Items()|)
    {
      hide Sound, Lawful, IsPow2, Pairs;
      if key.None? {
        return Einval;
      }
      var k := key.value;
      var hashidx, prev, entidx, j := Walk(k);
      if entidx == -1 {
        return Count(count);
      }
      Unlink(hashidx, j, prev, entidx, k);
      r := ShrinkIfSparse();
    }

    /** The loop of a remove: walk the chain of the key's bucket with the index before. */
    method Walk(k: K) returns (hashidx: nat, prev: int, entidx: int, ghost j: nat)
      requires Valid()
      ensures hashidx < capacity && entidx >= -1
      ensures entidx == -1 <==> !Has(cfg.keys, Items(), k)
      ensures entidx != -1 ==> j < |chains[hashidx]| && entidx == chains[hashidx][j]
                               && prev == (if j == 0 then -1 else chains[hashidx][j - 1])
                               && Matches(cfg.keys, entries[..], countUsed, entidx, k)
    {
      hide Sound, Lawful, IsPow2, Pairs;
      var code := cfg.keys.hashcode(k);
      hashidx := Hashidx(code);
      ChainStart(cfg.keys, entries[..], countUsed, entryLookup[..], chains, hashidx);
      entidx := entryLookup[hashidx];
      prev, j := -1, 0;
      ghost var c := chains[hashidx];
      while entidx != -1
        invariant j <= |c| && entidx == Link(c, j) && prev == (if j == 0 then -1 else c[j - 1])
        invariant forall i :: 0 <= i < j ==> !Matches(cfg.keys, entries[..], countUsed, c[i], k)
        decreases |c| - j
      {
        ChainPlace(cfg.keys, entries[..], countUsed, entryLookup[..], chains, hashidx, j, k);
        var e := entries[entidx];
        if e.code == code && cfg.keys.equals(e.item.value.key, k) {
          MatchIsPosition(cfg.keys, entries[..], countUsed, entryLookup[..], chains, entidx, k);
          return;
        }
        prev := entidx;
        entidx := e.next;
        j := j + 1;
      }
      NotInChain(cfg.keys, entries[..], countUsed, entryLookup[..], chains, k);
    }

    /** The found branch of a remove: unlink the node, tell the callback, leave a tombstone. */
    method Unlink(hashidx: nat, ghost j: nat, prev: int, entidx: nat, k: K)
      requires Valid() && hashidx < capacity && j < |chains[hashidx]|
      requires entidx == chains[hashidx][j] && prev == (if j == 0 then -1 else chains[hashidx][j - 1])
      requires Matches(cfg.keys, entries[..], countUsed, entidx, k)
      modifies this`handed, this`count, this`chains, entries, entryLookup
      ensures Valid() && chains == old(chains)[hashidx := RemoveAt(old(chains)[hashidx], j)]
      ensures Has(cfg.keys, old(Items()), k)
      ensures var p := Position(cfg.keys, old(Items()), k);
              Abstract() == HandOver(cfg, old(Abstract()).(live := RemoveAt(old(Items()), p)), [old(Items())[p]])
    {
      var ent := entries[entidx];
      ClearNode(cfg.keys, entries, countUsed, entryLookup, chains, hashidx, j, prev, entidx, k);
      if cfg.callback {
        handed := handed + [ent.item.value];
      }
      count := count - 1;
      chains := chains[hashidx := RemoveAt(chains[hashidx], j)];
    }

    /** The end of a remove: shrink a sparse table. The shrink cannot report a failure. */
    method ShrinkIfSparse() returns (r: Outcome<K, V>)
      requires Valid()
      requires NeedsShrink(cfg, Abstract()) ==> count <= capacity / 2
      modifies this
      ensures Valid()
      ensures (entries == old(entries) || fresh(entries)) && (entryLookup == old(entryLookup) || fresh(entryLookup))
      ensures r == Count(|old(Items())|)
      ensures var m := old(Abstract());
              Abstract() == (if NeedsShrink(cfg, m) then Rehashed(m, m.capacity / 2) else m)
    {
      r := Count(count);
      if capacity != MINTBLSIZE && count < Threshold(cfg.minLoad, capacity) {
        var ok := Rehash(false);
        if !ok {
          r := Erange;
        }
      }
    }

    /** The callback sweep of clear and free. */
    method HandOverAll()
      requires Valid()
      modifies this`handed
      ensures Valid() && Abstract() == HandOver(cfg, old(Abstract()), Items())
    {
      hide Sound, Lawful, IsPow2, Pairs;
      NoPairs(entries[..]);
      for i := 0 to countUsed
        invariant handed == if cfg.callback then old(handed) + Pairs(entries[..], i) else old(handed)
      {
        var ent := entries[i];
        PairsStep(entries[..], i);
        if ent.item.Some? && cfg.callback {
          handed := handed + [ent.item.value];
        }
      }
    }

    /** `pcl_htable_clear`. */
    method Clear(shrink: bool)
      requires Valid()
      modifies this, entries, entryLookup
      ensures Valid()
      ensures (entries == old(entries) || fresh(entries)) && (entryLookup == old(entryLookup) || fresh(entryLookup))
      ensures Abstract() == ClearStep(cfg, old(Abstract()), shrink)
      ensures Items() == [] && capacity == if shrink then 8 else old(capacity)
    {
      HandOverAll();
      if shrink && capacity != MINTBLSIZE {
        var es, ls, _ := InitArrays<K, V>(MINTBLSIZE);
        MinIsPow2();
        StartEmpty(es, ls);
      } else {
        EraseAll(entries, entryLookup);
        StartEmpty(entries, entryLookup);
      }
    }

    /** The end of a clear: the table consists of these erased arrays. */
    method StartEmpty(es: array<Entry<K, V>>, ls: array<int>)
      requires ConfigOk(cfg) && (es as object) != (ls as object) && es.Length == ls.Length
      requires IsPow2(es.Length) && MINTBLSIZE <= es.Length <= MAXTBLSIZE
      requires forall i :: 0 <= i < es.Length ==> es[i].item.None?
      requires forall i :: 0 <= i < ls.Length ==> ls[i] == -1
      modifies this
      ensures Valid() && entries == es && entryLookup == ls
      ensures Abstract() == Model([], es.Length, 0, old(handed), old(work))
    {
      capacity := es.Length;
      tableMask := capacity - 1;
      entries, entryLookup := es, ls;
      count, countUsed := 0, 0;
      chains := seq(capacity, _ => []);
      EmptySound(cfg.keys, entries[..], entryLookup[..]);
    }

    /** `pcl_htable_free`, up to the release of the memory. */
    method Free()
      requires Valid()
      modifies this`handed
      ensures handed == TableModel.Free(cfg, old(Abstract()))
    {
      HandOverAll();
    }

    /** `pcl_htable_iter`: the next live pair at or after index, and the index to go on from. */
    method Iter(index: int) returns (ent: Option<Pair<K, V>>, next: int)
      requires Valid()
      ensures !(0 <= index < countUsed) ==> ent.None? && next == index
      ensures 0 <= index < countUsed && ent.None? ==> next == -1 && Pairs(entries[..], index) == Items()
      ensures 0 <= index < countUsed && ent.Some? ==>
                index < next <= countUsed && Pairs(entries[..], next) == Pairs(entries[..], index) + [ent.value]
    {
      hide Sound, Lawful, IsPow2, Pairs;
      if index < 0 || index >= countUsed {
        return None, index;
      }
      var i := index;
      while i < countUsed
        invariant index <= i <= countUsed
        invariant Pairs(entries[..], i) == Pairs(entries[..], index)
      {
        PairsStep(entries[..], i);
        if entries[i].item.Some? {
          return entries[i].item, i + 1;
        }
        i := i + 1;
      }
      return None, -1;
    }

    /** The documented loop: from index 0 until null. It meets every live pair once, in
        insertion order, and ends. */
    method IterateAll() returns (ps: seq<Pair<K, V>>)
      requires Valid()
      ensures ps == Items() && |ps| == count
    {
      ps := [];
      var ent, index := Iter(0);
      assert Pairs(entries[..], 0) == [];
      while ent.Some?
        invariant ent.Some? ==> 0 < index <= countUsed && Pairs(entries[..], index) == ps + [ent.value]
        invariant ent.None? ==> ps == Items()
        decreases if ent.Some? then countUsed - index + 1 else 0
      {
        ps := ps + [ent.value];
        ent, index := Iter(index);
      }
    }

    /** `pcl_htable_keys`: the keys of the live pairs, in the order of iteration. */
    method Keys() returns (keys: seq<K>)
      requires Valid()
      ensures |keys| == count && count == |Items()|
      ensures forall i :: 0 <= i < |keys| ==> keys[i] == Items()[i].key
    {
      keys := [];
      if count != 0 {
        for i := 0 to countUsed
          invariant |keys| == |Pairs(entries[..], i)|
          invariant forall j :: 0 <= j < |keys| ==> keys[j] == Pairs(entries[..], i)[j].key
        {
          PairsStep(entries[..], i);
          if entries[i].item.Some? {
            keys := keys + [entries[i].item.value.key];
          }
        }
      }
    }

    /** One call of the interface. */
    method Apply(op: Op<K, V>) returns (r: Outcome<K, V>)
      requires Valid() && WritesInside(cfg, Abstract(), op)
      modifies this, entries, entryLookup
      ensures Valid()
      ensures (entries == old(entries) || fresh(entries)) && (entryLookup == old(entryLookup) || fresh(entryLookup))
      ensures (Abstract(), r) == Step(cfg, old(Abstract()), op)
    {
      match op {
        case Put(key, value, unique) => r := Put(key, value, unique);
        case Remove(key) => r := Remove(key);
        case Lookup(key) => r := Lookup(key);
        case Clear(shrink) => Clear(shrink); r := Done;
      }
    }

    /** A whole run of calls, in the arrays, is the run of the model: what RunIsMap,
        RunKeepsInsertionOrder, RunKeepsOwnership, DeadSlots and RehashingIsAmortised say of
        After and History holds of this table. */
    method Run(ops: seq<Op<K, V>>) returns (h: seq<Event<K, V>>)
      requires Valid() && SafeRun(cfg, Abstract(), ops)
      modifies this, entries, entryLookup
      ensures Valid()
      ensures Abstract() == After(cfg, old(Abstract()), ops)
      ensures h == History(cfg, old(Abstract()), ops)
    {
      h := [];
      for i := 0 to |ops|
        invariant Valid()
        invariant (entries == old(entries) || fresh(entries)) && (entryLookup == old(entryLookup) || fresh(entryLookup))
        invariant Abstract() == After(cfg, old(Abstract()), ops[..i])
        invariant h == History(cfg, old(Abstract()), ops[..i])
      {
        assert ops[..i + 1][..i] == ops[..i];
        var r := Apply(ops[i]);
        h := h + [Event(ops[i], r)];
      }
      assert ops[..|ops|] == ops;
    }
  }

  /** The in-place half of a clear: zero the entries, reset the bucket heads. */
  method EraseAll<K, V>(es: array<Entry<K, V>>, ls: array<int>)
    requires (es as object) != (ls as object) && es.Length == ls.Length
    modifies es, ls
    ensures forall i :: 0 <= i < es.Length ==> es[i].item.None?
    ensures forall i :: 0 <= i < ls.Length ==> ls[i] == -1
  {
    forall i | 0 <= i < es.Length {
      es[i] := Entry(0, 0, None);
    }
    for i := 0 to ls.Length
      invariant forall j :: 0 <= j < es.Length ==> es[j].item.None?
      invariant forall j :: 0 <= j < i ==> ls[j] == -1
    {
      ls[i] := -1;
    }
  }

  lemma NoPairs<K, V>(es: seq<Entry<K, V>>)
    ensures Pairs(es, 0) == []
  {
  }

  lemma MinIsPow2()
    ensures IsPow2(MINTBLSIZE)
  {
    assert MINTBLSIZE == Pow2(3);
  }

  /** The size a rehash asks for is already a power of two, so it is taken as it is or refused. */
  method RehashCapacity(capacity: nat, grow: bool) returns (size: Option<nat>)
    requires IsPow2(capacity) && MINTBLSIZE <= capacity <= MAXTBLSIZE && (!grow ==> capacity != MINTBLSIZE)
    ensures var want := if grow then 2 * capacity else capacity / 2;
            && size == (if want <= MAXTBLSIZE then Some(want) else None)
            && IsPow2(want) && MINTBLSIZE <= want
  {
    size := ChkCapacity(if grow then capacity * 2 else capacity / 2);
    ghost var want := if grow then 2 * capacity else capacity / 2;
    RehashSize(capacity, grow);
    assert LeastPow2(want, Max(want, MINTBLSIZE));
    if size.Some? {
      LeastPow2Unique(want, size.value, want);
    }
  }

  lemma ChainInRange<K, V>(es: seq<Entry<K, V>>, used: nat, ls: seq<int>, chains: seq<seq<nat>>, b: nat)
    requires Indexed(es, used, ls, chains) && b < |ls|
    ensures Descending(chains[b])
    ensures forall i :: 0 <= i < |chains[b]| ==> chains[b][i] < |es|
  {
    assert Chain(es, used, |ls|, b, ls[b], chains[b]);
    forall i | 0 <= i < |chains[b]| ensures chains[b][i] < |es| {
      assert Node(es, used, |ls|, b, chains[b], i);
    }
  }

  lemma RehashSize(capacity: nat, grow: bool)
    requires IsPow2(capacity) && MINTBLSIZE <= capacity && (!grow ==> capacity != MINTBLSIZE)
    ensures var want := if grow then 2 * capacity else capacity / 2;
            IsPow2(want) && LeastPow2(want, want) && Max(want, MINTBLSIZE) == want
  {
    HalfCapacity(capacity);
    Pow2Double(capacity);
    Pow2IsLeast(if grow then 2 * capacity else capacity / 2);
  }

  lemma {:induction false} LeastExists(n: nat, k: nat)
    requires 0 < n <= Pow2(k)
    ensures exists p: nat :: LeastPow2(p, n) && p <= Pow2(k)
  {
    if k == 0 || n > Pow2(k - 1) {
      forall q: nat | IsPow2(q) && n <= q ensures Pow2(k) <= q {
        var j: nat :| q == Pow2(j);
        if k > 0 {
          Pow2Reflects(k - 1, j);
          Pow2Monotone(k, j);
        }
      }
      assert LeastPow2(Pow2(k), n);
    } else {
      LeastExists(n, k - 1);
    }
  }
}
