/** Two accounts of whole runs: who owns each pair, and how much work all rehashes together
    have done. */
module TableAccounts {
  import opened Common
  import opened Bits
  import opened Capacity
  import opened OrderedMap
  import opened TableModel
  import opened TableRuns
  import opened TableSlots

  // ---- ownership ----

  /** The pairs that puts have accepted. */
  function Accepted<K, V>(h: seq<Event<K, V>>): seq<Pair<K, V>> {
    if h == [] then []
    else
      var e := h[|h| - 1];
      Accepted(h[..|h| - 1]) +
      if e.op.Put? && e.op.key.Some? && e.outcome == Done then [Pair(e.op.key.value, e.op.value)] else []
  }

  /** A pair in the table is either kept or handed to the callback. */
  lemma StepKeepsOwnership<K(!new), V>(cfg: Config<K>, m: Model<K, V>, op: Op<K, V>)
    requires cfg.maxLoad.den > 0 && cfg.minLoad.den > 0 && cfg.callback
    ensures var (m', out) := Step(cfg, m, op);
            multiset(m'.live) + multiset(m'.handed) ==
            multiset(m.live) + multiset(m.handed) +
            (if op.Put? && op.key.Some? && out == Done
             then multiset{Pair(op.key.value, op.value)} else multiset{})
  {
    match op {
      case Put(Some(k), v, unique) => PutKeepsOwnership(cfg, m, k, v, unique);
      case Remove(Some(k)) => RemoveKeepsOwnership(cfg, m, k);
      case Clear(_) => assert multiset(m.handed + m.live) == multiset(m.handed) + multiset(m.live);
      case _ =>
    }
  }

  lemma PutKeepsOwnership<K(!new), V>(cfg: Config<K>, m: Model<K, V>, k: K, v: V, unique: bool)
    requires cfg.maxLoad.den > 0 && cfg.callback
    ensures var (m', out) := PutStep(cfg, m, k, v, unique);
            multiset(m'.live) + multiset(m'.handed) ==
            multiset(m.live) + multiset(m.handed) +
            (if out == Done then multiset{Pair(k, v)} else multiset{})
  {
    var i := Position(cfg.keys, m.live, k);
    if i < |m.live| {
      ReplaceOne(m.live, i, Pair(k, v));
      assert multiset(m.handed + [m.live[i]]) == multiset(m.handed) + multiset{m.live[i]};
    } else {
      assert multiset(m.live + [Pair(k, v)]) == multiset(m.live) + multiset{Pair(k, v)};
    }
  }

  lemma RemoveKeepsOwnership<K(!new), V>(cfg: Config<K>, m: Model<K, V>, k: K)
    requires cfg.minLoad.den > 0 && cfg.callback
    ensures var m' := RemoveStep(cfg, m, k).0;
            multiset(m'.live) + multiset(m'.handed) == multiset(m.live) + multiset(m.handed)
  {
    var i := Position(cfg.keys, m.live, k);
    if i < |m.live| {
      TakeOut(m.live, i);
      assert multiset(m.handed + [m.live[i]]) == multiset(m.handed) + multiset{m.live[i]};
    }
  }

  lemma ReplaceOne<T>(s: seq<T>, i: nat, x: T)
    requires i < |s|
    ensures multiset(s[i := x]) + multiset{s[i]} == multiset(s) + multiset{x}
  {
    TakeOut(s, i);
    TakeOut(s[i := x], i);
    assert RemoveAt(s[i := x], i) == RemoveAt(s, i);
  }

  lemma TakeOut<T>(s: seq<T>, i: nat)
    requires i < |s|
    ensures multiset(s) == multiset(RemoveAt(s, i)) + multiset{s[i]}
  {
    assert s == s[..i] + [s[i]] + s[i + 1..];
  }

  /** Over every run, what was accepted is what is live or was handed over, pair by pair;
      and a free hands over the rest, so that each accepted pair is handed over exactly once. */
  lemma {:induction false} RunKeepsOwnership<K(!new), V>(cfg: Config<K>, capacity: nat, ops: seq<Op<K, V>>)
    requires cfg.maxLoad.den > 0 && cfg.minLoad.den > 0 && cfg.callback
    ensures var m, h := After(cfg, Empty<K, V>(capacity), ops), History(cfg, Empty<K, V>(capacity), ops);
            && multiset(Accepted(h)) == multiset(m.live) + multiset(m.handed)
            && multiset(Accepted(h)) == multiset(Free(cfg, m))
  {
    if ops != [] {
      var front, op := ops[..|ops| - 1], ops[|ops| - 1];
      var m := After(cfg, Empty<K, V>(capacity), front);
      var h := History(cfg, Empty<K, V>(capacity), ops);
      RunKeepsOwnership(cfg, capacity, front);
      StepKeepsOwnership(cfg, m, op);
      assert h[..|h| - 1] == History(cfg, Empty<K, V>(capacity), front);
    }
  }

  // ---- work ----

  /** Stored up effort: four units for each slot of capacity, and thirty-six for each pair
      above half the capacity. */
  function Potential<K, V>(m: Model<K, V>): nat {
    4 * m.capacity + (if 2 * |m.live| > m.capacity then 18 * (2 * |m.live| - m.capacity) else 0)
  }

  /** With the default load factors one call raises work and potential by at most 36. */
  lemma StepCost<K(!new), V>(cfg: Config<K>, m: Model<K, V>, op: Op<K, V>)
    requires ConfigOk(cfg) && HasDefaultLoad(cfg) && ModelOk(cfg, m)
    requires m.used <= m.capacity && |m.live| <= Threshold(cfg.maxLoad, m.capacity)
    ensures var m' := Step(cfg, m, op).0; m'.work + Potential(m') <= m.work + Potential(m) + 36
  {
    match op {
      case Put(Some(k), v, unique) => PutCost(cfg, m, k, v, unique);
      case Remove(Some(k)) => RemoveCost(cfg, m, k);
      case _ =>
    }
  }

  lemma PutCost<K(!new), V>(cfg: Config<K>, m: Model<K, V>, k: K, v: V, unique: bool)
    requires cfg.maxLoad == DEFAULT_MAX && IsPow2(m.capacity) && MINTBLSIZE <= m.capacity
    requires |m.live| <= m.used <= m.capacity && |m.live| <= Threshold(cfg.maxLoad, m.capacity)
    ensures var m' := PutStep(cfg, m, k, v, unique).0; m'.work + Potential(m') <= m.work + Potential(m) + 36
  {
    QuarterCapacity(m.capacity);
  }

  lemma RemoveCost<K(!new), V>(cfg: Config<K>, m: Model<K, V>, k: K)
    requires cfg.minLoad == DEFAULT_MIN && IsPow2(m.capacity) && MINTBLSIZE <= m.capacity
    requires |m.live| <= m.used <= m.capacity
    ensures var m' := RemoveStep(cfg, m, k).0; m'.work + Potential(m') <= m.work + Potential(m) + 36
  {
    HalfCapacity(m.capacity);
  }

  lemma QuarterCapacity(c: nat)
    requires IsPow2(c) && MINTBLSIZE <= c
    ensures c % 4 == 0
  {
    Pow2Half(c);
    Pow2Half(c / 2);
  }

  /** Amortised cost: over any run of puts, removes, lookups and clears with the default load
      factors, all rehashes together touch at most 36 slots per call and 4 per initial slot. */
  lemma {:induction false} RehashingIsAmortised<K(!new), V>(cfg: Config<K>, capacity: nat, ops: seq<Op<K, V>>)
    requires ConfigOk(cfg) && HasDefaultLoad(cfg) && ModelOk(cfg, Empty<K, V>(capacity))
    requires SafeRun(cfg, Empty<K, V>(capacity), ops)
    ensures var m := After(cfg, Empty<K, V>(capacity), ops);
            m.work + Potential(m) <= 36 * |ops| + 4 * capacity
  {
    if ops != [] {
      var front, op := ops[..|ops| - 1], ops[|ops| - 1];
      var m := After(cfg, Empty<K, V>(capacity), front);
      SafeFront(cfg, Empty<K, V>(capacity), ops);
      RehashingIsAmortised(cfg, capacity, front);
      AfterOk(cfg, Empty<K, V>(capacity), front);
      SafeRunFits(cfg, capacity, front);
      DefaultIsSteady(cfg);
      CountBounded(cfg, capacity, front);
      StepCost(cfg, m, op);
    }
  }
}
