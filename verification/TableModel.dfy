/** The table as a transition system over its abstract value: the live pairs in insertion
    order and the counters that decide when it is rehashed. Class HashTable is proved to
    take exactly these steps; the modules above this one prove what whole runs keep. */
module TableModel {
  import opened Common
  import opened Bits
  import opened Capacity
  import opened OrderedMap

  /** A load factor as an exact fraction. A float times a power of two is exact, so
      `(int) (loadfac * (float) capacity)` is this fraction of the capacity, cut off. */
  datatype LoadFactor = LoadFactor(num: nat, den: nat)

  function Threshold(f: LoadFactor, capacity: nat): nat
    requires f.den > 0
  {
    f.num * capacity / f.den
  }

  const DEFAULT_MAX := LoadFactor(3, 4)
  const DEFAULT_MIN := LoadFactor(13421773, 67108864)  // 0.2f, the single precision number nearest to 1/5

  /** By default a table grows at three quarters of its capacity, and shrinks below a fifth of
      it, up to the capacity where the inexact fifth first shows. */
  lemma DefaultThresholds(capacity: nat)
    ensures Threshold(DEFAULT_MAX, capacity) == 3 * capacity / 4
    ensures capacity < 0x400_0000 ==> Threshold(DEFAULT_MIN, capacity) == capacity / 5
    ensures Threshold(DEFAULT_MIN, 0x400_0000) == 0x400_0000 / 5 + 1
  {
    var q, r := capacity / 5, capacity % 5;
    var t := 13421773 * capacity;
    assert t == 67108864 * q + (13421773 * r + q) by {
      assert capacity == 5 * q + r;
    }
    if capacity < 0x400_0000 {
      assert 0 <= 13421773 * r + q < 67108864;
    }
  }

  /** The settings of a table: its two key callbacks, its load factors, and whether a
      remove_entry callback is installed. */
  datatype Config<!K> = Config(keys: KeyOps<K>, maxLoad: LoadFactor, minLoad: LoadFactor, callback: bool)

  /** Every live count below the shrink threshold of a table fits in half its capacity. */
  ghost predicate ShrinkFits(f: LoadFactor)
    requires f.den > 0
  {
    forall c: nat :: IsPow2(c) && MINTBLSIZE < c <= MAXTBLSIZE ==> Threshold(f, c) <= c / 2 + 1
  }

  ghost predicate ConfigOk<K(!new)>(cfg: Config<K>) {
    && Lawful(cfg.keys)
    && cfg.maxLoad.den > 0 && cfg.minLoad.den > 0
  }

  predicate HasDefaultLoad<K>(cfg: Config<K>) {
    cfg.maxLoad == DEFAULT_MAX && cfg.minLoad == DEFAULT_MIN
  }

  /** live: the pairs in the table, oldest first. used: slots of the entry array in use,
      removed ones included. handed: pairs given to remove_entry so far. work: slots that
      rehashing has scanned or initialised so far. */
  datatype Model<K, V> = Model(live: seq<Pair<K, V>>, capacity: nat, used: nat,
                               handed: seq<Pair<K, V>>, work: nat)

  /** The calls of the public interface. A key of None is the NULL key. */
  datatype Op<K, V> =
    | Put(key: Option<K>, value: V, unique: bool)
    | Remove(key: Option<K>)
    | Lookup(key: Option<K>)
    | Clear(shrink: bool)

  datatype Outcome<K, V> =
    | Done
    | Count(count: nat)
    | Found(pair: Pair<K, V>)
    | NotFound
    | Einval
    | Eexist
    | Erange

  ghost predicate ModelOk<K, V>(cfg: Config<K>, m: Model<K, V>) {
    && IsPow2(m.capacity) && MINTBLSIZE <= m.capacity <= MAXTBLSIZE
    && |m.live| <= m.used
    && Distinct(cfg.keys, m.live)
  }

  /** Slots touched by a rehash to the given capacity: every used entry is read, every new
      entry and every new bucket is written. */
  function Rehashed<K, V>(m: Model<K, V>, capacity: nat): Model<K, V> {
    m.(capacity := capacity, used := |m.live|, work := m.work + m.used + 2 * capacity)
  }

  function HandOver<K, V>(cfg: Config<K>, m: Model<K, V>, ps: seq<Pair<K, V>>): Model<K, V> {
    if cfg.callback then m.(handed := m.handed + ps) else m
  }

  predicate NeedsGrowth<K, V>(cfg: Config<K>, m: Model<K, V>)
    requires cfg.maxLoad.den > 0
  {
    |m.live| >= Threshold(cfg.maxLoad, m.capacity)
  }

  function PutStep<K, V>(cfg: Config<K>, m: Model<K, V>, k: K, v: V, unique: bool): (Model<K, V>, Outcome<K, V>)
    requires cfg.maxLoad.den > 0
  {
    var i := Position(cfg.keys, m.live, k);
    if i < |m.live| then
      if unique then (m, Eexist)
      else (HandOver(cfg, m.(live := m.live[i := Pair(k, v)]), [m.live[i]]), Done)
    else if NeedsGrowth(cfg, m) && 2 * m.capacity > MAXTBLSIZE then
      (m, Erange)
    else
      var g := if NeedsGrowth(cfg, m) then Rehashed(m, 2 * m.capacity) else m;
      (g.(live := g.live + [Pair(k, v)], used := g.used + 1), Done)
  }

  predicate NeedsShrink<K, V>(cfg: Config<K>, m: Model<K, V>)
    requires cfg.minLoad.den > 0
  {
    m.capacity != MINTBLSIZE && |m.live| < Threshold(cfg.minLoad, m.capacity)
  }

  function RemoveStep<K, V>(cfg: Config<K>, m: Model<K, V>, k: K): (Model<K, V>, Outcome<K, V>)
    requires cfg.minLoad.den > 0
  {
    var i := Position(cfg.keys, m.live, k);
    if i < |m.live| then
      var d := HandOver(cfg, m.(live := RemoveAt(m.live, i)), [m.live[i]]);
      (if NeedsShrink(cfg, d) then Rehashed(d, d.capacity / 2) else d, Count(|d.live|))
    else
      (m, Count(|m.live|))
  }

  function ClearStep<K, V>(cfg: Config<K>, m: Model<K, V>, shrink: bool): Model<K, V> {
    HandOver(cfg, m, m.live).(live := [], used := 0, capacity := if shrink then MINTBLSIZE else m.capacity)
  }

  function LookupStep<K, V>(cfg: Config<K>, m: Model<K, V>, k: K): Outcome<K, V> {
    var i := Position(cfg.keys, m.live, k);
    if i < |m.live| then Found(m.live[i]) else NotFound
  }

  function Step<K, V>(cfg: Config<K>, m: Model<K, V>, op: Op<K, V>): (Model<K, V>, Outcome<K, V>)
    requires cfg.maxLoad.den > 0 && cfg.minLoad.den > 0
  {
    match op
    case Put(None, _, _) => (m, Einval)
    case Put(Some(k), v, unique) => PutStep(cfg, m, k, v, unique)
    case Remove(None) => (m, Einval)
    case Remove(Some(k)) => RemoveStep(cfg, m, k)
    case Lookup(None) => (m, Einval)
    case Lookup(Some(k)) => (m, LookupStep(cfg, m, k))
    case Clear(shrink) => (ClearStep(cfg, m, shrink), Done)
  }

  /** `pcl_htable` on a checked capacity. */
  function Empty<K, V>(capacity: nat): Model<K, V> {
    Model([], capacity, 0, [], 0)
  }

  /** `pcl_htable_free`: the callback sees every live pair. */
  function Free<K, V>(cfg: Config<K>, m: Model<K, V>): seq<Pair<K, V>> {
    HandOver(cfg, m, m.live).handed
  }

  /** Every slot of `entries` that the call writes a pair to lies inside the array: the one
      that a put appends at, and those that a shrink moves the live pairs to. */
  predicate WritesInside<K, V>(cfg: Config<K>, m: Model<K, V>, op: Op<K, V>)
    requires cfg.maxLoad.den > 0 && cfg.minLoad.den > 0
  {
    var (m', out) := Step(cfg, m, op);
    && (op.Put? && op.key.Some? && !Has(cfg.keys, m.live, op.key.value) && out == Done ==> m'.used - 1 < m'.capacity)
    && (op.Remove? ==> |m'.live| <= m'.capacity)
  }

  /** What one call does to the invariant: nothing. */
  lemma StepKeepsOk<K(!new), V>(cfg: Config<K>, m: Model<K, V>, op: Op<K, V>)
    requires ConfigOk(cfg) && ModelOk(cfg, m)
    ensures ModelOk(cfg, Step(cfg, m, op).0)
  {
    match op {
      case Put(Some(k), v, _) =>
        DistinctAfterSet(cfg.keys, m.live, k, v);
        Pow2Double(m.capacity);
      case Remove(Some(k)) =>
        DistinctAfterDelete(cfg.keys, m.live, k);
        HalfCapacity(m.capacity);
      case Clear(_) =>
        assert IsPow2(MINTBLSIZE) by { assert MINTBLSIZE == Pow2(3); }
      case _ =>
    }
  }

  /** Above the minimum a capacity halves to a legal capacity. */
  lemma HalfCapacity(c: nat)
    requires IsPow2(c) && MINTBLSIZE <= c
    ensures c != MINTBLSIZE ==> c >= 2 * MINTBLSIZE && c % 2 == 0 && IsPow2(c / 2)
  {
    if c != MINTBLSIZE {
      Pow2Half(c);
      Pow2Half(c / 2);
      Pow2Half(c / 4);
      var k: nat :| c == Pow2(k);
      assert MINTBLSIZE == Pow2(3);
      Pow2Reflects(3, k);
      Pow2Monotone(4, k);
    }
  }

  /** A put writes past the entry array exactly when its key is new, the count is below the
      growth threshold and no unused slot is left: growth looks at the live count only. */
  lemma WritesInsideIff<K(!new), V>(cfg: Config<K>, m: Model<K, V>, k: K, v: V, unique: bool)
    requires ConfigOk(cfg) && ModelOk(cfg, m) && m.used <= m.capacity
    ensures WritesInside(cfg, m, Put(Some(k), v, unique)) <==>
            Has(cfg.keys, m.live, k) || NeedsGrowth(cfg, m) || m.used < m.capacity
  {
  }

  /** A remove writes past the entry array exactly when it shrinks the table with more pairs
      left than half the capacity holds. */
  lemma RemoveInsideIff<K(!new), V>(cfg: Config<K>, m: Model<K, V>, k: K)
    requires ConfigOk(cfg) && ModelOk(cfg, m) && m.used <= m.capacity
    ensures WritesInside(cfg, m, Remove(Some(k))) <==>
            !(Has(cfg.keys, m.live, k) && m.capacity != MINTBLSIZE
              && m.capacity / 2 < |m.live| - 1 < Threshold(cfg.minLoad, m.capacity))
  {
  }

  /** Calls that write inside the array are those that leave no more slots in use than it has. */
  lemma InsideIsFitting<K(!new), V>(cfg: Config<K>, m: Model<K, V>, op: Op<K, V>)
    requires ConfigOk(cfg) && ModelOk(cfg, m) && m.used <= m.capacity
    ensures var m' := Step(cfg, m, op).0; WritesInside(cfg, m, op) <==> m'.used <= m'.capacity
  {
    match op {
      case Put(Some(_), _, _) =>
      case Remove(Some(k)) => RemoveInsideIff(cfg, m, k);
      case _ =>
    }
  }

  lemma FittingShrink<K(!new), V>(cfg: Config<K>, m: Model<K, V>, key: Option<K>)
    requires ConfigOk(cfg) && ShrinkFits(cfg.minLoad) && ModelOk(cfg, m) && m.used <= m.capacity
    ensures WritesInside(cfg, m, Remove(key))
  {
    if key.Some? {
      RemoveInsideIff(cfg, m, key.value);
    }
  }

  /** The shrink threshold suits every capacity if and only if it suits the largest. */
  lemma ShrinkFitsIff(f: LoadFactor)
    requires f.den > 0
    ensures ShrinkFits(f) <==> Threshold(f, MAXTBLSIZE) <= MAXTBLSIZE / 2 + 1
  {
    MaxIsPow2();
    if Threshold(f, MAXTBLSIZE) <= MAXTBLSIZE / 2 + 1 {
      forall c: nat | IsPow2(c) && MINTBLSIZE < c <= MAXTBLSIZE ensures Threshold(f, c) <= c / 2 + 1 {
        var k: nat :| c == Pow2(k);
        if k > 30 {
          Pow2Monotone(31, k);
        }
        FitsBelow(f, k, 30);
      }
    }
  }

  lemma {:induction false} FitsBelow(f: LoadFactor, k: nat, n: nat)
    requires f.den > 0 && 0 < k <= n && Threshold(f, Pow2(n)) <= Pow2(n) / 2 + 1
    ensures Threshold(f, Pow2(k)) <= Pow2(k) / 2 + 1
  {
    if k < n {
      ThresholdDoubles(f, Pow2(n - 1));
      assert Pow2(n - 1) == 2 * Pow2(n - 2);
      FitsBelow(f, k, n - 1);
    }
  }

  /** Doubling a capacity at least doubles its growth threshold. */
  lemma ThresholdDoubles(f: LoadFactor, c: nat)
    requires f.den > 0
    ensures Threshold(f, 2 * c) >= 2 * Threshold(f, c)
  {
    var t := Threshold(f, c);
    assert t * f.den <= f.num * c;
    assert (2 * t) * f.den <= f.num * (2 * c);
    DivAtLeast(f.num * (2 * c), f.den, 2 * t);
  }

  lemma DivAtLeast(a: nat, d: nat, q: nat)
    requires d > 0 && q * d <= a
    ensures a / d >= q
  {
    var r := a / d;
    assert a < (r + 1) * d;
    assert q * d < (r + 1) * d;
    assert q >= r + 1 ==> q * d >= (r + 1) * d;
  }

  /** A minimum load factor of at most one half never asks for a shrink that does not fit. */
  lemma HalfLoadShrinkFits(f: LoadFactor)
    requires f.den > 0 && 2 * f.num <= f.den
    ensures ShrinkFits(f)
  {
    HalfOf(f.num, f.den, MAXTBLSIZE);
    ShrinkFitsIff(f);
  }

  lemma HalfOf(num: nat, den: nat, c: nat)
    requires den > 0 && 2 * num <= den
    ensures num * c / den <= c / 2
  {
    var t := num * c / den;
    assert t * den <= num * c;
    assert (2 * t) * den <= (2 * num) * c;
    assert (2 * num) * c <= den * c;
    assert (2 * t) * den <= c * den;
    CancelFactor(2 * t, c, den);
  }

  lemma CancelFactor(a: nat, b: nat, d: nat)
    requires d > 0 && a * d <= b * d
    ensures a <= b
  {
    assert a >= b + 1 ==> a * d >= (b + 1) * d;
  }
}
