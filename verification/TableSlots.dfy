/** How many slots of the entry array are in use over whole runs, and which runs stay inside
    the array. */
module TableSlots {
  import opened Common
  import opened Bits
  import opened Capacity
  import opened OrderedMap
  import opened TableModel
  import opened TableRuns

  /** A run in which every call writes inside the entry array. */
  ghost predicate SafeRun<K, V>(cfg: Config<K>, m: Model<K, V>, ops: seq<Op<K, V>>)
    requires cfg.maxLoad.den > 0 && cfg.minLoad.den > 0
  {
    forall i :: 0 <= i < |ops| ==> WritesInside(cfg, After(cfg, m, ops[..i]), ops[i])
  }

  /** The successful removes since the table was last rehashed or cleared. Of these two only
      a rehash of a table changes its capacity without being asked to. */
  function RemovesSinceReset<K, V>(cfg: Config<K>, m: Model<K, V>, ops: seq<Op<K, V>>): nat
    requires cfg.maxLoad.den > 0 && cfg.minLoad.den > 0
  {
    if ops == [] then 0
    else
      var front, op := ops[..|ops| - 1], ops[|ops| - 1];
      var before, after := After(cfg, m, front), After(cfg, m, ops);
      if op.Clear? || after.capacity != before.capacity then 0
      else RemovesSinceReset(cfg, m, front) + (if op.Remove? && |after.live| < |before.live| then 1 else 0)
  }

  lemma DeadSlotsStep<K(!new), V>(cfg: Config<K>, m: Model<K, V>, op: Op<K, V>)
    requires ConfigOk(cfg) && ModelOk(cfg, m)
    ensures var m' := Step(cfg, m, op).0;
            m'.used - |m'.live| ==
            if op.Clear? || m'.capacity != m.capacity then 0
            else m.used - |m.live| + (if op.Remove? && |m'.live| < |m.live| then 1 else 0)
  {
    HalfCapacity(m.capacity);
    match op {
      case Put(Some(_), _, _) =>
      case Remove(Some(_)) =>
      case _ =>
    }
  }

  /** The dead slots are exactly the removes since the last reset. */
  lemma {:induction false} DeadSlots<K(!new), V>(cfg: Config<K>, m: Model<K, V>, ops: seq<Op<K, V>>)
    requires ConfigOk(cfg) && ModelOk(cfg, m) && m.used == |m.live|
    ensures After(cfg, m, ops).used - |After(cfg, m, ops).live| == RemovesSinceReset(cfg, m, ops)
  {
    if ops != [] {
      DeadSlots(cfg, m, ops[..|ops| - 1]);
      AfterOk(cfg, m, ops[..|ops| - 1]);
      DeadSlotsStep(cfg, After(cfg, m, ops[..|ops| - 1]), ops[|ops| - 1]);
    }
  }

  lemma SafeFront<K, V>(cfg: Config<K>, m: Model<K, V>, ops: seq<Op<K, V>>)
    requires cfg.maxLoad.den > 0 && cfg.minLoad.den > 0
    requires ops != [] && SafeRun(cfg, m, ops)
    ensures SafeRun(cfg, m, ops[..|ops| - 1])
    ensures WritesInside(cfg, After(cfg, m, ops[..|ops| - 1]), ops[|ops| - 1])
  {
    var front := ops[..|ops| - 1];
    forall i | 0 <= i < |front| ensures WritesInside(cfg, After(cfg, m, front[..i]), front[i]) {
      assert front[..i] == ops[..i];
    }
  }

  lemma SafeBack<K, V>(cfg: Config<K>, m: Model<K, V>, ops: seq<Op<K, V>>)
    requires cfg.maxLoad.den > 0 && cfg.minLoad.den > 0
    requires ops != [] && SafeRun(cfg, m, ops[..|ops| - 1])
    requires WritesInside(cfg, After(cfg, m, ops[..|ops| - 1]), ops[|ops| - 1])
    ensures SafeRun(cfg, m, ops)
  {
    var front := ops[..|ops| - 1];
    forall i | 0 <= i < |ops| ensures WritesInside(cfg, After(cfg, m, ops[..i]), ops[i]) {
      if i < |front| {
        assert front[..i] == ops[..i] && front[i] == ops[i];
      }
    }
  }

  /** In a safe run the slots in use never outnumber those of the array. */
  lemma {:induction false} SafeRunFits<K(!new), V>(cfg: Config<K>, capacity: nat, ops: seq<Op<K, V>>)
    requires ConfigOk(cfg) && ModelOk(cfg, Empty<K, V>(capacity)) && SafeRun(cfg, Empty<K, V>(capacity), ops)
    ensures After(cfg, Empty<K, V>(capacity), ops).used <= After(cfg, Empty<K, V>(capacity), ops).capacity
  {
    if ops != [] {
      SafeFront(cfg, Empty<K, V>(capacity), ops);
      SafeRunFits(cfg, capacity, ops[..|ops| - 1]);
      var m := After(cfg, Empty<K, V>(capacity), ops[..|ops| - 1]);
      AfterOk(cfg, Empty<K, V>(capacity), ops[..|ops| - 1]);
      InsideIsFitting(cfg, m, ops[|ops| - 1]);
    }
  }

  // ---- the live count ----

  ghost predicate Bounded<K, V>(cfg: Config<K>, m: Model<K, V>)
    requires cfg.maxLoad.den > 0
  {
    |m.live| <= Threshold(cfg.maxLoad, m.capacity)
  }

  /** Halving capacity c cannot leave the live count above the growth threshold: either that
      threshold is out of reach, or it hardly moves, or shrinking starts below it. */
  ghost predicate HalvesSteadily<K(!new)>(cfg: Config<K>, c: nat)
    requires ConfigOk(cfg)
  {
    var t := Threshold(cfg.maxLoad, c / 2);
    t >= c / 2 || Threshold(cfg.maxLoad, c) <= t + 1 || Threshold(cfg.minLoad, c) <= t + 1
  }

  /** Load factors under which the growth threshold caps the live count. */
  ghost predicate Steady<K(!new)>(cfg: Config<K>) {
    && ConfigOk(cfg)
    && Threshold(cfg.maxLoad, 2 * MINTBLSIZE) >= 1
    && forall c: nat :: IsPow2(c) && MINTBLSIZE < c <= MAXTBLSIZE ==> HalvesSteadily(cfg, c)
  }

  lemma {:induction false} ThresholdPositive(f: LoadFactor, c: nat, k: nat)
    requires f.den > 0 && Threshold(f, 2 * MINTBLSIZE) >= 1 && c == Pow2(k) && c > MINTBLSIZE
    ensures Threshold(f, c) >= 1
    decreases k
  {
    HalfCapacity(c);
    if c != 2 * MINTBLSIZE {
      ThresholdPositive(f, c / 2, k - 1);
      ThresholdDoubles(f, c / 2);
    }
  }

  /** A minimum load factor of at most half the maximum is steady. */
  lemma HalfOfMaxIsSteady<K(!new)>(cfg: Config<K>)
    requires ConfigOk(cfg) && Threshold(cfg.maxLoad, 2 * MINTBLSIZE) >= 1
    requires 2 * cfg.minLoad.num * cfg.maxLoad.den <= cfg.maxLoad.num * cfg.minLoad.den
    ensures Steady(cfg)
  {
    forall c: nat | IsPow2(c) && MINTBLSIZE < c <= MAXTBLSIZE ensures HalvesSteadily(cfg, c) {
      HalfCapacity(c);
      ShrinkBelowGrowth(cfg.minLoad, cfg.maxLoad, c);
    }
  }

  lemma DefaultIsSteady<K(!new)>(cfg: Config<K>)
    requires ConfigOk(cfg) && HasDefaultLoad(cfg)
    ensures Steady(cfg)
  {
    HalfOfMaxIsSteady(cfg);
  }

  /** The shrink threshold of a table is within the growth threshold of half its size. */
  lemma ShrinkBelowGrowth(min: LoadFactor, max: LoadFactor, c: nat)
    requires min.den > 0 && max.den > 0 && c % 2 == 0
    requires 2 * min.num * max.den <= max.num * min.den
    ensures Threshold(min, c) <= Threshold(max, c / 2)
  {
    var a, b, p, q := min.num, min.den, max.num, max.den;
    var h := c / 2;
    var t := Threshold(min, c);
    assert t * b <= a * c;
    assert a * c == (2 * a) * h;
    assert t * b <= (2 * a) * h;
    assert (t * b) * q <= ((2 * a) * h) * q;
    assert ((2 * a) * h) * q == (2 * a * q) * h;
    assert (2 * a * q) * h <= (p * b) * h;
    assert (p * b) * h == (p * h) * b;
    assert (t * b) * q == (t * q) * b;
    CancelFactor(t * q, p * h, b);
    DivAtLeast(p * h, q, t);
  }

  lemma StepKeepsBound<K(!new), V>(cfg: Config<K>, m: Model<K, V>, op: Op<K, V>)
    requires Steady(cfg) && ModelOk(cfg, m) && m.used <= m.capacity && Bounded(cfg, m) && WritesInside(cfg, m, op)
    ensures Bounded(cfg, Step(cfg, m, op).0)
  {
    match op {
      case Put(Some(k), _, _) =>
        var j: nat :| 2 * m.capacity == Pow2(j) by { Pow2Double(m.capacity); }
        ThresholdPositive(cfg.maxLoad, 2 * m.capacity, j);
        ThresholdDoubles(cfg.maxLoad, m.capacity);
      case Remove(Some(k)) =>
        HalfCapacity(m.capacity);
        assert m.capacity != MINTBLSIZE ==> HalvesSteadily(cfg, m.capacity);
      case _ =>
    }
  }

  /** The live count never exceeds the growth threshold. */
  lemma {:induction false} CountBounded<K(!new), V>(cfg: Config<K>, capacity: nat, ops: seq<Op<K, V>>)
    requires Steady(cfg) && ModelOk(cfg, Empty<K, V>(capacity)) && SafeRun(cfg, Empty<K, V>(capacity), ops)
    ensures Bounded(cfg, After(cfg, Empty<K, V>(capacity), ops))
  {
    if ops != [] {
      var front := ops[..|ops| - 1];
      var m := After(cfg, Empty<K, V>(capacity), front);
      SafeFront(cfg, Empty<K, V>(capacity), ops);
      CountBounded(cfg, capacity, front);
      AfterOk(cfg, Empty<K, V>(capacity), front);
      SafeRunFits(cfg, capacity, front);
      StepKeepsBound(cfg, m, ops[|ops| - 1]);
    }
  }

  /** As long as the dead slots fit above the growth threshold, no call leaves the array. */
  lemma {:induction false} FewRemovesAreSafe<K(!new), V>(cfg: Config<K>, capacity: nat, ops: seq<Op<K, V>>)
    requires ConfigOk(cfg) && ShrinkFits(cfg.minLoad) && ModelOk(cfg, Empty<K, V>(capacity))
    requires forall i :: 0 <= i < |ops| ==> RoomAbove(cfg, Empty<K, V>(capacity), ops[..i])
    ensures SafeRun(cfg, Empty<K, V>(capacity), ops)
  {
    if ops != [] {
      var front, op := ops[..|ops| - 1], ops[|ops| - 1];
      var start := Empty<K, V>(capacity);
      forall i | 0 <= i < |front| ensures RoomAbove(cfg, start, front[..i]) {
        assert front[..i] == ops[..i];
      }
      FewRemovesAreSafe(cfg, capacity, front);
      SafeRunFits(cfg, capacity, front);
      AfterOk(cfg, start, front);
      DeadSlots(cfg, start, front);
      RoomIsInside(cfg, After(cfg, start, front), op);
      SafeBack(cfg, start, ops);
    }
  }

  /** After these calls, the removes since the last reset fit between growth threshold and
      capacity. */
  ghost predicate RoomAbove<K, V>(cfg: Config<K>, m: Model<K, V>, ops: seq<Op<K, V>>)
    requires cfg.maxLoad.den > 0 && cfg.minLoad.den > 0
  {
    var capacity := After(cfg, m, ops).capacity;
    RemovesSinceReset(cfg, m, ops) + Threshold(cfg.maxLoad, capacity) <= capacity
  }

  lemma RoomIsInside<K(!new), V>(cfg: Config<K>, m: Model<K, V>, op: Op<K, V>)
    requires ConfigOk(cfg) && ShrinkFits(cfg.minLoad) && ModelOk(cfg, m) && m.used <= m.capacity
    requires m.used - |m.live| + Threshold(cfg.maxLoad, m.capacity) <= m.capacity
    ensures WritesInside(cfg, m, op)
  {
    match op {
      case Put(Some(k), v, unique) => WritesInsideIff(cfg, m, k, v, unique);
      case Remove(key) => FittingShrink(cfg, m, key);
      case _ =>
    }
  }

  // ---- filling a table ----

  /** Puts of one value under each of the keys. */
  function PutAll<K, V>(ks: seq<K>, v: V): (ops: seq<Op<K, V>>)
    ensures |ops| == |ks|
    ensures forall i :: 0 <= i < |ks| ==> ops[i] == Put(Some(ks[i]), v, true)
  {
    seq(|ks|, i requires 0 <= i < |ks| => Put(Some(ks[i]), v, true))
  }

  /** Keys that are neither in the table nor equal to one another. */
  ghost predicate Fresh<K, V>(cfg: Config<K>, m: Model<K, V>, ks: seq<K>) {
    && (forall i :: 0 <= i < |ks| ==> !Has(cfg.keys, m.live, ks[i]))
    && (forall i, j :: 0 <= i < j < |ks| ==> !cfg.keys.equals(ks[i], ks[j]))
  }

  function Filled<K, V>(m: Model<K, V>, ks: seq<K>, v: V): Model<K, V> {
    m.(live := m.live + seq(|ks|, i requires 0 <= i < |ks| => Pair(ks[i], v)), used := m.used + |ks|)
  }

  lemma FreshPutAppends<K(!new), V>(cfg: Config<K>, m: Model<K, V>, k: K, v: V)
    requires ConfigOk(cfg) && !Has(cfg.keys, m.live, k)
    requires |m.live| < Threshold(cfg.maxLoad, m.capacity)
    ensures Step(cfg, m, Put(Some(k), v, true)).0 == m.(live := m.live + [Pair(k, v)], used := m.used + 1)
  {
  }

  lemma AfterPush<K, V>(cfg: Config<K>, m: Model<K, V>, ops: seq<Op<K, V>>, op: Op<K, V>)
    requires cfg.maxLoad.den > 0 && cfg.minLoad.den > 0
    ensures After(cfg, m, ops + [op]) == Step(cfg, After(cfg, m, ops), op).0
  {
    assert (ops + [op])[..|ops|] == ops;
  }

  lemma FilledSnoc<K, V>(m: Model<K, V>, ks: seq<K>, v: V)
    requires ks != []
    ensures var f := Filled(m, ks[..|ks| - 1], v);
            Filled(m, ks, v) == f.(live := f.live + [Pair(ks[|ks| - 1], v)], used := f.used + 1)
  {
    var f := Filled(m, ks[..|ks| - 1], v);
    assert Filled(m, ks, v).live == f.live + [Pair(ks[|ks| - 1], v)];
  }

  /** Below the growth threshold fresh puts only append. */
  lemma {:induction false} AfterFreshPuts<K(!new), V>(cfg: Config<K>, m: Model<K, V>, ks: seq<K>, v: V)
    requires ConfigOk(cfg) && Fresh(cfg, m, ks)
    requires |m.live| + |ks| <= Threshold(cfg.maxLoad, m.capacity)
    ensures After(cfg, m, PutAll(ks, v)) == Filled(m, ks, v)
  {
    hide Step, Distinct, Lawful, Position;
    if ks == [] {
      assert Filled(m, ks, v).live == m.live;
    } else {
      var n := |ks| - 1;
      AfterFreshPuts(cfg, m, ks[..n], v);
      var put: Op<K, V> := Put(Some(ks[n]), v, true);
      assert PutAll(ks, v) == PutAll(ks[..n], v) + [put];
      FreshPutIsNew(cfg, m, ks, v, n);
      var f := Filled(m, ks[..n], v);
      AfterPush(cfg, m, PutAll(ks[..n], v), put);
      FreshPutAppends(cfg, f, ks[n], v);
      FilledSnoc(m, ks, v);
    }
  }

  /** Filling a table with fresh keys up to its growth threshold stays inside the array if
      and only if the dead slots fit between threshold and capacity. */
  lemma FillIsSafeIff<K(!new), V>(cfg: Config<K>, m: Model<K, V>, ks: seq<K>, v: V)
    requires ConfigOk(cfg) && ModelOk(cfg, m) && Fresh(cfg, m, ks) && m.used <= m.capacity
    requires |m.live| + |ks| == Threshold(cfg.maxLoad, m.capacity)
    ensures SafeRun(cfg, m, PutAll(ks, v)) <==>
            m.used - |m.live| + Threshold(cfg.maxLoad, m.capacity) <= m.capacity
  {
    var ops := PutAll(ks, v);
    forall i | 0 <= i < |ks|
      ensures WritesInside(cfg, After(cfg, m, ops[..i]), ops[i]) <==> m.used + i < m.capacity
    {
      FillWritesInside(cfg, m, ks, v, i);
    }
    if |ks| > 0 {
      assert WritesInside(cfg, After(cfg, m, ops[..|ks| - 1]), ops[|ks| - 1]) <==> m.used + |ks| - 1 < m.capacity;
    }
  }

  lemma FillWritesInside<K(!new), V>(cfg: Config<K>, m: Model<K, V>, ks: seq<K>, v: V, i: nat)
    requires ConfigOk(cfg) && ModelOk(cfg, m) && Fresh(cfg, m, ks) && m.used <= m.capacity && i < |ks|
    requires |m.live| + |ks| <= Threshold(cfg.maxLoad, m.capacity)
    ensures var ops := PutAll(ks, v);
            WritesInside(cfg, After(cfg, m, ops[..i]), ops[i]) <==> m.used + i < m.capacity
  {
    var ops := PutAll(ks, v);
    AfterFreshPuts(cfg, m, ks[..i], v);
    assert ops[..i] == PutAll(ks[..i], v);
    FreshPutIsNew(cfg, m, ks, v, i);
  }

  lemma FreshPutIsNew<K(!new), V>(cfg: Config<K>, m: Model<K, V>, ks: seq<K>, v: V, i: nat)
    requires Fresh(cfg, m, ks) && i < |ks|
    ensures !Has(cfg.keys, Filled(m, ks[..i], v).live, ks[i])
  {
    var f := Filled(m, ks[..i], v);
    forall j | 0 <= j < |f.live| ensures !cfg.keys.equals(f.live[j].key, ks[i]) {
      assert j < |m.live| ==> f.live[j] == m.live[j];
    }
  }

  /** n times: put a key, remove it again. */
  function Toggles<K, V>(k: K, v: V, n: nat): seq<Op<K, V>> {
    if n == 0 then [] else Toggles(k, v, n - 1) + [Put(Some(k), v, true), Remove(Some(k))]
  }

  lemma {:induction false} AfterToggles<K(!new), V>(cfg: Config<K>, k: K, v: V, n: nat)
    requires ConfigOk(cfg) && HasDefaultLoad(cfg) && !cfg.callback
    ensures After(cfg, Empty<K, V>(MINTBLSIZE), Toggles(k, v, n)) == Model([], MINTBLSIZE, n, [], 0)
  {
    hide Step;
    if n > 0 {
      AfterToggles<K, V>(cfg, k, v, n - 1);
      var front := Toggles<K, V>(k, v, n - 1);
      var put: Op<K, V>, remove: Op<K, V> := Put(Some(k), v, true), Remove(Some(k));
      assert front + [put, remove] == (front + [put]) + [remove];
      AfterPush(cfg, Empty(MINTBLSIZE), front, put);
      AfterPush(cfg, Empty(MINTBLSIZE), front + [put], remove);
      ToggleStep(cfg, k, v, n - 1);
    }
  }

  lemma ToggleStep<K(!new), V>(cfg: Config<K>, k: K, v: V, used: nat)
    requires ConfigOk(cfg) && HasDefaultLoad(cfg) && !cfg.callback
    ensures var m: Model<K, V> := Model([], MINTBLSIZE, used, [], 0);
            var m' := Step(cfg, m, Put(Some(k), v, true)).0;
            Step(cfg, m', Remove(Some(k))).0 == m.(used := used + 1)
  {
    var m: Model<K, V> := Model([], MINTBLSIZE, used, [], 0);
    assert Step(cfg, m, Put(Some(k), v, true)).0 == m.(live := [Pair(k, v)], used := used + 1);
  }

  /** The smallest default table does not survive nine puts and eight removes of one key. */
  lemma TogglesOverflow<K(!new), V>(cfg: Config<K>, k: K, v: V)
    requires ConfigOk(cfg) && HasDefaultLoad(cfg) && !cfg.callback
    ensures !SafeRun(cfg, Empty<K, V>(MINTBLSIZE), Toggles(k, v, 8) + [Put(Some(k), v, true)])
  {
    AfterToggles<K, V>(cfg, k, v, 8);
    var ops := Toggles<K, V>(k, v, 8) + [Put(Some(k), v, true)];
    var n := |ops| - 1;
    assert ops[..n] == Toggles(k, v, 8);
    assert !WritesInside(cfg, After(cfg, Empty<K, V>(MINTBLSIZE), ops[..n]), ops[n]);
  }

  // ---- shrinking ----

  /** A table of capacity c is filled with fresh keys below its growth threshold, then one of
      them is removed. That leaves the array exactly if the remove shrinks the table with more
      than half the capacity left. */
  lemma FillThenRemoveIff<K(!new), V>(cfg: Config<K>, c: nat, ks: seq<K>, v: V, j: nat)
    requires ConfigOk(cfg) && ModelOk(cfg, Empty<K, V>(c)) && Fresh(cfg, Empty<K, V>(c), ks) && j < |ks|
    requires |ks| <= c && |ks| <= Threshold(cfg.maxLoad, c)
    ensures var ops := PutAll(ks, v) + [Remove(Some(ks[j]))];
            SafeRun(cfg, Empty<K, V>(c), ops) <==>
            !(c != MINTBLSIZE && c / 2 < |ks| - 1 < Threshold(cfg.minLoad, c))
    ensures var m := After(cfg, Empty<K, V>(c), PutAll(ks, v) + [Remove(Some(ks[j]))]);
            |m.live| == |ks| - 1
            && (c != MINTBLSIZE && |ks| - 1 < Threshold(cfg.minLoad, c) ==> m.capacity == c / 2 && m.used == |ks| - 1)
  {
    var start := Empty<K, V>(c);
    var puts, remove: Op<K, V> := PutAll(ks, v), Remove(Some(ks[j]));
    var ops := puts + [remove];
    var m := Filled(start, ks, v);
    assert ops[..|puts|] == puts;
    AfterFreshPuts(cfg, start, ks, v);
    AfterPush(cfg, start, puts, remove);
    AfterOk(cfg, start, puts);
    FilledHas(cfg, start, ks, v, j);
    RemoveInsideIff(cfg, m, ks[j]);
    FillIsSafe(cfg, start, ks, v);
    if WritesInside(cfg, m, remove) {
      SafeBack(cfg, start, ops);
    } else {
      assert !WritesInside(cfg, After(cfg, start, ops[..|puts|]), ops[|puts|]);
    }
  }

  lemma FillIsSafe<K(!new), V>(cfg: Config<K>, m: Model<K, V>, ks: seq<K>, v: V)
    requires ConfigOk(cfg) && ModelOk(cfg, m) && Fresh(cfg, m, ks) && m.used + |ks| <= m.capacity
    requires |m.live| + |ks| <= Threshold(cfg.maxLoad, m.capacity)
    ensures SafeRun(cfg, m, PutAll(ks, v))
  {
    var ops := PutAll(ks, v);
    forall i | 0 <= i < |ks| ensures WritesInside(cfg, After(cfg, m, ops[..i]), ops[i]) {
      FillWritesInside(cfg, m, ks, v, i);
    }
  }

  lemma FilledHas<K(!new), V>(cfg: Config<K>, m: Model<K, V>, ks: seq<K>, v: V, j: nat)
    requires Lawful(cfg.keys) && j < |ks|
    ensures Has(cfg.keys, Filled(m, ks, v).live, ks[j])
  {
    assert Filled(m, ks, v).live[|m.live| + j].key == ks[j];
  }

  /** With both load factors at 3/4, twelve puts into 16 slots and one remove move eleven pairs
      into 8 slots. */
  lemma ShrinkOverflowExample<K(!new), V>(cfg: Config<K>, ks: seq<K>, v: V)
    requires ConfigOk(cfg) && cfg.maxLoad == cfg.minLoad == LoadFactor(3, 4)
    requires |ks| == 12 && Fresh(cfg, Empty<K, V>(16), ks)
    ensures var ops := PutAll(ks, v) + [Remove(Some(ks[0]))];
            var m := After(cfg, Empty<K, V>(16), ops);
            m.capacity == 8 && m.used == |m.live| == 11 && !SafeRun(cfg, Empty<K, V>(16), ops)
  {
    assert IsPow2(16) by { assert 16 == Pow2(4); }
    FillThenRemoveIff(cfg, 16, ks, v, 0);
  }

  /** As many different keys as one may need. */
  ghost predicate Supply<K(!new)>(cfg: Config<K>, key: nat -> K) {
    forall i: nat, j: nat :: i < j ==> !cfg.keys.equals(key(i), key(j))
  }

  function Keys<K>(key: nat -> K, n: nat): (ks: seq<K>)
    ensures |ks| == n && forall i :: 0 <= i < n ==> ks[i] == key(i)
  {
    seq(n, i requires 0 <= i < n => key(i))
  }

  /** No remove from any table leaves the array if and only if the minimum load factor fits. */
  lemma RemovesFitIff<K(!new), V(!new)>(cfg: Config<K>, key: nat -> K, v: V)
    requires ConfigOk(cfg) && Supply(cfg, key)
    ensures (forall m: Model<K, V>, k: K :: ModelOk(cfg, m) && m.used <= m.capacity ==>
               WritesInside(cfg, m, Remove(Some(k))))
            <==> ShrinkFits(cfg.minLoad)
  {
    if ShrinkFits(cfg.minLoad) {
      forall m: Model<K, V>, k: K | ModelOk(cfg, m) && m.used <= m.capacity
        ensures WritesInside(cfg, m, Remove(Some(k)))
      {
        FittingShrink(cfg, m, Some(k));
      }
    } else {
      var c: nat :| IsPow2(c) && MINTBLSIZE < c <= MAXTBLSIZE && Threshold(cfg.minLoad, c) > c / 2 + 1;
      HalfCapacity(c);
      var ks := Keys(key, c / 2 + 2);
      var m := Filled(Empty<K, V>(c), ks, v);
      FilledHas(cfg, Empty<K, V>(c), ks, v, 0);
      RemoveInsideIff(cfg, m, ks[0]);
      assert ModelOk(cfg, m) && !WritesInside(cfg, m, Remove(Some(ks[0])));
    }
  }

  /** The growth threshold caps the live count in every safe run if and only if the load
      factors are steady. */
  lemma CountBoundedIff<K(!new), V(!new)>(cfg: Config<K>, key: nat -> K, v: V)
    requires ConfigOk(cfg) && Supply(cfg, key)
    ensures (forall c: nat, ops: seq<Op<K, V>> :: ModelOk(cfg, Empty<K, V>(c)) && SafeRun(cfg, Empty<K, V>(c), ops) ==>
               Bounded(cfg, After(cfg, Empty<K, V>(c), ops)))
            <==> Steady(cfg)
  {
    if Steady(cfg) {
      forall c: nat, ops: seq<Op<K, V>> | ModelOk(cfg, Empty<K, V>(c)) && SafeRun(cfg, Empty<K, V>(c), ops)
        ensures Bounded(cfg, After(cfg, Empty<K, V>(c), ops))
      {
        CountBounded(cfg, c, ops);
      }
    } else {
      var c, ops := UnsteadyRun(cfg, key, v);
    }
  }

  /** Load factors that are not steady have a safe run past the growth threshold. */
  lemma UnsteadyRun<K(!new), V>(cfg: Config<K>, key: nat -> K, v: V) returns (c: nat, ops: seq<Op<K, V>>)
    requires ConfigOk(cfg) && Supply(cfg, key) && !Steady(cfg)
    ensures ModelOk(cfg, Empty<K, V>(c)) && SafeRun(cfg, Empty<K, V>(c), ops)
    ensures !Bounded(cfg, After(cfg, Empty<K, V>(c), ops))
  {
    hide After, SafeRun;
    if Threshold(cfg.maxLoad, 2 * MINTBLSIZE) < 1 {
      c, ops := MINTBLSIZE, [Put(Some(key(0)), v, true)];
      FirstPutUnbounded(cfg, ops[0]);
      OneCall(cfg, Empty<K, V>(c), ops[0]);
    } else {
      c :| IsPow2(c) && MINTBLSIZE < c <= MAXTBLSIZE && !HalvesSteadily(cfg, c);
      HalfCapacity(c);
      var ks := Keys(key, Threshold(cfg.maxLoad, c / 2) + 2);
      FillThenRemoveIff(cfg, c, ks, v, 0);
      ops := PutAll(ks, v) + [Remove(Some(ks[0]))];
    }
  }

  lemma OneCall<K, V>(cfg: Config<K>, m: Model<K, V>, op: Op<K, V>)
    requires cfg.maxLoad.den > 0 && cfg.minLoad.den > 0
    ensures After(cfg, m, [op]) == Step(cfg, m, op).0
    ensures WritesInside(cfg, m, op) ==> SafeRun(cfg, m, [op])
  {
    assert [op][..0] == [];
    assert After(cfg, m, []) == m;
  }

  lemma FirstPutUnbounded<K(!new), V>(cfg: Config<K>, op: Op<K, V>)
    requires ConfigOk(cfg) && Threshold(cfg.maxLoad, 2 * MINTBLSIZE) < 1 && op.Put? && op.key.Some?
    ensures var start := Empty<K, V>(MINTBLSIZE);
            ModelOk(cfg, start) && WritesInside(cfg, start, op) && !Bounded(cfg, Step(cfg, start, op).0)
  {
    assert IsPow2(MINTBLSIZE) by { assert MINTBLSIZE == Pow2(3); }
    ThresholdDoubles(cfg.maxLoad, MINTBLSIZE);
  }

  /** With load factors 3/10 and 1/5, a table of 64 slots shrinks to 32 with eleven pairs left,
      two above the growth threshold. */
  lemma UnsteadyExample<K(!new), V>(cfg: Config<K>, ks: seq<K>, v: V)
    requires ConfigOk(cfg) && cfg.maxLoad == LoadFactor(3, 10) && cfg.minLoad == LoadFactor(1, 5)
    requires |ks| == 12 && Fresh(cfg, Empty<K, V>(64), ks)
    ensures var ops := PutAll(ks, v) + [Remove(Some(ks[0]))];
            var m := After(cfg, Empty<K, V>(64), ops);
            SafeRun(cfg, Empty<K, V>(64), ops) && |m.live| == 11 && Threshold(cfg.maxLoad, m.capacity) == 9
  {
    assert IsPow2(64) by { assert 64 == Pow2(6); }
    FillThenRemoveIff(cfg, 64, ks, v, 0);
  }
}
