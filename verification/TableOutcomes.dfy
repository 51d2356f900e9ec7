/** What each call answers, and how large the table then is, told from the earlier calls and
    their results alone. */
module TableOutcomes {
  import opened Common
  import opened Bits
  import opened Capacity
  import opened OrderedMap
  import opened TableModel
  import opened TableRuns

  /** The number of pairs in a table and its capacity. */
  datatype Gauge = Gauge(count: nat, capacity: nat)

  /** A put of a new key counts one up, and doubles a table that had reached its maximum load;
      a remove of a present key counts one down, and halves a table above 8 slots that falls
      below its minimum load; a clear starts over, at 8 slots if it shrinks. */
  function GaugeAfter<K, V>(cfg: Config<K>, capacity: nat, h: seq<Event<K, V>>): Gauge
    requires cfg.maxLoad.den > 0 && cfg.minLoad.den > 0
  {
    if h == [] then Gauge(0, capacity)
    else
      var front, e := h[..|h| - 1], h[|h| - 1];
      var g := GaugeAfter(cfg, capacity, front);
      match e.op
      case Put(Some(k), _, _) =>
        if e.outcome != Done || LastStored(cfg, front, k).Some? then g
        else Gauge(g.count + 1, if AtMaximum(cfg, g) then 2 * g.capacity else g.capacity)
      case Remove(Some(k)) =>
        if LastStored(cfg, front, k).None? then g
        else
          var n := OneLess(g.count);
          Gauge(n, if g.capacity > 8 && n < cfg.minLoad.num * g.capacity / cfg.minLoad.den then g.capacity / 2
                   else g.capacity)
      case Clear(shrink) => Gauge(0, if shrink then 8 else g.capacity)
      case _ => g
  }

  function OneLess(n: nat): nat {
    if n == 0 then 0 else n - 1
  }

  predicate AtMaximum<K>(cfg: Config<K>, g: Gauge)
    requires cfg.maxLoad.den > 0
  {
    g.count >= cfg.maxLoad.num * g.capacity / cfg.maxLoad.den
  }

  /** A null key is refused. A put of a present key is refused if it is a unique one; a put of
      a new key is refused if the table would have to grow beyond 2^30 slots. A remove returns
      the number of pairs left, and a lookup the pair last stored. */
  function Answer<K, V>(cfg: Config<K>, capacity: nat, h: seq<Event<K, V>>, op: Op<K, V>): Outcome<K, V>
    requires cfg.maxLoad.den > 0 && cfg.minLoad.den > 0
  {
    var g := GaugeAfter(cfg, capacity, h);
    match op
    case Put(Some(k), _, unique) =>
      if LastStored(cfg, h, k).Some? then if unique then Eexist else Done
      else if AtMaximum(cfg, g) && 2 * g.capacity > 0x4000_0000 then Erange
      else Done
    case Remove(Some(k)) => Count(if LastStored(cfg, h, k).Some? then OneLess(g.count) else g.count)
    case Lookup(Some(k)) =>
      (match LastStored(cfg, h, k)
       case None => NotFound
       case Some(p) => Found(p))
    case Clear(_) => Done
    case _ => Einval
  }

  /** The pair a lookup finds has the key that was asked for. */
  lemma {:induction false} LastStoredMatches<K, V>(cfg: Config<K>, h: seq<Event<K, V>>, q: K)
    ensures var p := LastStored(cfg, h, q); p.Some? ==> cfg.keys.equals(p.value.key, q)
  {
    if h != [] {
      LastStoredMatches(cfg, h[..|h| - 1], q);
    }
  }

  /** One call: the answer is the one told, and so is the size after it. */
  lemma AnswerStep<K(!new), V>(cfg: Config<K>, capacity: nat, m: Model<K, V>, h: seq<Event<K, V>>, op: Op<K, V>)
    requires ConfigOk(cfg) && ModelOk(cfg, m)
    requires GaugeAfter(cfg, capacity, h) == Gauge(|m.live|, m.capacity)
    requires forall q :: LastStored(cfg, h, q) == Get(cfg.keys, m.live, q)
    ensures var (m', out) := Step(cfg, m, op);
            && out == Answer(cfg, capacity, h, op)
            && GaugeAfter(cfg, capacity, h + [Event(op, out)]) == Gauge(|m'.live|, m'.capacity)
  {
    hide LastStored, Position;
    var e := Event(op, Step(cfg, m, op).1);
    assert (h + [e])[..|h|] == h;
    HalfCapacity(m.capacity);
    match op {
      case Put(Some(k), _, _) => assert LastStored(cfg, h, k) == Get(cfg.keys, m.live, k);
      case Remove(Some(k)) => assert LastStored(cfg, h, k) == Get(cfg.keys, m.live, k);
      case Lookup(Some(k)) => assert LastStored(cfg, h, k) == Get(cfg.keys, m.live, k);
      case _ =>
    }
  }

  /** After any run on an empty table the count and the capacity are those told from the calls
      and their results, and so is what any further call answers. */
  lemma {:induction false} RunAnswers<K(!new), V>(cfg: Config<K>, capacity: nat, ops: seq<Op<K, V>>, op: Op<K, V>)
    requires ConfigOk(cfg) && ModelOk(cfg, Empty<K, V>(capacity))
    ensures var m, h := After(cfg, Empty<K, V>(capacity), ops), History(cfg, Empty<K, V>(capacity), ops);
            && GaugeAfter(cfg, capacity, h) == Gauge(|m.live|, m.capacity)
            && Step(cfg, m, op).1 == Answer(cfg, capacity, h, op)
  {
    hide Step, GaugeAfter, Answer, LastStored, Get;
    var m, h := After(cfg, Empty<K, V>(capacity), ops), History(cfg, Empty<K, V>(capacity), ops);
    AfterOk(cfg, Empty<K, V>(capacity), ops);
    forall q ensures LastStored(cfg, h, q) == Get(cfg.keys, m.live, q) {
      RunIsMap(cfg, capacity, ops, q);
    }
    if ops == [] {
      EmptyGauge<K, V>(cfg, capacity);
    } else {
      var front, last := ops[..|ops| - 1], ops[|ops| - 1];
      var m0, h0 := After(cfg, Empty<K, V>(capacity), front), History(cfg, Empty<K, V>(capacity), front);
      RunAnswers(cfg, capacity, front, last);
      AfterOk(cfg, Empty<K, V>(capacity), front);
      forall q ensures LastStored(cfg, h0, q) == Get(cfg.keys, m0.live, q) {
        RunIsMap(cfg, capacity, front, q);
      }
      AnswerStep(cfg, capacity, m0, h0, last);
    }
    AnswerStep(cfg, capacity, m, h, op);
  }

  lemma EmptyGauge<K, V>(cfg: Config<K>, capacity: nat)
    requires cfg.maxLoad.den > 0 && cfg.minLoad.den > 0
    ensures GaugeAfter<K, V>(cfg, capacity, []) == Gauge(0, capacity)
  {
  }

  /** Every event of a run is the answer told from the events before it. */
  lemma {:induction false} HistoryAnswers<K(!new), V>(cfg: Config<K>, capacity: nat, ops: seq<Op<K, V>>, i: nat)
    requires ConfigOk(cfg) && ModelOk(cfg, Empty<K, V>(capacity)) && i < |ops|
    ensures var h := History(cfg, Empty<K, V>(capacity), ops);
            h[i] == Event(ops[i], Answer(cfg, capacity, h[..i], ops[i]))
  {
    var n := |ops| - 1;
    var h := History(cfg, Empty<K, V>(capacity), ops);
    assert h[..n] == History(cfg, Empty<K, V>(capacity), ops[..n]);
    if i == n {
      RunAnswers(cfg, capacity, ops[..n], ops[n]);
    } else {
      HistoryAnswers(cfg, capacity, ops[..n], i);
      assert h[..n][..i] == h[..i];
    }
  }

  /** A refused call, a lookup, and a remove of an absent key leave the table as it was. */
  lemma RefusedChangesNothing<K(!new), V>(cfg: Config<K>, m: Model<K, V>, op: Op<K, V>)
    requires ConfigOk(cfg) && ModelOk(cfg, m)
    ensures var (m', out) := Step(cfg, m, op);
            (out in {Einval, Eexist, Erange} || op.Lookup?
             || (op.Remove? && op.key.Some? && Get(cfg.keys, m.live, op.key.value).None?))
            ==> m' == m
  {
  }
}
