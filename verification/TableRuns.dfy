/** Whole runs of the table's interface: what they compute, what they conserve and what
    they cost. A run is a list of calls from a given model. */
module TableRuns {
  import opened Common
  import opened OrderedMap
  import opened TableModel

  /** The table after the calls. */
  function After<K, V>(cfg: Config<K>, m: Model<K, V>, ops: seq<Op<K, V>>): Model<K, V>
    requires cfg.maxLoad.den > 0 && cfg.minLoad.den > 0
  {
    if ops == [] then m else Step(cfg, After(cfg, m, ops[..|ops| - 1]), ops[|ops| - 1]).0
  }

  /** A call together with what it returned: all that a caller sees of a run. */
  datatype Event<K, V> = Event(op: Op<K, V>, outcome: Outcome<K, V>)

  function History<K, V>(cfg: Config<K>, m: Model<K, V>, ops: seq<Op<K, V>>): (h: seq<Event<K, V>>)
    requires cfg.maxLoad.den > 0 && cfg.minLoad.den > 0
    ensures |h| == |ops|
  {
    if ops == [] then []
    else
      var front := ops[..|ops| - 1];
      var op := ops[|ops| - 1];
      History(cfg, m, front) + [Event(op, Step(cfg, After(cfg, m, front), op).1)]
  }

  /** The invariant holds after every run. */
  lemma {:induction false} AfterOk<K(!new), V>(cfg: Config<K>, m: Model<K, V>, ops: seq<Op<K, V>>)
    requires ConfigOk(cfg) && ModelOk(cfg, m)
    ensures ModelOk(cfg, After(cfg, m, ops))
  {
    if ops != [] {
      AfterOk(cfg, m, ops[..|ops| - 1]);
      StepKeepsOk(cfg, After(cfg, m, ops[..|ops| - 1]), ops[|ops| - 1]);
    }
  }

  // ---- what a table holds, read off the history of calls alone ----

  /** The event stored v under a key equal to q. */
  predicate Stores<K, V>(cfg: Config<K>, e: Event<K, V>, q: K) {
    e.op.Put? && e.outcome == Done && e.op.key.Some? && cfg.keys.equals(e.op.key.value, q)
  }

  /** After the event no key equal to q is in the table. */
  predicate Forgets<K, V>(cfg: Config<K>, e: Event<K, V>, q: K) {
    e.op.Clear? || (e.op.Remove? && e.op.key.Some? && cfg.keys.equals(e.op.key.value, q))
  }

  /** The pair of the last accepted put of q that no later remove or clear undid. */
  function LastStored<K, V>(cfg: Config<K>, h: seq<Event<K, V>>, q: K): Option<Pair<K, V>> {
    if h == [] then None
    else
      var e := h[|h| - 1];
      if Forgets(cfg, e, q) then None
      else if Stores(cfg, e, q) then Some(Pair(e.op.key.value, e.op.value))
      else LastStored(cfg, h[..|h| - 1], q)
  }

  /** The live pairs change as a map does. */
  lemma StepIsMap<K(!new), V>(cfg: Config<K>, m: Model<K, V>, op: Op<K, V>)
    requires cfg.maxLoad.den > 0 && cfg.minLoad.den > 0
    ensures var (m', out) := Step(cfg, m, op);
            m'.live == match op
                       case Put(Some(k), v, _) => if out == Done then Set(cfg.keys, m.live, k, v) else m.live
                       case Remove(Some(k)) => Delete(cfg.keys, m.live, k)
                       case Clear(_) => []
                       case _ => m.live
  {
  }

  /** One call, seen by one key. */
  lemma GetAfterStep<K(!new), V>(cfg: Config<K>, m: Model<K, V>, op: Op<K, V>, q: K)
    requires ConfigOk(cfg) && ModelOk(cfg, m)
    ensures var (m', out) := Step(cfg, m, op);
            Get(cfg.keys, m'.live, q) ==
            if Forgets(cfg, Event(op, out), q) then None
            else if Stores(cfg, Event(op, out), q) then Some(Pair(op.key.value, op.value))
            else Get(cfg.keys, m.live, q)
  {
    hide Step, Set, Delete, Lawful, Distinct;
    StepIsMap(cfg, m, op);
    match op {
      case Put(Some(k), v, _) => GetAfterSet(cfg.keys, m.live, k, v, q);
      case Remove(Some(k)) => GetAfterDelete(cfg.keys, m.live, k, q);
      case _ =>
    }
  }

  /** After any run of calls on an empty table a key is mapped to exactly the value of the
      last put that stored it, whatever rehashing happened on the way. */
  lemma {:induction false} RunIsMap<K(!new), V>(cfg: Config<K>, capacity: nat, ops: seq<Op<K, V>>, q: K)
    requires ConfigOk(cfg) && ModelOk(cfg, Empty<K, V>(capacity))
    ensures Get(cfg.keys, After(cfg, Empty(capacity), ops).live, q)
         == LastStored(cfg, History(cfg, Empty<K, V>(capacity), ops), q)
  {
    if ops != [] {
      var front, op := ops[..|ops| - 1], ops[|ops| - 1];
      var m := After(cfg, Empty<K, V>(capacity), front);
      var h := History(cfg, Empty<K, V>(capacity), ops);
      RunIsMap(cfg, capacity, front, q);
      AfterOk(cfg, Empty<K, V>(capacity), front);
      assert h[..|h| - 1] == History(cfg, Empty<K, V>(capacity), front);
      GetAfterStep(cfg, m, op, q);
    }
  }

  /** Call i put a key that was not in the table, and nothing after it took the key out. */
  ghost predicate Survives<K, V>(cfg: Config<K>, h: seq<Event<K, V>>, i: nat)
    requires i < |h|
  {
    && h[i].op.Put? && h[i].outcome == Done && h[i].op.key.Some?
    && LastStored(cfg, h[..i], h[i].op.key.value).None?
    && forall j :: i < j < |h| ==> !Forgets(cfg, h[j], h[i].op.key.value)
  }

  ghost predicate Increasing(s: seq<nat>) {
    forall a, b :: 0 <= a < b < |s| ==> s[a] < s[b]
  }

  /** The call born[a] is a surviving put of the key of live[a]. */
  ghost predicate PutBy<K, V>(cfg: Config<K>, h: seq<Event<K, V>>, i: nat, p: Pair<K, V>) {
    i < |h| && Survives(cfg, h, i) && cfg.keys.equals(h[i].op.key.value, p.key)
  }

  /** born lists the surviving calls in order, and they put the live pairs in that order. */
  ghost predicate Births<K, V>(cfg: Config<K>, h: seq<Event<K, V>>, live: seq<Pair<K, V>>, born: seq<nat>) {
    && |born| == |live|
    && Increasing(born)
    && (forall a :: 0 <= a < |born| ==> PutBy(cfg, h, born[a], live[a]))
    && (forall i: nat :: i < |h| && Survives(cfg, h, i) ==> i in born)
  }

  lemma SurvivesSnoc<K, V>(cfg: Config<K>, h: seq<Event<K, V>>, e: Event<K, V>, i: nat)
    requires i < |h|
    ensures (h + [e])[i] == h[i]
    ensures Survives(cfg, h + [e], i)
       <==> Survives(cfg, h, i) && !Forgets(cfg, e, h[i].op.key.value)
  {
    var h' := h + [e];
    assert h'[..i] == h[..i];
    if Survives(cfg, h, i) && !Forgets(cfg, e, h[i].op.key.value) {
      forall j | i < j < |h'| ensures !Forgets(cfg, h'[j], h'[i].op.key.value) {
        assert j < |h| ==> h'[j] == h[j];
      }
    }
    if Survives(cfg, h', i) {
      forall j | i < j < |h| ensures !Forgets(cfg, h[j], h[i].op.key.value) {
        assert h'[j] == h[j];
      }
      assert h'[|h|] == e;
    }
  }

  /** An event that stores no new key and forgets no live one leaves the births alone. */
  lemma QuietEvent<K(!new), V>(cfg: Config<K>, h: seq<Event<K, V>>, e: Event<K, V>,
                               live: seq<Pair<K, V>>, live': seq<Pair<K, V>>, born: seq<nat>)
    requires Lawful(cfg.keys) && Births(cfg, h, live, born) && |live'| == |live|
    requires forall a :: 0 <= a < |live| ==> cfg.keys.equals(live[a].key, live'[a].key)
    requires forall a :: 0 <= a < |live| ==> !Forgets(cfg, e, live[a].key)
    requires !Survives(cfg, h + [e], |h|)
    ensures Births(cfg, h + [e], live', born)
  {
    forall a | 0 <= a < |born| ensures PutBy(cfg, h + [e], born[a], live'[a]) {
      assert PutBy(cfg, h, born[a], live[a]);
      SurvivesSnoc(cfg, h, e, born[a]);
      ForgetsRespectsEquality(cfg, e, h[born[a]].op.key.value, live[a].key);
    }
    forall i: nat | i < |h + [e]| && Survives(cfg, h + [e], i) ensures i in born {
      if i < |h| { SurvivesSnoc(cfg, h, e, i); }
    }
  }

  lemma ForgetsRespectsEquality<K(!new), V>(cfg: Config<K>, e: Event<K, V>, k: K, k': K)
    requires Lawful(cfg.keys) && cfg.keys.equals(k, k')
    ensures Forgets(cfg, e, k) <==> Forgets(cfg, e, k')
  {
    if e.op.Remove? && e.op.key.Some? {
      var r := e.op.key.value;
      assert cfg.keys.equals(r, k) ==> cfg.keys.equals(r, k');
      assert cfg.keys.equals(k', k);
      assert cfg.keys.equals(r, k') ==> cfg.keys.equals(r, k);
    }
  }

  /** An accepted put of an absent key is the youngest birth. */
  lemma FreshPut<K(!new), V>(cfg: Config<K>, h: seq<Event<K, V>>, e: Event<K, V>,
                             live: seq<Pair<K, V>>, born: seq<nat>)
    requires Lawful(cfg.keys) && Births(cfg, h, live, born)
    requires e.op.Put? && e.op.key.Some? && e.outcome == Done
    requires LastStored(cfg, h, e.op.key.value).None?
    ensures Births(cfg, h + [e], live + [Pair(e.op.key.value, e.op.value)], born + [|h|])
  {
    var h' := h + [e];
    var live' := live + [Pair(e.op.key.value, e.op.value)];
    var born' := born + [|h|];
    assert h'[..|h|] == h;
    assert Survives(cfg, h', |h|);
    forall a | 0 <= a < |born'| ensures PutBy(cfg, h', born'[a], live'[a]) {
      if a < |born| {
        assert PutBy(cfg, h, born[a], live[a]);
        SurvivesSnoc(cfg, h, e, born[a]);
      }
    }
    forall i: nat | i < |h'| && Survives(cfg, h', i) ensures i in born' {
      if i < |h| {
        SurvivesSnoc(cfg, h, e, i);
        assert i in born;
      } else {
        assert born'[|born|] == i;
      }
    }
  }

  /** A remove of a live key takes out exactly its birth. */
  lemma RemoveBirth<K(!new), V>(cfg: Config<K>, h: seq<Event<K, V>>, e: Event<K, V>,
                                live: seq<Pair<K, V>>, born: seq<nat>, p: nat)
    requires Lawful(cfg.keys) && Births(cfg, h, live, born) && p < |live|
    requires !e.op.Put?
    requires forall a :: 0 <= a < |live| ==> (Forgets(cfg, e, live[a].key) <==> a == p)
    ensures Births(cfg, h + [e], RemoveAt(live, p), RemoveAt(born, p))
  {
    var live', born', h' := RemoveAt(live, p), RemoveAt(born, p), h + [e];
    forall a | 0 <= a < |born|
      ensures h'[born[a]] == h[born[a]] && (Survives(cfg, h', born[a]) <==> a != p)
    {
      assert PutBy(cfg, h, born[a], live[a]);
      SurvivesSnoc(cfg, h, e, born[a]);
      ForgetsRespectsEquality(cfg, e, h[born[a]].op.key.value, live[a].key);
    }
    forall a | 0 <= a < |born'| ensures PutBy(cfg, h', born'[a], live'[a]) {
      assert PutBy(cfg, h, born[if a < p then a else a + 1], live[if a < p then a else a + 1]);
    }
    assert Increasing(born');
    assert h'[|h|] == e;
    forall i: nat | i < |h'| && Survives(cfg, h', i) ensures i in born' {
      SurvivesSnoc(cfg, h, e, i);
      assert i in born;
      InRemoveAt(born, p, i);
    }
  }

  lemma InRemoveAt<T>(s: seq<T>, p: nat, x: T)
    requires p < |s| && x in s && x != s[p]
    ensures x in RemoveAt(s, p)
  {
    var a :| 0 <= a < |s| && s[a] == x;
    assert RemoveAt(s, p)[if a < p then a else a - 1] == x;
  }

  lemma NotBorn<K, V>(cfg: Config<K>, h: seq<Event<K, V>>, e: Event<K, V>)
    requires e.op.Put? && e.op.key.Some? && e.outcome == Done ==> LastStored(cfg, h, e.op.key.value).Some?
    ensures !Survives(cfg, h + [e], |h|)
  {
    assert (h + [e])[|h|] == e && (h + [e])[..|h|] == h;
  }

  /** A remove of a live key forgets that key's pair and no other. */
  lemma ForgetsOne<K(!new), V>(cfg: Config<K>, e: Event<K, V>, live: seq<Pair<K, V>>)
    requires Lawful(cfg.keys) && Distinct(cfg.keys, live) && e.op.Remove? && e.op.key.Some?
    ensures forall a :: 0 <= a < |live| ==>
              (Forgets(cfg, e, live[a].key) <==> a == Position(cfg.keys, live, e.op.key.value))
  {
    var k := e.op.key.value;
    forall a | 0 <= a < |live|
      ensures Forgets(cfg, e, live[a].key) <==> a == Position(cfg.keys, live, k)
    {
      if cfg.keys.equals(k, live[a].key) {
        PositionIs(cfg.keys, live, k, a);
      }
    }
  }

  /** One call changes the list of surviving puts as it changes the table. */
  lemma BirthsStep<K(!new), V>(cfg: Config<K>, m: Model<K, V>, h: seq<Event<K, V>>, born: seq<nat>, op: Op<K, V>)
    returns (born': seq<nat>)
    requires ConfigOk(cfg) && ModelOk(cfg, m) && Births(cfg, h, m.live, born)
    requires forall q :: LastStored(cfg, h, q) == Get(cfg.keys, m.live, q)
    ensures Births(cfg, h + [Event(op, Step(cfg, m, op).1)], Step(cfg, m, op).0.live, born')
  {
    hide Survives, LastStored, Increasing, PutBy;
    var e := Event(op, Step(cfg, m, op).1);
    born' := born;
    if op.Put? && op.key.Some? && e.outcome == Done && !Has(cfg.keys, m.live, op.key.value) {
      FreshPut(cfg, h, e, m.live, born);
      born' := born + [|h|];
    } else if op.Remove? && op.key.Some? && Has(cfg.keys, m.live, op.key.value) {
      var p := Position(cfg.keys, m.live, op.key.value);
      ForgetsOne(cfg, e, m.live);
      RemoveBirth(cfg, h, e, m.live, born, p);
      born' := RemoveAt(born, p);
    } else if op.Clear? {
      NothingSurvivesClear(cfg, h, e);
      born' := [];
    } else {
      if op.Remove? && op.key.Some? {
        ForgetsOne(cfg, e, m.live);
      }
      NotBorn(cfg, h, e);
      QuietEvent(cfg, h, e, m.live, Step(cfg, m, op).0.live, born);
    }
  }

  lemma NothingSurvivesClear<K, V>(cfg: Config<K>, h: seq<Event<K, V>>, e: Event<K, V>)
    requires e.op.Clear?
    ensures Births(cfg, h + [e], [], [])
  {
    var h' := h + [e];
    assert h'[|h|] == e;
    assert forall i: nat :: i < |h'| ==> !Survives(cfg, h', i);
  }

  /** After any run on an empty table the live pairs are, in order, those of the puts that
      survive: insertion order, where a replacing put keeps the place of the first. */
  lemma {:induction false} RunKeepsInsertionOrder<K(!new), V>(cfg: Config<K>, capacity: nat, ops: seq<Op<K, V>>)
    returns (born: seq<nat>)
    requires ConfigOk(cfg) && ModelOk(cfg, Empty<K, V>(capacity))
    ensures Births(cfg, History(cfg, Empty<K, V>(capacity), ops),
                   After(cfg, Empty<K, V>(capacity), ops).live, born)
  {
    if ops == [] {
      born := [];
    } else {
      var front, op := ops[..|ops| - 1], ops[|ops| - 1];
      var m := After(cfg, Empty<K, V>(capacity), front);
      var h := History(cfg, Empty<K, V>(capacity), front);
      var born0 := RunKeepsInsertionOrder(cfg, capacity, front);
      AfterOk(cfg, Empty<K, V>(capacity), front);
      forall q ensures LastStored(cfg, h, q) == Get(cfg.keys, m.live, q) {
        RunIsMap(cfg, capacity, front, q);
      }
      born := BirthsStep(cfg, m, h, born0, op);
    }
  }
}
