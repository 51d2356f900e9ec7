/** The index inside a table, on sequences: entries with their `next` links, bucket heads, and
    the collision chains the two encode. Each change the table makes to its arrays is shown
    here to keep the encoding. */
module Chains {
  import opened Common
  import opened OrderedMap

  /** `pcl_htable_entry_t`. An item of None is the NULL key of a free or removed slot. */
  datatype Entry<K, V> = Entry(next: int, code: nat, item: Option<Pair<K, V>>)

  /** Index j of chain c, or -1 past its end. */
  function Link(c: seq<nat>, j: nat): int {
    if j < |c| then c[j] else -1
  }

  /** After the head, the indices of a chain fall; the head occurs once. */
  ghost predicate Descending(c: seq<nat>) {
    && (forall j, k :: 1 <= j < k < |c| ==> c[j] > c[k])
    && (forall j :: 1 <= j < |c| ==> c[j] != c[0])
  }

  /** Entry i is live, lies in bucket b and links to what follows position j of chain c. */
  ghost predicate Node<K, V>(es: seq<Entry<K, V>>, used: nat, buckets: nat, b: nat, c: seq<nat>, j: nat)
    requires buckets > 0 && j < |c| && used <= |es|
  {
    && c[j] < used && es[c[j]].item.Some?
    && es[c[j]].code % buckets == b
    && es[c[j]].next == Link(c, j + 1)
  }

  /** c is the chain of bucket b that starts at index head. */
  ghost predicate Chain<K, V>(es: seq<Entry<K, V>>, used: nat, buckets: nat, b: nat, head: int, c: seq<nat>)
    requires buckets > 0 && used <= |es|
  {
    && head == Link(c, 0)
    && Descending(c)
    && forall j :: 0 <= j < |c| ==> Node(es, used, buckets, b, c, j)
  }

  /** The chains partition the live entries by code modulo the number of buckets. */
  ghost predicate Indexed<K, V>(es: seq<Entry<K, V>>, used: nat, ls: seq<int>, chains: seq<seq<nat>>) {
    && 0 < |ls| == |chains| && used <= |es|
    && (forall b :: 0 <= b < |ls| ==> Chain(es, used, |ls|, b, ls[b], chains[b]))
    && (forall i :: 0 <= i < used && es[i].item.Some? ==> i in chains[es[i].code % |ls|])
  }

  /** A new index goes behind the head. */
  function InsertAfterHead(c: seq<nat>, n: nat): seq<nat> {
    if c == [] then [n] else [c[0], n] + c[1..]
  }

  /** The entries once e is stored at n and linked behind the given head. */
  function WithNew<K, V>(es: seq<Entry<K, V>>, head: int, n: nat, code: nat, p: Pair<K, V>): (r: seq<Entry<K, V>>)
    requires n < |es| && -1 <= head < n
    ensures |r| == |es|
  {
    if head == -1 then es[n := Entry(-1, code, Some(p))]
    else es[n := Entry(es[head].next, code, Some(p))][head := es[head].(next := n)]
  }

  lemma DescendingInsert(c: seq<nat>, n: nat)
    requires Descending(c) && forall j :: 0 <= j < |c| ==> c[j] < n
    ensures Descending(InsertAfterHead(c, n))
  {
    var d := InsertAfterHead(c, n);
    assert forall j :: 2 <= j < |d| ==> d[j] == c[j - 1];
  }

  lemma InInsert(c: seq<nat>, n: nat, i: nat)
    ensures i in InsertAfterHead(c, n) <==> i in c || i == n
  {
    var d := InsertAfterHead(c, n);
    if c != [] {
      assert d[0] == c[0] && d[1] == n;
      assert c == [c[0]] + c[1..];
    }
  }

  /** Storing a new entry in the next free slot keeps the index. */
  lemma InsertKeepsIndex<K, V>(es: seq<Entry<K, V>>, n: nat, ls: seq<int>, chains: seq<seq<nat>>,
                               code: nat, p: Pair<K, V>)
    requires Indexed(es, n, ls, chains) && n < |es|
    ensures var b := code % |ls|;
            -1 <= ls[b] < n &&
            Indexed(WithNew(es, ls[b], n, code, p), n + 1,
                    if ls[b] == -1 then ls[b := n] else ls,
                    chains[b := InsertAfterHead(chains[b], n)])
  {
    var size, u := |ls|, n + 1;
    var b := code % size;
    var c := chains[b];
    assert Chain(es, n, size, b, ls[b], c);
    assert c != [] ==> Node(es, n, size, b, c, 0);
    var es' := WithNew(es, ls[b], n, code, p);
    var ls' := if ls[b] == -1 then ls[b := n] else ls;
    var chains' := chains[b := InsertAfterHead(c, n)];
    forall x | 0 <= x < size ensures Chain(es', u, size, x, ls'[x], chains'[x]) {
      assert Chain(es, n, size, x, ls[x], chains[x]);
      if x == b {
        OwnChain(es, n, size, ls[b], c, code, p);
      } else {
        OtherChain(es, n, size, ls[b], c, x, ls[x], chains[x], code, p);
      }
    }
    forall i | 0 <= i < n + 1 && es'[i].item.Some? ensures i in chains'[es'[i].code % size] {
      InInsert(c, n, i);
    }
  }

  /** The chain of the bucket that the entry enters. */
  lemma OwnChain<K, V>(es: seq<Entry<K, V>>, n: nat, size: nat, head: int, c: seq<nat>, code: nat, p: Pair<K, V>)
    requires size > 0 && n < |es| && Chain(es, n, size, code % size, head, c) && -1 <= head < n
    ensures Chain(WithNew(es, head, n, code, p), n + 1, size, code % size, if head == -1 then n else head,
                  InsertAfterHead(c, n))
  {
    var b, u, d, es' := code % size, n + 1, InsertAfterHead(c, n), WithNew(es, head, n, code, p);
    forall j | 0 <= j < |c| ensures c[j] < n {
      assert Node(es, n, size, b, c, j);
    }
    DescendingInsert(c, n);
    forall j | 0 <= j < |d| ensures Node(es', u, size, b, d, j) {
      if j >= 2 {
        LaterNode(es, n, size, head, c, code, p, j);
      } else if c != [] {
        assert Node(es, n, size, b, c, 0);
      }
    }
  }

  /** Behind head and new entry the nodes are the old ones, one place on. */
  lemma LaterNode<K, V>(es: seq<Entry<K, V>>, n: nat, size: nat, head: int, c: seq<nat>, code: nat, p: Pair<K, V>,
                        j: nat)
    requires size > 0 && n < |es| && Chain(es, n, size, code % size, head, c) && -1 <= head < n
    requires 2 <= j < |InsertAfterHead(c, n)|
    ensures Node(WithNew(es, head, n, code, p), n + 1, size, code % size, InsertAfterHead(c, n), j)
  {
    var d := InsertAfterHead(c, n);
    assert d[j] == c[j - 1] && (j < |c| ==> d[j + 1] == c[j]);
    assert Node(es, n, size, code % size, c, j - 1);
  }

  /** Any other chain: the head that changed is not on it. */
  lemma OtherChain<K, V>(es: seq<Entry<K, V>>, n: nat, size: nat, head: int, c: seq<nat>, x: nat, start: int,
                         cx: seq<nat>, code: nat, p: Pair<K, V>)
    requires size > 0 && n < |es| && -1 <= head < n && x != code % size
    requires Chain(es, n, size, code % size, head, c) && Chain(es, n, size, x, start, cx)
    ensures Chain(WithNew(es, head, n, code, p), n + 1, size, x, start, cx)
  {
    var u, es' := n + 1, WithNew(es, head, n, code, p);
    assert c != [] ==> Node(es, n, size, code % size, c, 0);
    forall j | 0 <= j < |cx| ensures Node(es', u, size, x, cx, j) {
      assert Node(es, n, size, x, cx, j);
    }
  }

  /** The entries once position j of chain c is unlinked and its slot is marked removed. */
  function WithoutNode<K, V>(es: seq<Entry<K, V>>, c: seq<nat>, j: nat): (r: seq<Entry<K, V>>)
    requires j < |c| && forall i :: 0 <= i < |c| ==> c[i] < |es|
    ensures |r| == |es|
  {
    var linked := if j > 0 then es[c[j - 1] := es[c[j - 1]].(next := es[c[j]].next)] else es;
    linked[c[j] := Entry(-1, 0, None)]
  }

  lemma DistinctNodes(c: seq<nat>, j: nat, k: nat)
    requires Descending(c) && j < |c| && k < |c| && j != k
    ensures c[j] != c[k]
  {
  }

  lemma DescendingRemove(c: seq<nat>, j: nat)
    requires Descending(c) && j < |c|
    ensures Descending(RemoveAt(c, j))
  {
  }

  /** Unlinking a node, head or not, and clearing its slot keeps the index. */
  lemma RemoveKeepsIndex<K, V>(es: seq<Entry<K, V>>, used: nat, ls: seq<int>, chains: seq<seq<nat>>, b: nat, j: nat)
    requires Indexed(es, used, ls, chains) && b < |ls| && j < |chains[b]|
    requires forall i :: 0 <= i < |chains[b]| ==> chains[b][i] < |es|
    ensures Indexed(WithoutNode(es, chains[b], j), used,
                    if j == 0 then ls[b := es[chains[b][0]].next] else ls,
                    chains[b := RemoveAt(chains[b], j)])
  {
    var size := |ls|;
    var c := chains[b];
    var d := RemoveAt(c, j);
    var es' := WithoutNode(es, c, j);
    var ls' := if j == 0 then ls[b := es[c[0]].next] else ls;
    var chains' := chains[b := d];
    forall x | 0 <= x < size ensures Chain(es', used, size, x, ls'[x], chains'[x]) {
      assert Chain(es, used, size, x, ls[x], chains[x]);
      if x == b {
        ShorterChain(es, used, size, b, ls[b], c, j);
      } else {
        assert Chain(es, used, size, b, ls[b], c);
        ApartChain(es, used, size, b, ls[b], c, j, x, ls[x], chains[x]);
      }
    }
    assert Chain(es, used, size, b, ls[b], c);
    SameCodes(es, c, j);
    forall i | 0 <= i < used && es'[i].item.Some? ensures i in chains'[es'[i].code % size] {
      if es[i].code % size == b {
        StaysIn(c, j, i);
      }
    }
  }

  lemma SameCodes<K, V>(es: seq<Entry<K, V>>, c: seq<nat>, j: nat)
    requires j < |c| && forall i :: 0 <= i < |c| ==> c[i] < |es|
    ensures var fs := WithoutNode(es, c, j);
            forall i :: 0 <= i < |es| && fs[i].item.Some? ==> i != c[j] && es[i].item.Some? && fs[i].code == es[i].code
  {
  }

  /** The chain that loses its node j. */
  lemma ShorterChain<K, V>(es: seq<Entry<K, V>>, used: nat, size: nat, b: nat, head: int, c: seq<nat>, j: nat)
    requires size > 0 && used <= |es| && Chain(es, used, size, b, head, c) && j < |c|
    requires forall i :: 0 <= i < |c| ==> c[i] < |es|
    ensures Chain(WithoutNode(es, c, j), used, size, b, if j == 0 then es[c[0]].next else head, RemoveAt(c, j))
  {
    var d, es' := RemoveAt(c, j), WithoutNode(es, c, j);
    assert Node(es, used, size, b, c, 0);
    DescendingRemove(c, j);
    forall i | 0 <= i < |d| ensures Node(es', used, size, b, d, i) {
      RemainingNode(es, used, size, b, c, j, i);
    }
  }

  /** Any other chain: neither the node nor the one before it is on it. */
  lemma ApartChain<K, V>(es: seq<Entry<K, V>>, used: nat, size: nat, b: nat, head: int, c: seq<nat>, j: nat,
                         x: nat, start: int, cx: seq<nat>)
    requires size > 0 && used <= |es| && x != b && j < |c|
    requires Chain(es, used, size, b, head, c) && Chain(es, used, size, x, start, cx)
    requires forall i :: 0 <= i < |c| ==> c[i] < |es|
    ensures Chain(WithoutNode(es, c, j), used, size, x, start, cx)
  {
    var es' := WithoutNode(es, c, j);
    assert Node(es, used, size, b, c, j);
    assert j > 0 ==> Node(es, used, size, b, c, j - 1);
    forall i | 0 <= i < |cx| ensures Node(es', used, size, x, cx, i) {
      assert Node(es, used, size, x, cx, i);
    }
  }

  lemma StaysIn(c: seq<nat>, j: nat, i: nat)
    requires j < |c| && i in c && i != c[j]
    ensures i in RemoveAt(c, j)
  {
    var k :| 0 <= k < |c| && c[k] == i;
    assert RemoveAt(c, j)[if k < j then k else k - 1] == i;
  }

  lemma RemainingNode<K, V>(es: seq<Entry<K, V>>, used: nat, buckets: nat, b: nat, c: seq<nat>, j: nat, i: nat)
    requires buckets > 0 && used <= |es| && Descending(c) && j < |c| && i < |c| - 1
    requires forall k :: 0 <= k < |c| ==> Node(es, used, buckets, b, c, k)
    requires forall k :: 0 <= k < |c| ==> c[k] < |es|
    ensures Node(WithoutNode(es, c, j), used, buckets, b, RemoveAt(c, j), i)
  {
    var s := if i < j then i else i + 1;
    assert Node(es, used, buckets, b, c, s);
    assert Node(es, used, buckets, b, c, j);
    DistinctNodes(c, s, j);
    if j > 0 && s != j - 1 {
      DistinctNodes(c, s, j - 1);
    }
  }

  /** The chains partition the live entries: each live slot is at exactly one place of exactly
      one chain, no chain repeats a slot, and only live slots are on chains. */
  lemma ChainsPartition<K, V>(es: seq<Entry<K, V>>, used: nat, ls: seq<int>, chains: seq<seq<nat>>)
    requires Indexed(es, used, ls, chains)
    ensures forall i :: 0 <= i < used ==>
              (es[i].item.Some? <==> exists b, j :: 0 <= b < |ls| && 0 <= j < |chains[b]| && chains[b][j] == i)
    ensures forall b, b', j, j' ::
              (0 <= b < |ls| && 0 <= b' < |ls| && 0 <= j < |chains[b]| && 0 <= j' < |chains[b']|
               && chains[b][j] == chains[b'][j']) ==> b == b' && j == j'
  {
    forall b, j | 0 <= b < |ls| && 0 <= j < |chains[b]|
      ensures chains[b][j] < used && es[chains[b][j]].item.Some? && es[chains[b][j]].code % |ls| == b
    {
      assert Chain(es, used, |ls|, b, ls[b], chains[b]);
      assert Node(es, used, |ls|, b, chains[b], j);
    }
    forall b | 0 <= b < |ls| ensures Descending(chains[b]) {
      assert Chain(es, used, |ls|, b, ls[b], chains[b]);
    }
  }

  /** Replacing the pair of a live entry keeps the index: links and codes are untouched. */
  lemma ReplaceKeepsIndex<K, V>(es: seq<Entry<K, V>>, used: nat, ls: seq<int>, chains: seq<seq<nat>>,
                                i: nat, p: Pair<K, V>)
    requires Indexed(es, used, ls, chains) && i < used && es[i].item.Some?
    ensures Indexed(es[i := es[i].(item := Some(p))], used, ls, chains)
  {
    var size := |ls|;
    var es' := es[i := es[i].(item := Some(p))];
    forall x | 0 <= x < size ensures Chain(es', used, size, x, ls[x], chains[x]) {
      var cx := chains[x];
      assert Chain(es, used, size, x, ls[x], cx);
      forall j | 0 <= j < |cx| ensures Node(es', used, size, x, cx, j) {
        assert Node(es, used, size, x, cx, j);
      }
    }
  }

  // ---- the live pairs ----

  /** The pairs of the slots in use, in slot order. */
  function Live<K, V>(es: seq<Entry<K, V>>): (r: seq<Pair<K, V>>)
    ensures |r| <= |es|
  {
    if es == [] then []
    else Live(es[..|es| - 1]) + PairOf(es[|es| - 1])
  }

  function PairOf<K, V>(e: Entry<K, V>): (r: seq<Pair<K, V>>)
    ensures |r| <= 1
  {
    if e.item.Some? then [e.item.value] else []
  }

  /** The place among the live pairs of the entry at slot i. */
  function Rank<K, V>(es: seq<Entry<K, V>>, i: nat): nat
    requires i <= |es|
  {
    |Live(es[..i])|
  }

  lemma {:induction false} LiveSameItems<K, V>(es: seq<Entry<K, V>>, fs: seq<Entry<K, V>>)
    requires |es| == |fs| && forall i :: 0 <= i < |es| ==> es[i].item == fs[i].item
    ensures Live(es) == Live(fs)
  {
    if es != [] {
      LiveSameItems(es[..|es| - 1], fs[..|fs| - 1]);
    }
  }

  lemma LiveSnoc<K, V>(es: seq<Entry<K, V>>, e: Entry<K, V>)
    ensures Live(es + [e]) == Live(es) + PairOf(e)
  {
    assert (es + [e])[..|es|] == es;
  }

  lemma ConcatAssociates<T>(a: seq<T>, b: seq<T>, c: seq<T>)
    ensures (a + b) + c == a + (b + c)
  {
  }

  lemma LiveNothing<K, V>(es: seq<Entry<K, V>>)
    requires es == []
    ensures Live(es) == []
  {
  }

  lemma {:induction false} LiveConcat<K, V>(es: seq<Entry<K, V>>, fs: seq<Entry<K, V>>)
    ensures Live(es + fs) == Live(es) + Live(fs)
  {
    hide Live;
    if fs == [] {
      assert es + fs == es;
      LiveNothing(fs);
    } else {
      var front, e := fs[..|fs| - 1], fs[|fs| - 1];
      assert fs == front + [e];
      ConcatAssociates(es, front, [e]);
      LiveSnoc(es + front, e);
      LiveSnoc(front, e);
      LiveConcat(es, front);
      ConcatAssociates(Live(es), Live(front), PairOf(e));
    }
  }

  /** Around slot i the live pairs split into those before, its own, and those after. */
  lemma LiveSplit<K, V>(es: seq<Entry<K, V>>, i: nat)
    requires i < |es|
    ensures Live(es) == Live(es[..i]) + PairOf(es[i]) + Live(es[i + 1..])
  {
    hide Live, PairOf;
    SplitAround(es, i);
    LiveConcat(es[..i] + [es[i]], es[i + 1..]);
    LiveSnoc(es[..i], es[i]);
  }

  lemma SplitAround<T>(s: seq<T>, i: nat)
    requires i < |s|
    ensures s == (s[..i] + [s[i]]) + s[i + 1..]
  {
  }

  lemma LiveAt<K, V>(es: seq<Entry<K, V>>, i: nat)
    requires i < |es| && es[i].item.Some?
    ensures Rank(es, i) < |Live(es)| && Live(es)[Rank(es, i)] == es[i].item.value
  {
    LiveSplit(es, i);
  }

  /** Every live pair sits in some slot. */
  lemma {:induction false} SlotOf<K, V>(es: seq<Entry<K, V>>, r: nat) returns (i: nat)
    requires r < |Live(es)|
    ensures i < |es| && es[i].item.Some? && es[i].item.value == Live(es)[r] && Rank(es, i) == r
  {
    var n := |es| - 1;
    if r < |Live(es[..n])| {
      i := SlotOf(es[..n], r);
      assert es[..n][..i] == es[..i];
    } else {
      i := n;
    }
  }

  lemma LiveUpdate<K, V>(es: seq<Entry<K, V>>, i: nat, e: Entry<K, V>)
    requires i < |es|
    ensures Live(es) == Live(es[..i]) + PairOf(es[i]) + Live(es[i + 1..])
    ensures Live(es[i := e]) == Live(es[..i]) + PairOf(e) + Live(es[i + 1..])
  {
    LiveSplit(es, i);
    LiveSplit(es[i := e], i);
    assert es[i := e][..i] == es[..i] && es[i := e][i + 1..] == es[i + 1..];
  }

  lemma SpliceUpdate<T>(a: seq<T>, x: T, y: T, b: seq<T>)
    ensures (a + [x] + b)[|a| := y] == a + [y] + b
  {
  }

  lemma SpliceRemove<T>(a: seq<T>, x: T, b: seq<T>)
    ensures RemoveAt(a + [x] + b, |a|) == a + [] + b
  {
  }

  lemma LiveReplace<K, V>(es: seq<Entry<K, V>>, i: nat, e: Entry<K, V>)
    requires i < |es| && es[i].item.Some? && e.item.Some?
    ensures Rank(es, i) < |Live(es)|
    ensures Live(es[i := e]) == Live(es)[Rank(es, i) := e.item.value]
  {
    LiveUpdate(es, i, e);
    var a, b := Live(es[..i]), Live(es[i + 1..]);
    SpliceUpdate(a, es[i].item.value, e.item.value, b);
  }

  lemma LiveClear<K, V>(es: seq<Entry<K, V>>, i: nat, e: Entry<K, V>)
    requires i < |es| && es[i].item.Some? && e.item.None?
    ensures Rank(es, i) < |Live(es)|
    ensures Live(es[i := e]) == RemoveAt(Live(es), Rank(es, i))
  {
    LiveUpdate(es, i, e);
    var a, b := Live(es[..i]), Live(es[i + 1..]);
    SpliceRemove(a, es[i].item.value, b);
  }

  // ---- the index with its contents ----

  /** The live pairs among the first `used` slots: the table's contents. */
  function Pairs<K, V>(es: seq<Entry<K, V>>, used: nat): seq<Pair<K, V>>
    requires used <= |es|
  {
    Live(es[..used])
  }

  /** Every cached code is the hash of its key. */
  ghost predicate CodesMatch<K, V>(keys: KeyOps<K>, es: seq<Entry<K, V>>, used: nat)
    requires used <= |es|
  {
    forall i :: 0 <= i < used && es[i].item.Some? ==> es[i].code == keys.hashcode(es[i].item.value.key)
  }

  /** The arrays hold a map: indexed by chains, with true codes and no key twice. */
  ghost predicate Sound<K, V>(keys: KeyOps<K>, es: seq<Entry<K, V>>, used: nat, ls: seq<int>, chains: seq<seq<nat>>) {
    && Indexed(es, used, ls, chains)
    && CodesMatch(keys, es, used)
    && Distinct(keys, Pairs(es, used))
  }

  /** The entry at slot i holds a key equal to k. */
  ghost predicate Matches<K, V>(keys: KeyOps<K>, es: seq<Entry<K, V>>, used: nat, i: nat, k: K)
    requires used <= |es|
  {
    i < used && es[i].item.Some? && keys.equals(es[i].item.value.key, k)
  }

  lemma MatchIsPosition<K(!new), V>(keys: KeyOps<K>, es: seq<Entry<K, V>>, used: nat, ls: seq<int>,
                                    chains: seq<seq<nat>>, i: nat, k: K)
    requires Lawful(keys) && Sound(keys, es, used, ls, chains) && Matches(keys, es, used, i, k)
    ensures Has(keys, Pairs(es, used), k)
    ensures Position(keys, Pairs(es, used), k) == Rank(es, i)
    ensures Pairs(es, used)[Rank(es, i)] == es[i].item.value
  {
    assert es[..used][..i] == es[..i];
    LiveAt(es[..used], i);
    PositionIs(keys, Pairs(es, used), k, Rank(es, i));
  }

  /** The walk along a chain: where it starts, and what stands at each place of it. */
  lemma ChainStart<K, V>(keys: KeyOps<K>, es: seq<Entry<K, V>>, used: nat, ls: seq<int>, chains: seq<seq<nat>>, b: nat)
    requires Sound(keys, es, used, ls, chains) && b < |ls|
    ensures b < |chains| && ls[b] == Link(chains[b], 0)
  {
    assert Chain(es, used, |ls|, b, ls[b], chains[b]);
  }

  lemma ChainPlace<K(!new), V>(keys: KeyOps<K>, es: seq<Entry<K, V>>, used: nat, ls: seq<int>,
                               chains: seq<seq<nat>>, b: nat, j: nat, k: K)
    requires Lawful(keys) && Sound(keys, es, used, ls, chains) && b < |ls|
    requires b < |chains| && j < |chains[b]|
    ensures var i := chains[b][j];
            && i < used <= |es| && es[i].item.Some? && es[i].next == Link(chains[b], j + 1)
            && (keys.equals(es[i].item.value.key, k) ==> es[i].code == keys.hashcode(k))
  {
    assert Chain(es, used, |ls|, b, ls[b], chains[b]);
    assert Node(es, used, |ls|, b, chains[b], j);
  }

  /** A key that matches nothing in its own bucket's chain is not in the table. */
  lemma NotInChain<K(!new), V>(keys: KeyOps<K>, es: seq<Entry<K, V>>, used: nat, ls: seq<int>,
                               chains: seq<seq<nat>>, k: K)
    requires Lawful(keys) && Sound(keys, es, used, ls, chains)
    requires var c := chains[keys.hashcode(k) % |ls|]; forall j :: 0 <= j < |c| ==> !Matches(keys, es, used, c[j], k)
    ensures !Has(keys, Pairs(es, used), k)
  {
    var b := keys.hashcode(k) % |ls|;
    forall r | 0 <= r < |Pairs(es, used)| ensures !keys.equals(Pairs(es, used)[r].key, k) {
      var i := SlotOf(es[..used], r);
      assert es[i].code == keys.hashcode(Pairs(es, used)[r].key);
      assert es[i].code % |ls| == b ==> i in chains[b];
    }
  }

  lemma PairsStep<K, V>(es: seq<Entry<K, V>>, i: nat)
    requires i < |es|
    ensures Pairs(es, i + 1) == Pairs(es, i) + PairOf(es[i])
  {
    assert es[..i + 1][..i] == es[..i];
  }

  /** Fewer slots hold a prefix of the pairs. */
  lemma PairsPrefix<K, V>(es: seq<Entry<K, V>>, i: nat, used: nat)
    requires i <= used <= |es|
    ensures Pairs(es, i) <= Pairs(es, used)
  {
    assert es[..used] == es[..i] + es[i..used];
    LiveConcat(es[..i], es[i..used]);
  }

  lemma PairsSameItems<K, V>(es: seq<Entry<K, V>>, fs: seq<Entry<K, V>>, used: nat)
    requires used <= |es| && used <= |fs| && forall i :: 0 <= i < used ==> es[i].item == fs[i].item
    ensures Pairs(es, used) == Pairs(fs, used)
  {
    LiveSameItems(es[..used], fs[..used]);
  }

  /** Only slot n differs in what it stores; links may differ anywhere. */
  ghost predicate SameBut<K, V>(es: seq<Entry<K, V>>, fs: seq<Entry<K, V>>, n: nat) {
    |es| == |fs| && forall i :: 0 <= i < |es| && i != n ==> es[i].item == fs[i].item && es[i].code == fs[i].code
  }

  lemma AppendKeepsPairs<K, V>(keys: KeyOps<K>, es: seq<Entry<K, V>>, fs: seq<Entry<K, V>>, n: nat, p: Pair<K, V>)
    requires n < |es| && SameBut(es, fs, n) && CodesMatch(keys, es, n)
    requires fs[n].item == Some(p) && fs[n].code == keys.hashcode(p.key)
    ensures CodesMatch(keys, fs, n + 1)
    ensures Pairs(fs, n + 1) == Pairs(es, n) + [p]
  {
    PairsSameItems(es, fs, n);
    PairsStep(fs, n);
  }

  lemma ReplaceKeepsSound<K(!new), V>(keys: KeyOps<K>, es: seq<Entry<K, V>>, used: nat, ls: seq<int>,
                                      chains: seq<seq<nat>>, i: nat, p: Pair<K, V>)
    requires Lawful(keys) && Sound(keys, es, used, ls, chains) && Matches(keys, es, used, i, p.key)
    ensures var fs := es[i := es[i].(item := Some(p))];
            && Sound(keys, fs, used, ls, chains)
            && Rank(es, i) < |Pairs(es, used)|
            && Pairs(fs, used) == Pairs(es, used)[Rank(es, i) := p]
  {
    var e := es[i].(item := Some(p));
    var fs := es[i := e];
    ReplaceKeepsIndex(es, used, ls, chains, i, p);
    assert fs[..used] == es[..used][i := e];
    assert es[..used][..i] == es[..i];
    LiveReplace(es[..used], i, e);
    MatchIsPosition(keys, es, used, ls, chains, i, p.key);
    DistinctAfterSet(keys, Pairs(es, used), p.key, p.value);
  }

  lemma OnlyNodeCleared<K, V>(es: seq<Entry<K, V>>, c: seq<nat>, j: nat)
    requires j < |c| && forall i :: 0 <= i < |c| ==> c[i] < |es|
    ensures SameBut(es, WithoutNode(es, c, j), c[j]) && WithoutNode(es, c, j)[c[j]].item.None?
  {
  }

  lemma RemoveKeepsSound<K(!new), V>(keys: KeyOps<K>, es: seq<Entry<K, V>>, used: nat, ls: seq<int>,
                                     chains: seq<seq<nat>>, b: nat, j: nat, k: K)
    requires Lawful(keys) && Sound(keys, es, used, ls, chains)
    requires b < |ls| && j < |chains[b]| && Matches(keys, es, used, chains[b][j], k)
    requires forall i :: 0 <= i < |chains[b]| ==> chains[b][i] < |es|
    ensures var fs := WithoutNode(es, chains[b], j);
            var r := Rank(es, chains[b][j]);
            && Sound(keys, fs, used, if j == 0 then ls[b := es[chains[b][0]].next] else ls,
                     chains[b := RemoveAt(chains[b], j)])
            && r < |Pairs(es, used)|
            && Pairs(fs, used) == RemoveAt(Pairs(es, used), r)
  {
    hide WithoutNode, Chain, Distinct;
    var i := chains[b][j];
    var fs := WithoutNode(es, chains[b], j);
    RemoveKeepsIndex(es, used, ls, chains, b, j);
    OnlyNodeCleared(es, chains[b], j);
    var gs := es[i := fs[i]];
    assert gs[..used] == es[..used][i := fs[i]];
    assert es[..used][..i] == es[..i];
    LiveClear(es[..used], i, fs[i]);
    PairsSameItems(fs, gs, used);
    MatchIsPosition(keys, es, used, ls, chains, i, k);
    DistinctAfterDelete(keys, Pairs(es, used), k);
  }

  /** Fresh arrays hold the empty map. */
  lemma EmptySound<K, V>(keys: KeyOps<K>, es: seq<Entry<K, V>>, ls: seq<int>)
    requires |es| == |ls| > 0 && forall i :: 0 <= i < |ls| ==> ls[i] == -1
    ensures Sound(keys, es, 0, ls, seq(|ls|, _ => []))
    ensures Pairs(es, 0) == []
  {
  }
}
