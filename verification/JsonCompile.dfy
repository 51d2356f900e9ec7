/** `pcl_json_compile` of src/json/json_compile.c: scan the path, push each step on the front
    of a linked list, then reverse the list in place. */
module JsonCompile {
  import opened Common
  import opened JsonPathSpec

  class PathNode {
    const step: Step
    var next: PathNode?

    constructor (step: Step, next: PathNode?)
      ensures this.step == step && this.next == next
    {
      this.step, this.next := step, next;
    }
  }

  // ---- linked lists ----

  /** The node at position i, or null past the end. */
  ghost function NodeAt(ns: seq<PathNode>, i: nat): PathNode? {
    if i < |ns| then ns[i] else null
  }

  /** The nodes reached from head are ns, in order, each once. */
  ghost predicate ListOf(head: PathNode?, ns: seq<PathNode>)
    reads ns
  {
    && head == NodeAt(ns, 0)
    && (forall i, j :: 0 <= i < j < |ns| ==> ns[i] != ns[j])
    && forall i {:trigger ns[i].next} :: 0 <= i < |ns| ==> ns[i].next == NodeAt(ns, i + 1)
  }

  ghost function StepsOf(ns: seq<PathNode>): (r: seq<Step>)
    ensures |r| == |ns|
    ensures forall i :: 0 <= i < |r| ==> r[i] == ns[i].step
  {
    if ns == [] then [] else [ns[0].step] + StepsOf(ns[1..])
  }

  /** The node in front of position i, or null at the start. */
  ghost function NodeBefore(ns: seq<PathNode>, i: nat): PathNode?
    requires i <= |ns|
  {
    if i > 0 then ns[i - 1] else null
  }

  /** The first k links point back, the others forth. */
  ghost predicate HalfReversed(ns: seq<PathNode>, k: nat)
    reads ns
    requires k <= |ns|
  {
    && (forall i, j :: 0 <= i < j < |ns| ==> ns[i] != ns[j])
    && (forall i {:trigger ns[i].next} :: 0 <= i < k ==> ns[i].next == NodeBefore(ns, i))
    && (forall i {:trigger ns[i].next} :: k <= i < |ns| ==> ns[i].next == NodeAt(ns, i + 1))
  }

  /** The final loop: turn the links around. */
  method ReverseInPlace(head: PathNode?, ghost ns: seq<PathNode>) returns (root: PathNode?)
    requires ListOf(head, ns)
    modifies ns
    ensures ListOf(root, Reverse(ns))
  {
    root := head;
    var prev: PathNode? := null;
    var current := head;
    ghost var k := 0;
    while current != null
      invariant k <= |ns| && HalfReversed(ns, k)
      invariant current == NodeAt(ns, k) && prev == NodeBefore(ns, k)
      invariant root == (if k > 0 then prev else head)
      decreases |ns| - k
    {
      var next := current.next;
      current.next := prev;
      prev := current;
      root := prev;
      current := next;
      k := k + 1;
    }
    FullyReversed(ns);
  }

  lemma FullyReversed(ns: seq<PathNode>)
    requires HalfReversed(ns, |ns|)
    ensures ListOf(NodeBefore(ns, |ns|), Reverse(ns))
  {
    var r := Reverse(ns);
    forall i | 0 <= i < |r| ensures r[i].next == NodeAt(r, i + 1) {
      assert r[i] == ns[|ns| - 1 - i];
      assert NodeBefore(ns, |ns| - 1 - i) == NodeAt(r, i + 1);
    }
    forall i, j | 0 <= i < j < |r| ensures r[i] != r[j] {
      assert r[i] == ns[|ns| - 1 - i] && r[j] == ns[|ns| - 1 - j];
    }
  }

  // ---- scanning ----

  /** Characters of a suffix are characters of the string. */
  lemma Shift(s: string, p: nat)
    requires p <= |s|
    ensures forall k: nat :: At(s[p..], k) == At(s, p + k)
  {
  }

  method CountSpace(s: string, p: nat) returns (n: nat)
    requires p <= |s|
    ensures n == SkipSpace(s[p..])
  {
    n := 0;
    while p + n < |s| && IsSpace(s[p + n])
      invariant p + n <= |s|
      invariant SkipSpace(s[p..]) == n + SkipSpace(s[p + n..])
    {
      assert s[p + n..][1..] == s[p + n + 1..];
      n := n + 1;
    }
  }

  lemma NoDigitsYet(s: string, p: nat)
    requires p <= |s|
    ensures Decimal(s[p..p]) == 0
  {
  }

  lemma DigitStep(s: string, p: nat, n: nat)
    requires p + n < |s| && forall i :: p <= i <= p + n ==> IsDigit(s[i])
    ensures CountDigits(s[p + n..]) == 1 + CountDigits(s[p + n + 1..])
    ensures Decimal(s[p..p + n + 1]) == 10 * Decimal(s[p..p + n]) + DigitValue(s[p + n])
  {
    assert s[p + n..][1..] == s[p + n + 1..];
    assert s[p..p + n + 1][..n] == s[p..p + n];
  }

  /** The run of digits at s[p..] and its value. */
  method DigitRun(s: string, p: nat) returns (v: nat, n: nat)
    requires p <= |s|
    ensures n == CountDigits(s[p..]) && p + n <= |s|
    ensures forall i :: p <= i < p + n ==> IsDigit(s[i])
    ensures v == Decimal(s[p..p + n])
  {
    hide CountDigits, Decimal;
    v, n := 0, 0;
    NoDigitsYet(s, p);
    while p + n < |s| && IsDigit(s[p + n])
      invariant p + n <= |s|
      invariant CountDigits(s[p..]) == n + CountDigits(s[p + n..])
      invariant forall i :: p <= i < p + n ==> IsDigit(s[i])
      invariant v == Decimal(s[p..p + n])
    {
      DigitStep(s, p, n);
      v := 10 * v + DigitValue(s[p + n]);
      n := n + 1;
    }
    DigitsEnd(s, p + n);
  }

  lemma DigitsEnd(s: string, p: nat)
    requires p <= |s| && (p < |s| ==> !IsDigit(s[p]))
    ensures CountDigits(s[p..]) == 0
  {
  }

  /** `pcl_strtoi` at s[p..]. */
  method StrToI(s: string, p: nat) returns (r: Option<Parsed<int>>)
    requires p <= |s|
    ensures r == ReadInt(s[p..])
  {
    hide SkipSpace, CountDigits, Decimal, ReadInt;
    var a := CountSpace(s, p);
    var minus := At(s, p + a) == '-';
    var b := if minus || At(s, p + a) == '+' then a + 1 else a;
    var d, n := DigitRun(s, p + b);
    IntAt(s, p, a, b, n);
    var v: int := d;
    if minus {
      v := -v;
    }
    if n == 0 || !IsInt(v) {
      return None;
    }
    return Some(Parsed(v, b + n));
  }

  /** A number in the middle of a string, part by part. */
  lemma IntAt(s: string, p: nat, a: nat, b: nat, n: nat)
    requires p + b + n <= |s| && a <= b && a == SkipSpace(s[p..])
    requires b == if At(s, p + a) == '-' || At(s, p + a) == '+' then a + 1 else a
    requires n == CountDigits(s[p + b..])
    ensures forall i :: p + b <= i < p + b + n ==> IsDigit(s[i])
    ensures var d := Decimal(s[p + b..p + b + n]);
            var v: int := if At(s, p + a) == '-' then 0 - d else d;
            ReadInt(s[p..]) == if n == 0 || !IsInt(v) then None else Some(Parsed(v, b + n))
  {
    hide SkipSpace, CountDigits, Decimal;
    var t := s[p..];
    assert At(t, a) == At(s, p + a);
    assert t[b..] == s[p + b..] && t[b..b + n] == s[p + b..p + b + n];
    forall i | p + b <= i < p + b + n ensures IsDigit(s[i]) {
      assert s[p + b..][i - (p + b)] == s[i];
    }
  }

  method NameEnd(s: string, p: nat) returns (n: nat)
    requires p <= |s|
    ensures n == NameLength(s[p..])
  {
    n := 0;
    while p + n < |s| && s[p + n] != '.' && s[p + n] != '['
      invariant p + n <= |s|
      invariant NameLength(s[p..]) == n + NameLength(s[p + n..])
    {
      assert s[p + n..][1..] == s[p + n + 1..];
      n := n + 1;
    }
  }

  /** strstr of `']`. */
  method FindMark(s: string, p: nat) returns (r: Option<nat>)
    requires p <= |s|
    ensures r == FindClose(s[p..])
  {
    var n := 0;
    while p + n + 1 < |s|
      invariant p + n <= |s|
      invariant FindClose(s[p..]) == (var f := FindClose(s[p + n..]); if f.None? then None else Some(n + f.value))
    {
      if s[p + n] == '\'' && s[p + n + 1] == ']' {
        return Some(n);
      }
      assert s[p + n..][1..] == s[p + n + 1..];
      n := n + 1;
    }
    return None;
  }

  /** The optional step and the closing bracket of a slice. */
  method SliceTail(s: string, p: nat, base: nat, start: int, end: int) returns (r: Result<Parsed<Step>>)
    requires p <= |s|
    ensures r == ReadSliceTail(s[p..], base, start, end)
  {
    Shift(s, p);
    if At(s, p) == ':' {
      assert s[p..][1..] == s[p + 1..];
      var v := StrToI(s, p + 1);
      if v.None? {
        return Err(BadNumber);
      }
      if At(s, p + 1 + v.value.used) != ']' {
        return Err(BadSlice);
      }
      return Ok(Parsed(ElementSlice(start, end, v.value.value), base + v.value.used + 2));
    }
    if At(s, p) != ']' {
      return Err(BadSlice);
    }
    return Ok(Parsed(ElementSlice(start, end, 1), base + 1));
  }

  /** The loop over an index list, from its first comma. */
  method List(s: string, p: nat, base: nat, first: int) returns (r: Result<Parsed<Step>>)
    requires p < |s| && s[p] == ','
    ensures r == ReadList(s[p..], base, [first])
  {
    hide ReadInt, ReadList;
    var q, indexes := p, [first];
    while At(s, q) != ']'
      invariant p <= q < |s| && (s[q] == ',' || s[q] == ']')
      invariant s[q] == ',' ==> ReadList(s[p..], base, [first]) == ReadList(s[q..], base + q - p, indexes)
      invariant s[q] == ']' ==>
                  ReadList(s[p..], base, [first]) == Ok(Parsed(ElementList(indexes), base + q - p + 1))
      decreases |s| - q
    {
      var v := StrToI(s, q + 1);
      ListTurn(s, q, base + q - p, indexes, v);
      if v.None? {
        return Err(BadNumber);
      }
      var end := q + 1 + v.value.used;
      if At(s, end) != ',' && At(s, end) != ']' {
        return Err(BadSubscript);
      }
      indexes := indexes + [v.value.value];
      q := end;
    }
    return Ok(Parsed(ElementList(indexes), base + q - p + 1));
  }

  /** What one number of the list decides. */
  lemma ListTurn(s: string, q: nat, base: nat, got: seq<int>, v: Option<Parsed<int>>)
    requires q < |s| && s[q] == ',' && v == ReadInt(s[q + 1..])
    ensures v.None? ==> ReadList(s[q..], base, got) == Err(BadNumber)
    ensures v.Some? ==>
              var end, more := q + 1 + v.value.used, got + [v.value.value];
              end <= |s| &&
              ReadList(s[q..], base, got) ==
              if At(s, end) == ',' then ReadList(s[end..], base + 1 + v.value.used, more)
              else if At(s, end) == ']' then Ok(Parsed(ElementList(more), base + 1 + v.value.used + 1))
              else Err(BadSubscript)
  {
    hide ReadInt;
    assert s[q..][1..] == s[q + 1..];
    if v.Some? {
      Shift(s, q + 1 + v.value.used);
      assert s[q..][1 + v.value.used..] == s[q + 1 + v.value.used..];
    }
  }

  /** Subscripts that start with a number. */
  method Subscript(s: string, p: nat) returns (r: Result<Parsed<Step>>)
    requires p < |s| && s[p] == '['
    ensures r == ReadSubscript(s[p..])
  {
    hide ReadInt, ReadList, ReadSliceTail;
    ghost var t := s[p..];
    assert t[1..] == s[p + 1..];
    var v := StrToI(s, p + 1);
    if v.None? {
      return Err(BadNumber);
    }
    var index, base := v.value.value, 1 + v.value.used;
    var q := p + base;
    assert t[base..] == s[q..];
    Shift(s, q);
    if At(s, q) == ',' {
      r := List(s, q, base, index);
    } else if At(s, q) == ':' {
      assert s[q..][1..] == s[q + 1..];
      r := SliceEnd(s, q + 1, base + 1, index);
    } else if At(s, q) == ']' {
      r := Ok(Parsed(Element(index), base + 1));
    } else {
      r := Err(BadSubscript);
    }
  }

  /** The part of a slice behind its first colon, when it has a start. */
  method SliceEnd(s: string, p: nat, base: nat, start: int) returns (r: Result<Parsed<Step>>)
    requires p <= |s|
    ensures r == ReadSliceEnd(s[p..], base, start)
  {
    hide ReadInt, ReadSliceTail;
    Shift(s, p);
    if At(s, p) != ']' && At(s, p) != ':' {
      var v := StrToI(s, p);
      if v.None? {
        return Err(BadNumber);
      }
      assert s[p..][v.value.used..] == s[p + v.value.used..];
      r := SliceTail(s, p + v.value.used, base + v.value.used, start, v.value.value);
    } else {
      r := SliceTail(s, p, base, start, 0);
    }
  }

  /** A slice without a start. */
  method OpenSlice(s: string, p: nat) returns (r: Result<Parsed<Step>>)
    requires p + 1 < |s| && s[p] == '[' && s[p + 1] == ':'
    ensures r == ReadOpenSlice(s[p..])
  {
    hide ReadInt, ReadSliceTail;
    ghost var t := s[p..];
    Shift(s, p);
    assert t[2..] == s[p + 2..];
    if At(s, p + 2) != ':' {
      var v := StrToI(s, p + 2);
      if v.None? {
        return Err(BadNumber);
      }
      assert t[2 + v.value.used..] == s[p + 2 + v.value.used..];
      r := SliceTail(s, p + 2 + v.value.used, 2 + v.value.used, 0, v.value.value);
    } else {
      r := SliceTail(s, p + 2, 2, 0, 0);
    }
  }

  /** A quoted member or wildcard. */
  method Quote(s: string, p: nat) returns (r: Result<Parsed<Step>>)
    requires p + 1 < |s| && s[p] == '[' && s[p + 1] == '\''
    ensures r == ReadQuote(s[p..])
  {
    hide FindClose;
    ghost var t := s[p..];
    Shift(s, p);
    if At(s, p + 2) == '*' && At(s, p + 3) == '\'' && At(s, p + 4) == ']' {
      return Ok(Parsed(WildcardMember, 5));
    }
    assert t[2..] == s[p + 2..];
    var end := FindMark(s, p + 2);
    if end.None? {
      return Err(UnterminatedQuote);
    }
    var n := end.value;
    assert t[2..2 + n] == s[p + 2..][..n];
    return Ok(Parsed(Member(StrNDup(s[p + 2..], n)), n + 4));
  }

  /** `pcl_strndup`: a length of 0 stands for the whole string. */
  function StrNDup(s: string, n: nat): string
    requires n <= |s|
  {
    if n == 0 then s else s[..n]
  }

  /** A step behind a dot. */
  method Dot(s: string, p: nat) returns (r: Result<Parsed<Step>>)
    requires p < |s| && s[p] == '.'
    ensures r == ReadDot(s[p..])
  {
    hide NameLength;
    ghost var t := s[p..];
    Shift(s, p);
    if At(s, p + 1) == '.' {
      return Ok(Parsed(RecursiveDescent, 1));
    }
    if At(s, p + 1) == '*' {
      return Ok(Parsed(WildcardMember, 2));
    }
    assert t[1..] == s[p + 1..];
    var n := NameEnd(s, p + 1);
    if n == 0 {
      return Err(MissingMember);
    }
    assert t[1..1 + n] == s[p + 1..][..n];
    return Ok(Parsed(Member(StrNDup(s[p + 1..], n)), 1 + n));
  }

  /** One turn of the switch. */
  method ParseStep(s: string, p: nat) returns (r: Result<Parsed<Step>>)
    requires p < |s|
    ensures r == ReadStep(s[p..])
  {
    hide ReadDot, ReadQuote, ReadOpenSlice, ReadSubscript;
    Shift(s, p);
    if s[p] == '$' {
      r := Err(SecondRoot);
    } else if s[p] == '.' {
      r := Dot(s, p);
    } else if s[p] == '[' {
      if At(s, p + 1) == '*' && At(s, p + 2) == ']' {
        r := Ok(Parsed(WildcardElement, 3));
      } else if At(s, p + 1) == '\'' {
        r := Quote(s, p);
      } else if At(s, p + 1) == ':' {
        r := OpenSlice(s, p);
      } else {
        r := Subscript(s, p);
      }
    } else {
      r := Err(UnexpectedCharacter);
    }
  }

  /** `pcl_json_compile`. Null is the failure, with its reason. */
  method Compile(path: string) returns (root: PathNode?, ghost nodes: seq<PathNode>, error: Option<PathError>)
    requires '\0' !in path
    ensures match Compiled(path)
            case Err(e) => root == null && error == Some(e)
            case Ok(steps) => root != null && error == None && ListOf(root, nodes) && StepsOf(nodes) == steps
                              && forall i :: 0 <= i < |nodes| ==> fresh(nodes[i])
  {
    hide ReadSteps, SkipSpace, StepsOf;
    nodes := [];
    var start := CountSpace(path, 0);
    assert path[0..] == path;
    var p := start;
    if At(path, p) != '$' || (At(path, p + 1) != '.' && At(path, p + 1) != '[') {
      return null, [], Some(MissingRoot);
    }
    p := p + 1;
    root := new PathNode(Root, null);
    nodes := [root];
    error, root, nodes := ScanSteps(path, p, root);
    if error.Some? {
      return null, [], error;
    }
    StepsReversed(nodes);
    root := ReverseInPlace(root, nodes);
    ghost var steps := StepsOf(Reverse(nodes));
    nodes := Reverse(nodes);
    assert ListOf(root, nodes) && StepsOf(nodes) == steps && root == NodeAt(nodes, 0);
  }

  /** The scan: every step is put in front of the list that begins with the root. */
  method ScanSteps(path: string, start: nat, rootNode: PathNode)
    returns (error: Option<PathError>, head: PathNode, ghost nodes: seq<PathNode>)
    requires start <= |path| && rootNode.step == Root && rootNode.next == null
    ensures match ReadSteps(path[start..])
            case Err(e) => error == Some(e)
            case Ok(steps) => error == None && ListOf(head, nodes)
                              && Reverse(StepsOf(nodes)) == [Root] + steps
                              && forall i :: 0 <= i < |nodes| ==> nodes[i] == rootNode || fresh(nodes[i])
  {
    hide ReadStep, ReadSteps;
    var p := start;
    error, head, nodes := None, rootNode, [rootNode];
    ghost var done: seq<Step> := [];
    PrependNothing(ReadSteps(path[p..]));
    while p < |path|
      invariant start <= p <= |path| && ListOf(head, nodes)
      invariant forall i :: 0 <= i < |nodes| ==> nodes[i] == rootNode || fresh(nodes[i])
      invariant Reverse(StepsOf(nodes)) == [Root] + done
      invariant ReadSteps(path[start..]) == Prepend(done, ReadSteps(path[p..]))
    {
      var r := ParseStep(path, p);
      ReadTurn(path, p, done, r);
      if r.Err? {
        error := Some(r.error);
        return;
      }
      head, nodes := Push(r.value.value, head, nodes);
      done := done + [r.value.value];
      p := p + r.value.used;
    }
    NoMoreSteps(path, done);
  }

  lemma NoMoreSteps(path: string, done: seq<Step>)
    ensures Prepend(done, ReadSteps(path[|path|..])) == Ok(done)
  {
    assert path[|path|..] == "" && done + [] == done;
  }

  lemma StepsReversed(ns: seq<PathNode>)
    ensures StepsOf(Reverse(ns)) == Reverse(StepsOf(ns))
  {
    hide StepsOf, Reverse;
  }

  ghost function Prepend(done: seq<Step>, rest: Result<seq<Step>>): Result<seq<Step>> {
    match rest
    case Err(e) => Err(e)
    case Ok(ss) => Ok(done + ss)
  }

  lemma PrependNothing(rest: Result<seq<Step>>)
    ensures Prepend([], rest) == rest
  {
    if rest.Ok? {
      assert [] + rest.value == rest.value;
    }
  }

  lemma ReadTurn(s: string, p: nat, done: seq<Step>, r: Result<Parsed<Step>>)
    requires p < |s| && r == ReadStep(s[p..])
    ensures r.Err? ==> Prepend(done, ReadSteps(s[p..])) == Err(r.error)
    ensures r.Ok? ==> p + r.value.used <= |s| &&
                      Prepend(done, ReadSteps(s[p..])) == Prepend(done + [r.value.value], ReadSteps(s[p + r.value.used..]))
  {
    hide ReadStep;
    if r.Ok? {
      assert s[p..][r.value.used..] == s[p + r.value.used..];
      var rest := ReadSteps(s[p + r.value.used..]);
      if rest.Ok? {
        assert done + ([r.value.value] + rest.value) == (done + [r.value.value]) + rest.value;
      }
    }
  }

  /** Put a step in front of the list. */
  method Push(step: Step, root: PathNode?, ghost ns: seq<PathNode>) returns (node: PathNode, ghost ms: seq<PathNode>)
    requires ListOf(root, ns)
    ensures fresh(node) && ms == [node] + ns && ListOf(node, ms)
    ensures Reverse(StepsOf(ms)) == Reverse(StepsOf(ns)) + [step]
  {
    node := new PathNode(step, root);
    ms := [node] + ns;
    assert ms[1..] == ns;
  }
}
