/** The language of paths: every way to write each step, and what it means. The compiler
    accepts these texts and no others. Texts are written in front of what follows them. */
module JsonPathTexts {
  import opened Common
  import opened JsonPathSpec

  // ---- the language ----

  /** Space, a sign or none, and digits. */
  datatype Number = Number(space: string, sign: string, digits: string)

  ghost predicate NumberShape(n: Number) {
    && (forall i :: 0 <= i < |n.space| ==> IsSpace(n.space[i]))
    && (n.sign == "" || n.sign == "+" || n.sign == "-")
    && n.digits != "" && forall i :: 0 <= i < |n.digits| ==> IsDigit(n.digits[i])
  }

  ghost function NumberValue(n: Number): int
    requires NumberShape(n)
  {
    if n.sign == "-" then 0 - Decimal(n.digits) else Decimal(n.digits)
  }

  ghost predicate NumberOk(n: Number) {
    NumberShape(n) && -0x8000_0000 <= NumberValue(n) < 0x8000_0000
  }

  function WriteNumber(n: Number, rest: string): (t: string)
    ensures |t| >= |rest|
  {
    n.space + (n.sign + (n.digits + rest))
  }

  /** The ways to write a step. A slice may lack its start, its end, or its step with the
      colon in front of it. */
  datatype Writing =
    | Plain(name: string)
    | Star
    | Descent
    | Quoted(name: string)
    | QuotedStar
    | AnyElement
    | Numbered(index: Number)
    | Listed(indexes: seq<Number>)
    | Sliced(start: Option<Number>, end: Option<Number>, step: Option<Number>)

  /** A name that can stand behind a dot. */
  ghost predicate DotName(n: string) {
    n != "" && '.' !in n && '[' !in n && n[0] != '*'
  }

  ghost predicate PartOk(p: Option<Number>) {
    p.Some? ==> NumberOk(p.value)
  }

  ghost predicate WritingOk(w: Writing) {
    match w
    case Plain(n) => DotName(n)
    case Quoted(n) => n != "*" && FindClose(n).None?
    case Numbered(n) => NumberOk(n)
    case Listed(l) => |l| >= 2 && forall k :: 0 <= k < |l| ==> NumberOk(l[k])
    case Sliced(a, b, c) => PartOk(a) && PartOk(b) && PartOk(c) && (a.Some? || b.Some? || c.Some?)
    case _ => true
  }

  function WriteList(l: seq<Number>, rest: string): (t: string)
    ensures |t| > |rest|
  {
    if l == [] then "]" + rest else "," + WriteNumber(l[0], WriteList(l[1..], rest))
  }

  function WriteTail(step: Option<Number>, rest: string): (t: string)
    ensures |t| > |rest|
  {
    match step
    case None => "]" + rest
    case Some(n) => ":" + WriteNumber(n, "]" + rest)
  }

  function WriteEnd(end: Option<Number>, step: Option<Number>, rest: string): (t: string)
    ensures |t| > |rest|
  {
    match end
    case None => WriteTail(step, rest)
    case Some(n) => WriteNumber(n, WriteTail(step, rest))
  }

  /** A step in front of the rest of the path. */
  function Write(w: Writing, rest: string): (t: string)
    ensures |t| > |rest|
  {
    match w
    case Plain(n) => "." + (n + rest)
    case Star => ".*" + rest
    case Descent => "." + rest
    case Quoted(n) => "['" + (n + ("']" + rest))
    case QuotedStar => "['*']" + rest
    case AnyElement => "[*]" + rest
    case Numbered(n) => "[" + WriteNumber(n, "]" + rest)
    case Listed(l) => if l == [] then "[" + rest else "[" + WriteNumber(l[0], WriteList(l[1..], rest))
    case Sliced(None, b, c) => "[" + (":" + WriteEnd(b, c, rest))
    case Sliced(Some(a), b, c) => "[" + WriteNumber(a, ":" + WriteEnd(b, c, rest))
  }

  ghost function PartValue(p: Option<Number>, missing: int): int
    requires PartOk(p)
  {
    if p.Some? then NumberValue(p.value) else missing
  }

  ghost function Values(l: seq<Number>): (v: seq<int>)
    requires forall k :: 0 <= k < |l| ==> NumberOk(l[k])
    ensures |v| == |l|
  {
    if l == [] then []
    else
      assert NumberOk(l[0]);
      [NumberValue(l[0])] + Values(l[1..])
  }

  /** The step meant. An empty quoted name means all that stands behind its first quote. */
  ghost function Meant(w: Writing, rest: string): Step
    requires WritingOk(w)
  {
    match w
    case Plain(n) => Member(n)
    case Star => WildcardMember
    case Descent => RecursiveDescent
    case Quoted(n) => Member(if n == "" then "']" + rest else n)
    case QuotedStar => WildcardMember
    case AnyElement => WildcardElement
    case Numbered(n) => Element(NumberValue(n))
    case Listed(l) => ElementList(Values(l))
    case Sliced(a, b, c) => ElementSlice(PartValue(a, 0), PartValue(b, 0), PartValue(c, 1))
  }

  function WriteAll(ws: seq<Writing>): string {
    if ws == [] then "" else Write(ws[0], WriteAll(ws[1..]))
  }

  /** A descent stands in front of a step that is written with a dot. */
  ghost predicate WritingsOk(ws: seq<Writing>) {
    ws != [] ==>
      && WritingOk(ws[0]) && WritingsOk(ws[1..])
      && (ws[0].Descent? ==> |ws| > 1 && (ws[1].Plain? || ws[1].Star? || ws[1].Descent?))
  }

  ghost function MeantAll(ws: seq<Writing>): seq<Step>
    requires WritingsOk(ws)
  {
    if ws == [] then [] else [Meant(ws[0], WriteAll(ws[1..]))] + MeantAll(ws[1..])
  }

  /** t ends in rest, which stands n characters from its start. */
  predicate Behind(t: string, n: nat, rest: string) {
    n <= |t| && t[n..] == rest
  }

  lemma BehindOne(t: string, c: char, w: string)
    requires t == [c] + w
    ensures t != "" && t[0] == c && At(t, 0) == c && t[1..] == w
    ensures forall k: nat :: At(t, 1 + k) == At(w, k)
    ensures forall k: nat :: k <= |w| ==> t[1 + k..] == w[k..]
  {
  }

  lemma HeadTail(t: string)
    requires t != ""
    ensures t == [t[0]] + t[1..]
    ensures forall k: nat :: k < |t| ==> t[1 + k..] == t[1..][k..]
  {
  }

  // ---- numbers ----

  lemma {:induction false} CountAllDigits(s: string, t: string)
    requires forall i :: 0 <= i < |s| ==> IsDigit(s[i])
    requires t == "" || !IsDigit(t[0])
    ensures CountDigits(s + t) == |s|
  {
    if s == "" {
      assert s + t == t;
    } else {
      assert (s + t)[1..] == s[1..] + t;
      CountAllDigits(s[1..], t);
    }
  }

  lemma {:induction false} LeadingSpace(sp: string, t: string)
    requires (forall i :: 0 <= i < |sp| ==> IsSpace(sp[i])) && (t == "" || !IsSpace(t[0]))
    ensures SkipSpace(sp + t) == |sp|
  {
    if sp == "" {
      assert sp + t == t;
    } else {
      assert (sp + t)[1..] == sp[1..] + t;
      LeadingSpace(sp[1..], t);
    }
  }

  lemma {:induction false} SkippedIsSpace(t: string)
    ensures forall i :: 0 <= i < SkipSpace(t) ==> IsSpace(t[i])
  {
    if t != "" && IsSpace(t[0]) {
      SkippedIsSpace(t[1..]);
      assert forall i :: 1 <= i < SkipSpace(t) ==> t[i] == t[1..][i - 1];
    }
  }

  predicate NoDigit(t: string) {
    t == "" || !IsDigit(t[0])
  }

  /** The parts of a number from its sign on. */
  lemma SignPlace(u: string, sign: string, digits: string, more: string)
    requires sign == "" || sign == "+" || sign == "-"
    requires digits != "" && forall i :: 0 <= i < |digits| ==> IsDigit(digits[i])
    requires u == sign + (digits + more)
    ensures u != "" && !IsSpace(u[0])
    ensures (u[0] == '-' <==> sign == "-") && (u[0] == '+' <==> sign == "+")
    ensures Behind(u, |sign|, digits + more)
  {
  }

  lemma DigitsPlace(u: string, digits: string, more: string)
    requires u == digits + more
    ensures |digits| <= |u| && u[..|digits|] == digits && Behind(u, |digits|, more)
  {
  }

  lemma SpacePlace(t: string, space: string, u: string)
    requires t == space + u
    ensures Behind(t, |space|, u)
  {
  }

  /** Reading a written number gives its value, and stops behind it, if it is in range. */
  lemma ReadNumber(t: string, n: Number, more: string)
    requires NumberShape(n) && t == WriteNumber(n, more) && NoDigit(more)
    ensures var k := |n.space| + |n.sign| + |n.digits|;
            Behind(t, k, more) && ReadInt(t) == if NumberOk(n) then Some(Parsed(NumberValue(n), k)) else None
  {
    hide SkipSpace, CountDigits, Decimal, ReadInt, WriteNumber, Behind, IsDigit, IsSpace;
    NumberPlaces(t, n, more);
    NumberScan(t, n, more);
    IntUnfold(t, |n.space|, |n.space| + |n.sign|, |n.digits|);
  }

  lemma NumberScan(t: string, n: Number, more: string)
    requires NumberShape(n) && t == WriteNumber(n, more) && NoDigit(more)
    ensures SkipSpace(t) == |n.space|
    ensures var b := |n.space| + |n.sign|; b <= |t| && CountDigits(t[b..]) == |n.digits|
  {
    hide SkipSpace, CountDigits, WriteNumber, Behind, IsDigit;
    NumberPlaces(t, n, more);
    LeadingSpace(n.space, n.sign + (n.digits + more));
    CountAllDigits(n.digits, more);
  }

  /** Where the parts of a number stand. */
  lemma NumberPlaces(t: string, n: Number, more: string)
    requires NumberShape(n) && t == WriteNumber(n, more)
    ensures var u, d := n.sign + (n.digits + more), n.digits + more;
            var a, b, k := |n.space|, |n.space| + |n.sign|, |n.digits|;
            && t == n.space + u && u != "" && !IsSpace(u[0])
            && (At(t, a) == '-' <==> n.sign == "-") && (At(t, a) == '+' <==> n.sign == "+")
            && b + k <= |t| && t[b..] == d && t[b..b + k] == n.digits && Behind(t, b + k, more)
  {
    hide Behind;
    var u, d := n.sign + (n.digits + more), n.digits + more;
    SignPlace(u, n.sign, n.digits, more);
    SpacePlace(t, n.space, u);
    DigitsPlace(d, n.digits, more);
    ThreePlaces(t, |n.space|, u, |n.sign|, d, |n.digits|, more);
  }

  lemma ThreePlaces(t: string, a: nat, u: string, k: nat, d: string, l: nat, more: string)
    requires Behind(t, a, u) && Behind(u, k, d) && Behind(d, l, more)
    ensures a + k + l <= |t| && t[a + k..] == d && At(t, a) == At(u, 0)
    ensures t[a + k..a + k + l] == d[..l] && Behind(t, a + k + l, more)
  {
    FurtherPlace(t, a, k, u, d);
    FurtherPlace(t, a + k, l, d, more);
  }

  lemma FurtherPlace(t: string, a: nat, k: nat, u: string, v: string)
    requires Behind(t, a, u) && Behind(u, k, v)
    ensures Behind(t, a + k, v) && a + k <= |t| && t[a + k..] == v
    ensures k <= |u| && t[a..a + k] == u[..k] && At(t, a) == At(u, 0)
  {
  }

  lemma IntUnfold(t: string, a: nat, b: nat, k: nat)
    requires SkipSpace(t) == a && b == if At(t, a) == '-' || At(t, a) == '+' then a + 1 else a
    requires b + k <= |t| && CountDigits(t[b..]) == k > 0
    requires var digits := t[b..b + k]; forall i :: 0 <= i < k ==> IsDigit(digits[i])
    ensures var d := Decimal(t[b..b + k]);
            var v: int := if At(t, a) == '-' then 0 - d else d;
            ReadInt(t) == if IsInt(v) then Some(Parsed(v, b + k)) else None
  {
    hide SkipSpace, CountDigits, Decimal, IsInt, IsDigit;
  }

  lemma NumberStart(n: Number, more: string)
    requires NumberShape(n)
    ensures var c := At(WriteNumber(n, more), 0); IsSpace(c) || IsDigit(c) || c == '+' || c == '-'
  {
    var u := n.sign + (n.digits + more);
    SignPlace(u, n.sign, n.digits, more);
    assert WriteNumber(n, more)[0] == if n.space == "" then u[0] else n.space[0];
  }

  /** Where the digits of a number start, behind space and sign. */
  ghost function SignEnd(t: string): nat {
    var a := SkipSpace(t);
    if At(t, a) == '-' || At(t, a) == '+' then a + 1 else a
  }

  lemma HasDigits(t: string)
    requires ReadInt(t).Some?
    ensures SignEnd(t) <= |t| && CountDigits(t[SignEnd(t)..]) > 0
  {
    hide SkipSpace, CountDigits, Decimal;
  }

  lemma SignOf(t: string)
    requires SignEnd(t) <= |t|
    ensures SkipSpace(t) <= SignEnd(t)
    ensures var sign := t[SkipSpace(t)..SignEnd(t)]; sign == "" || sign == "+" || sign == "-"
  {
    hide SkipSpace;
    var a := SkipSpace(t);
    assert SignEnd(t) == a + 1 ==> t[a..a + 1] == [t[a]];
  }

  /** Whatever is read as a number is a written one. */
  lemma NumberOf(t: string) returns (n: Number, more: string)
    requires ReadInt(t).Some?
    ensures NumberOk(n) && t == WriteNumber(n, more) && NoDigit(more)
    ensures ReadInt(t) == Some(Parsed(NumberValue(n), |n.space| + |n.sign| + |n.digits|))
    ensures Behind(t, ReadInt(t).value.used, more)
  {
    hide SkipSpace, CountDigits, Decimal, ReadInt, SignEnd;
    var a, b := SkipSpace(t), SignEnd(t);
    HasDigits(t);
    SkippedIsSpace(t);
    SignOf(t);
    DigitsOf(t, b);
    var c := b + CountDigits(t[b..]);
    Pieces(t, a, b, c);
    n, more := Number(t[..a], t[a..b], t[b..c]), t[c..];
    ReadNumber(t, n, more);
  }

  lemma DigitsOf(t: string, b: nat)
    requires b <= |t|
    ensures var k := CountDigits(t[b..]);
            && b + k <= |t| && NoDigit(t[b + k..])
            && var d := t[b..b + k]; forall i :: 0 <= i < k ==> IsDigit(d[i])
  {
    var k := CountDigits(t[b..]);
    assert forall i :: b <= i < b + k ==> t[i] == t[b..][i - b];
    assert t[b + k..] != "" ==> t[b + k..][0] == t[b..][k];
  }

  lemma Pieces(t: string, a: nat, b: nat, c: nat)
    requires a <= b <= c <= |t|
    ensures t == t[..a] + (t[a..b] + (t[b..c] + t[c..]))
  {
  }

  // ---- names ----

  lemma {:induction false} NameEnds(n: string, t: string)
    requires '.' !in n && '[' !in n && (t == "" || t[0] == '.' || t[0] == '[')
    ensures NameLength(n + t) == |n|
  {
    if n == "" {
      assert n + t == t;
    } else {
      assert (n + t)[1..] == n[1..] + t && n[0] in n;
      NameEnds(n[1..], t);
    }
  }

  lemma {:induction false} NameHasNoMark(t: string)
    ensures var n := t[..NameLength(t)]; '.' !in n && '[' !in n
    ensures NameLength(t) < |t| ==> t[NameLength(t)] == '.' || t[NameLength(t)] == '['
  {
    if t != "" && t[0] != '.' && t[0] != '[' {
      NameHasNoMark(t[1..]);
      assert t[..NameLength(t)] == [t[0]] + t[1..][..NameLength(t[1..])];
    }
  }

  lemma {:induction false} QuoteEnds(n: string, t: string)
    requires FindClose(n).None?
    ensures FindClose(n + ("']" + t)) == Some(|n|)
  {
    var u := n + ("']" + t);
    if n == "" {
      assert u[0] == '\'' && u[1] == ']';
    } else {
      assert u[1..] == n[1..] + ("']" + t);
      assert |n| > 1 ==> u[0] == n[0] && u[1] == n[1];
      assert |n| == 1 ==> u[1] == '\'';
      QuoteEnds(n[1..], t);
    }
  }

  lemma {:induction false} CloseParts(t: string)
    requires FindClose(t).Some?
    ensures var n := FindClose(t).value;
            FindClose(t[..n]).None? && t[n] == '\'' && t[n + 1] == ']'
  {
    var n := FindClose(t).value;
    if n > 0 {
      CloseParts(t[1..]);
      assert t[..n][1..] == t[1..][..n - 1];
    }
  }

  // ---- texts in front of others ----

  predicate EndsIn(t: string, rest: string) {
    |rest| <= |t| && t[|t| - |rest|..] == rest
  }

  lemma EndsInTail(x: string, rest: string)
    ensures EndsIn(x + rest, rest) && |x + rest| == |x| + |rest|
  {
  }

  lemma EndsInTwice(t: string, u: string, rest: string)
    requires EndsIn(t, u) && EndsIn(u, rest)
    ensures EndsIn(t, rest)
  {
    assert t[|t| - |rest|..] == t[|t| - |u|..][|u| - |rest|..];
  }

  lemma NumberEndsIn(n: Number, rest: string)
    ensures var t := WriteNumber(n, rest);
            EndsIn(t, rest) && |t| == |n.space| + |n.sign| + |n.digits| + |rest|
  {
    EndsInTail(n.digits, rest);
    EndsInTail(n.sign, n.digits + rest);
    EndsInTail(n.space, n.sign + (n.digits + rest));
    EndsInTwice(n.sign + (n.digits + rest), n.digits + rest, rest);
    EndsInTwice(WriteNumber(n, rest), n.sign + (n.digits + rest), rest);
  }

  lemma TailEndsIn(c: Option<Number>, rest: string)
    ensures EndsIn(WriteTail(c, rest), rest)
    ensures At(WriteTail(c, rest), 0) == if c.Some? then ':' else ']'
  {
    hide WriteNumber;
    EndsInTail("]", rest);
    if c.Some? {
      var u := WriteNumber(c.value, "]" + rest);
      NumberEndsIn(c.value, "]" + rest);
      EndsInTail(":", u);
      EndsInTwice(u, "]" + rest, rest);
      EndsInTwice(":" + u, u, rest);
    }
  }

  lemma EndEndsIn(b: Option<Number>, c: Option<Number>, rest: string)
    ensures EndsIn(WriteEnd(b, c, rest), rest)
  {
    hide WriteNumber, WriteTail;
    TailEndsIn(c, rest);
    if b.Some? {
      NumberEndsIn(b.value, WriteTail(c, rest));
      EndsInTwice(WriteEnd(b, c, rest), WriteTail(c, rest), rest);
    }
  }

  lemma {:induction false} ListEndsIn(l: seq<Number>, rest: string)
    ensures EndsIn(WriteList(l, rest), rest)
    ensures At(WriteList(l, rest), 0) == if l == [] then ']' else ','
  {
    hide WriteNumber;
    EndsInTail("]", rest);
    if l != [] {
      var v := WriteList(l[1..], rest);
      var u := WriteNumber(l[0], v);
      ListEndsIn(l[1..], rest);
      NumberEndsIn(l[0], v);
      EndsInTail(",", u);
      EndsInTwice(u, v, rest);
      EndsInTwice("," + u, u, rest);
    }
  }

  lemma WriteEndsIn(w: Writing, rest: string)
    ensures EndsIn(Write(w, rest), rest)
  {
    hide WriteNumber, WriteTail, WriteEnd, WriteList;
    var t := Write(w, rest);
    match w {
      case Numbered(n) =>
        NumberEndsIn(n, "]" + rest);
        BracketEndsIn(WriteNumber(n, "]" + rest), "]" + rest, rest);
      case Listed(l) =>
        if l != [] {
          var v := WriteList(l[1..], rest);
          ListEndsIn(l[1..], rest);
          NumberEndsIn(l[0], v);
          BracketEndsIn(WriteNumber(l[0], v), v, rest);
        }
      case Sliced(None, b, c) =>
        EndEndsIn(b, c, rest);
        BracketEndsIn(":" + WriteEnd(b, c, rest), WriteEnd(b, c, rest), rest);
      case Sliced(Some(a), b, c) =>
        EndEndsIn(b, c, rest);
        var v := ":" + WriteEnd(b, c, rest);
        EndsInTwice(v, WriteEnd(b, c, rest), rest);
        NumberEndsIn(a, v);
        BracketEndsIn(WriteNumber(a, v), v, rest);
      case Plain(n) => EndsInTwice(t, n + rest, rest);
      case Quoted(n) =>
        EndsInTwice(n + ("']" + rest), "']" + rest, rest);
        EndsInTwice(t, n + ("']" + rest), rest);
      case _ =>
    }
  }

  lemma BracketEndsIn(u: string, v: string, rest: string)
    requires EndsIn(u, v) && EndsIn(v, rest)
    ensures EndsIn("[" + u, rest)
  {
    EndsInTwice(u, v, rest);
    EndsInTwice("[" + u, u, rest);
  }

  // ---- numbers in their places ----

  /** A number behind one character, in front of something else. */
  lemma NumberBehind(t: string, c: char, n: Number, more: string)
    requires NumberOk(n) && NoDigit(more) && t == [c] + WriteNumber(n, more)
    ensures var k := |t| - 1 - |more|;
            k > 0 && ReadInt(t[1..]) == Some(Parsed(NumberValue(n), k)) && t[1 + k..] == more
    ensures At(t, |t| - |more|) == At(more, 0)
    ensures At(t, 0) == c && (IsSpace(At(t, 1)) || IsDigit(At(t, 1)) || At(t, 1) == '+' || At(t, 1) == '-')
  {
    hide WriteNumber, ReadInt, NumberShape;
    var u := WriteNumber(n, more);
    BehindOne(t, c, u);
    ReadNumber(u, n, more);
    NumberEndsIn(n, more);
    NumberStart(n, more);
  }

  // ---- reading what is written ----

  lemma ReadTail(t: string, base: nat, a: int, b: int, c: Option<Number>, rest: string)
    requires PartOk(c) && t == WriteTail(c, rest)
    ensures ReadSliceTail(t, base, a, b) == Ok(Parsed(ElementSlice(a, b, PartValue(c, 1)), base + (|t| - |rest|)))
  {
    hide ReadInt, WriteNumber, NumberShape;
    if c.Some? {
      assert PartValue(c, 1) == NumberValue(c.value);
      NumberBehind(t, ':', c.value, "]" + rest);
    }
  }

  lemma ReadEnd(t: string, base: nat, a: int, b: Option<Number>, c: Option<Number>, rest: string)
    requires PartOk(b) && PartOk(c) && t == WriteEnd(b, c, rest)
    ensures ReadSliceEnd(t, base, a)
         == Ok(Parsed(ElementSlice(a, PartValue(b, 0), PartValue(c, 1)), base + (|t| - |rest|)))
  {
    hide ReadInt, WriteNumber, WriteTail, ReadSliceTail, NumberShape;
    var u := WriteTail(c, rest);
    TailEndsIn(c, rest);
    if b.Some? {
      NumberStart(b.value, u);
      ReadNumber(t, b.value, u);
      NumberEndsIn(b.value, u);
      ReadTail(u, base + (|t| - |u|), a, NumberValue(b.value), c, rest);
    } else {
      ReadTail(u, base, a, 0, c, rest);
    }
  }

  /** A slice without a start. */
  lemma ReadOpen(t: string, b: Option<Number>, c: Option<Number>, rest: string)
    requires PartOk(b) && PartOk(c) && t == "[" + (":" + WriteEnd(b, c, rest))
    ensures ReadStep(t) == if b.None? && c.None? then Err(BadNumber)
                           else Ok(Parsed(ElementSlice(0, PartValue(b, 0), PartValue(c, 1)), |t| - |rest|))
  {
    hide ReadInt, WriteNumber, WriteTail, WriteEnd, ReadSliceTail, ReadSliceEnd, NumberShape;
    var e := WriteEnd(b, c, rest);
    OpenUnfold(t, e);
    EndStart(b, c, rest);
    if b.None? && c.None? {
      NoNumber(e);
    } else {
      ReadEnd(e, 2, 0, b, c, rest);
    }
  }

  /** Without a start, what follows the colon is read as with one, unless it is the bracket. */
  lemma OpenUnfold(t: string, e: string)
    requires t == "[" + (":" + e)
    ensures At(e, 0) != ']' ==> ReadStep(t) == ReadSliceEnd(e, 2, 0)
    ensures At(e, 0) == ']' && ReadInt(e).None? ==> ReadStep(t) == Err(BadNumber)
  {
    hide ReadInt, ReadSliceTail, ReadSubscript, ReadQuote;
    assert t[2..] == e && At(t, 0) == '[' && At(t, 1) == ':' && At(t, 2) == At(e, 0);
    assert forall n: nat :: n <= |e| ==> t[2 + n..] == e[n..];
  }

  lemma EndStart(b: Option<Number>, c: Option<Number>, rest: string)
    requires PartOk(b)
    ensures At(WriteEnd(b, c, rest), 0) == ']' <==> b.None? && c.None?
    ensures At(WriteEnd(b, c, rest), 0) == ':' <==> b.None? && c.Some?
  {
    hide WriteNumber, NumberShape;
    TailEndsIn(c, rest);
    if b.Some? {
      NumberStart(b.value, WriteTail(c, rest));
    }
  }

  lemma NoNumber(t: string)
    requires t == "" || !(IsSpace(t[0]) || IsDigit(t[0]) || t[0] == '+' || t[0] == '-')
    ensures ReadInt(t).None?
  {
  }

  lemma {:induction false} ReadListed(t: string, base: nat, got: seq<int>, l: seq<Number>, rest: string)
    requires l != [] && (forall k :: 0 <= k < |l| ==> NumberOk(l[k])) && t == WriteList(l, rest)
    ensures At(t, 0) == ','
    ensures ReadList(t, base, got) == Ok(Parsed(ElementList(got + Values(l)), base + (|t| - |rest|)))
    decreases |l|
  {
    hide ReadInt, WriteNumber, NumberShape, WriteList, ReadList, Values;
    var n, u := l[0], WriteList(l[1..], rest);
    assert t == "," + WriteNumber(n, u) by { ListCons(l, rest); }
    ListEndsIn(l[1..], rest);
    NumberBehind(t, ',', n, u);
    ReadListStep(t, base, got, NumberValue(n), |t| - 1 - |u|, u);
    if l[1..] == [] {
      assert u == "]" + rest by { ListCons([], rest); }
    } else {
      ReadListed(u, base + (|t| - |u|), got + [NumberValue(n)], l[1..], rest);
    }
    ValuesCons(got, l);
  }

  lemma ValuesCons(got: seq<int>, l: seq<Number>)
    requires l != [] && forall k :: 0 <= k < |l| ==> NumberOk(l[k])
    ensures NumberOk(l[0]) && got + Values(l) == (got + [NumberValue(l[0])]) + Values(l[1..])
    ensures l[1..] == [] ==> got + Values(l) == got + [NumberValue(l[0])]
  {
    hide NumberShape;
    assert NumberOk(l[0]);
  }

  lemma ListCons(l: seq<Number>, rest: string)
    ensures WriteList(l, rest) == if l == [] then "]" + rest else "," + WriteNumber(l[0], WriteList(l[1..], rest))
  {
  }

  lemma ReadListStep(t: string, base: nat, got: seq<int>, i: int, n: nat, u: string)
    requires At(t, 0) == ',' && ReadInt(t[1..]) == Some(Parsed(i, n)) && u == t[1 + n..]
    ensures At(u, 0) == ',' ==> ReadList(t, base, got) == ReadList(u, base + 1 + n, got + [i])
    ensures At(u, 0) == ']' ==> ReadList(t, base, got) == Ok(Parsed(ElementList(got + [i]), base + n + 2))
    ensures At(u, 0) != ',' && At(u, 0) != ']' ==> ReadList(t, base, got).Err?
  {
    hide ReadInt;
  }

  /** A subscript that starts with a number. */
  lemma ReadFirst(t: string, n: Number, more: string)
    requires NumberOk(n) && NoDigit(more) && t == "[" + WriteNumber(n, more)
    ensures ReadStep(t) == ReadAfterIndex(more, |t| - |more|, NumberValue(n))
  {
    hide ReadInt, WriteNumber, NumberShape, ReadAfterIndex;
    NumberBehind(t, '[', n, more);
  }

  ghost predicate Fits(w: Writing, rest: string) {
    && (w.Plain? ==> rest == "" || rest[0] == '.' || rest[0] == '[')
    && (w.Descent? ==> At(rest, 0) == '.')
  }

  lemma ReadName(w: Writing, rest: string)
    requires WritingOk(w) && Fits(w, rest) && (w.Plain? || w.Quoted?)
    ensures var t := Write(w, rest); ReadStep(t) == Ok(Parsed(Meant(w, rest), |t| - |rest|))
  {
    var n, t := w.name, Write(w, rest);
    if w.Plain? {
      ReadPlain(t, n, rest);
    } else {
      ReadQuoted(t, n, rest);
    }
  }

  lemma ReadPlain(t: string, n: string, rest: string)
    requires DotName(n) && t == "." + (n + rest) && Fits(Plain(n), rest)
    ensures ReadStep(t) == Ok(Parsed(Member(n), |n| + 1))
  {
    BehindOne(t, '.', n + rest);
    assert t[1] == n[0] && n[0] in n;
    NameEnds(n, rest);
    assert t[1..1 + |n|] == n;
  }

  lemma ReadQuoted(t: string, n: string, rest: string)
    requires n != "*" && FindClose(n).None? && t == "['" + (n + ("']" + rest))
    ensures ReadStep(t) == Ok(Parsed(Member(if n == "" then "']" + rest else n), |n| + 4))
  {
    var u := n + ("']" + rest);
    QuoteUnfold(t, u);
    QuoteEnds(n, rest);
    NotStar(n, u, rest);
    assert u[..|n|] == n;
  }

  lemma QuoteUnfold(t: string, u: string)
    requires t == ['[', '\''] + u
    ensures ReadStep(t) == if u != "" && u[0] == '*' && At(u, 1) == '\'' && At(u, 2) == ']' then Ok(Parsed(WildcardMember, 5))
                           else match FindClose(u)
                                case None => Err(UnterminatedQuote)
                                case Some(n) => Ok(Parsed(Member(if n == 0 then u else u[..n]), n + 4))
  {
    assert t[2..] == u;
    assert forall n: nat :: n <= |u| ==> t[2..2 + n] == u[..n];
  }

  /** Only the name `*` looks like a wildcard in quotes. */
  lemma NotStar(n: string, u: string, rest: string)
    requires n != "*" && FindClose(n).None? && u == n + ("']" + rest)
    ensures !(u != "" && u[0] == '*' && At(u, 1) == '\'' && At(u, 2) == ']')
  {
    if |n| == 1 {
      assert n == [u[0]];
    } else if |n| == 2 {
      assert u[2] == '\'';
    } else if |n| > 2 {
      assert FindClose(n[1..]).None?;
      assert n[1..][0] == u[1] && n[1..][1] == u[2];
    }
  }

  lemma ReadNumeric(w: Writing, rest: string)
    requires WritingOk(w) && (w.Numbered? || w.Listed? || w.Sliced?)
    ensures var t := Write(w, rest); ReadStep(t) == Ok(Parsed(Meant(w, rest), |t| - |rest|))
  {
    hide ReadStep, WriteNumber, NumberShape, WriteList, ReadList, WriteEnd, ReadSliceEnd;
    var t := Write(w, rest);
    match w {
      case Numbered(n) =>
        ReadFirst(t, n, "]" + rest);
        NumberEndsIn(n, "]" + rest);
      case Listed(l) =>
        var u := WriteList(l[1..], rest);
        ListEndsIn(l[1..], rest);
        NumberEndsIn(l[0], u);
        ReadFirst(t, l[0], u);
        ReadListed(u, |t| - |u|, [NumberValue(l[0])], l[1..], rest);
        assert Values(l) == [NumberValue(l[0])] + Values(l[1..]);
      case Sliced(None, b, c) =>
        ReadOpen(t, b, c, rest);
      case Sliced(Some(a), b, c) =>
        var e := WriteEnd(b, c, rest);
        EndEndsIn(b, c, rest);
        NumberEndsIn(a, ":" + e);
        ReadFirst(t, a, ":" + e);
        BehindOne(":" + e, ':', e);
        ReadEnd(e, |t| - |e|, NumberValue(a), b, c, rest);
    }
  }

  lemma ReadFixed(w: Writing, rest: string)
    requires Fits(w, rest) && (w.Star? || w.Descent? || w.QuotedStar? || w.AnyElement?)
    ensures var t := Write(w, rest); ReadStep(t) == Ok(Parsed(Meant(w, rest), |t| - |rest|))
  {
    hide ReadQuote, ReadSubscript, ReadOpenSlice, NameLength;
    var t := Write(w, rest);
    match w {
      case Descent => assert At(t, 1) == At(rest, 0);
      case QuotedStar => QuoteUnfold(t, "*']" + rest);
      case _ =>
    }
  }

  /** Every writing of a step is read as the step it means, up to what follows it. */
  lemma ReadWriting(w: Writing, rest: string)
    requires WritingOk(w) && Fits(w, rest)
    ensures var t := Write(w, rest); ReadStep(t) == Ok(Parsed(Meant(w, rest), |t| - |rest|))
  {
    hide ReadStep, Write, Meant, WritingOk, Fits;
    if w.Plain? || w.Quoted? {
      ReadName(w, rest);
    } else if w.Numbered? || w.Listed? || w.Sliced? {
      ReadNumeric(w, rest);
    } else {
      ReadFixed(w, rest);
    }
  }

  // ---- whatever is read is written so ----

  /** The rest of a slice, from where its step may stand. */
  lemma TailOf(t: string, base: nat, a: int, b: int) returns (c: Option<Number>, rest: string)
    requires ReadSliceTail(t, base, a, b).Ok?
    ensures PartOk(c) && t == WriteTail(c, rest)
  {
    hide ReadInt, WriteNumber, NumberShape;
    HeadTail(t);
    if t[0] == ':' {
      var n, more := NumberOf(t[1..]);
      CharBehind(t, ReadInt(t[1..]).value.used, more);
      HeadTail(more);
      return Some(n), more[1..];
    }
    return None, t[1..];
  }

  /** A character some way behind the first, and the text it starts. */
  lemma CharBehind(t: string, n: nat, more: string)
    requires t != "" && Behind(t[1..], n, more)
    ensures At(t, 1 + n) == At(more, 0) && t[1 + n..] == more
  {
  }

  lemma EndOf(t: string, base: nat, a: int) returns (b: Option<Number>, c: Option<Number>, rest: string)
    requires ReadSliceEnd(t, base, a).Ok?
    ensures PartOk(b) && PartOk(c) && t == WriteEnd(b, c, rest)
  {
    hide ReadInt, WriteNumber, WriteTail, ReadSliceTail, NumberShape;
    b := None;
    if At(t, 0) == ']' || At(t, 0) == ':' {
      c, rest := TailOf(t, base, a, 0);
    } else {
      var n, more := NumberOf(t);
      b := Some(n);
      c, rest := TailOf(more, base + ReadInt(t).value.used, a, ReadInt(t).value.value);
    }
  }

  lemma {:induction false} ListedOf(t: string, base: nat, got: seq<int>) returns (l: seq<Number>, rest: string)
    requires At(t, 0) == ',' && ReadList(t, base, got).Ok?
    ensures l != [] && (forall k :: 0 <= k < |l| ==> NumberOk(l[k])) && t == WriteList(l, rest)
    decreases |t|
  {
    hide ReadInt, WriteNumber, NumberShape, ReadList, WriteList;
    HeadTail(t);
    assert ReadInt(t[1..]).Some? by { ListNumber(t, base, got); }
    var n, more := NumberOf(t[1..]);
    var k := ReadInt(t[1..]).value.used;
    CharBehind(t, k, more);
    ReadListStep(t, base, got, NumberValue(n), k, more);
    var ns: seq<Number>;
    if At(more, 0) == ',' {
      ns, rest := ListedOf(more, base + 1 + k, got + [NumberValue(n)]);
    } else {
      HeadTail(more);
      ns, rest := [], more[1..];
    }
    l := [n] + ns;
    ListCons(ns, rest);
    ListCons(l, rest);
    assert l[1..] == ns;
  }

  lemma ListNumber(t: string, base: nat, got: seq<int>)
    requires At(t, 0) == ',' && ReadList(t, base, got).Ok?
    ensures ReadInt(t[1..]).Some?
  {
    hide ReadInt;
  }

  /** A subscript that starts with a number. */
  lemma SubscriptOf(t: string) returns (w: Writing, rest: string)
    requires At(t, 0) == '[' && ReadSubscript(t).Ok?
    ensures WritingOk(w) && t == Write(w, rest) && !w.Descent? && !w.Plain?
  {
    hide ReadInt, WriteNumber, NumberShape, ReadList, WriteList, WriteEnd, ReadSliceEnd;
    HeadTail(t);
    var n, more := NumberOf(t[1..]);
    var k := ReadInt(t[1..]).value.used;
    CharBehind(t, k, more);
    HeadTail(more);
    if more[0] == ',' {
      var l;
      l, rest := ListedOf(more, 1 + k, [NumberValue(n)]);
      w := Listed([n] + l);
      assert ([n] + l)[1..] == l;
    } else if more[0] == ':' {
      var b, c;
      b, c, rest := EndOf(more[1..], 1 + k + 1, NumberValue(n));
      w := Sliced(Some(n), b, c);
    } else {
      w, rest := Numbered(n), more[1..];
    }
  }

  lemma OpenSliceOf(t: string) returns (w: Writing, rest: string)
    requires At(t, 0) == '[' && At(t, 1) == ':' && ReadStep(t).Ok?
    ensures WritingOk(w) && t == Write(w, rest) && w.Sliced?
  {
    hide ReadInt, WriteNumber, NumberShape, WriteEnd, ReadSliceEnd, ReadStep;
    var e := t[2..];
    assert t == "[" + (":" + e);
    OpenUnfold(t, e);
    if At(e, 0) == ']' {
      NoNumber(e);
      assert false;
    } else {
      var b, c;
      b, c, rest := EndOf(e, 2, 0);
      EndStart(b, c, rest);
      w := Sliced(None, b, c);
    }
  }

  lemma QuoteOf(t: string) returns (w: Writing, rest: string)
    requires At(t, 0) == '[' && At(t, 1) == '\'' && ReadStep(t).Ok?
    ensures WritingOk(w) && t == Write(w, rest) && !w.Descent? && !w.Plain?
  {
    hide ReadStep, FindClose;
    var u := t[2..];
    assert t == ['[', '\''] + u;
    QuoteUnfold(t, u);
    if u != "" && u[0] == '*' && At(u, 1) == '\'' && At(u, 2) == ']' {
      AroundStar(u);
      w, rest := QuotedStar, u[3..];
    } else {
      var n := FindClose(u).value;
      CloseParts(u);
      AroundClose(u, n);
      w, rest := Quoted(u[..n]), u[n + 2..];
    }
  }

  lemma AroundStar(u: string)
    requires u != "" && u[0] == '*' && At(u, 1) == '\'' && At(u, 2) == ']'
    ensures |u| >= 3 && ['[', '\''] + u == "['*']" + u[3..]
  {
  }

  lemma AroundClose(u: string, n: nat)
    requires n + 1 < |u| && u[n] == '\'' && u[n + 1] == ']'
    ensures u == u[..n] + ("']" + u[n + 2..])
    ensures u[..n] == "*" ==> u[0] == '*' && At(u, 1) == '\'' && At(u, 2) == ']'
  {
  }

  lemma DotOf(t: string) returns (w: Writing, rest: string)
    requires At(t, 0) == '.' && ReadStep(t).Ok?
    ensures WritingOk(w) && t == Write(w, rest) && Fits(w, rest) && (w.Descent? || w.Star? || w.Plain?)
  {
    if At(t, 1) == '.' {
      w, rest := Descent, t[1..];
    } else if At(t, 1) == '*' {
      w, rest := Star, t[2..];
      assert t == ".*" + t[2..];
    } else {
      var u := t[1..];
      var n := NameLength(u);
      NameHasNoMark(u);
      w, rest := Plain(u[..n]), u[n..];
      assert t == "." + (u[..n] + u[n..]) && n > 0 && u[..n][0] == u[0];
    }
  }

  /** Whatever is read as a step is a writing of one. */
  lemma StepOf(t: string) returns (w: Writing, rest: string)
    requires t != "" && ReadStep(t).Ok?
    ensures WritingOk(w) && Fits(w, rest) && t == Write(w, rest)
    ensures (t[0] == '.' <==> w.Plain? || w.Star? || w.Descent?)
  {
    if t[0] == '.' {
      w, rest := DotOf(t);
    } else if At(t, 1) == '\'' {
      w, rest := QuoteOf(t);
    } else if At(t, 1) == ':' {
      w, rest := OpenSliceOf(t);
    } else if At(t, 1) == '*' && At(t, 2) == ']' {
      w, rest := AnyElement, t[3..];
      assert t == "[*]" + t[3..];
    } else {
      w, rest := SubscriptOf(t);
    }
  }

  // ---- whole paths ----

  lemma NoSteps()
    ensures ReadSteps("") == Ok([])
  {
  }

  lemma UnfoldSteps(t: string, n: nat, rest: string, s: Step)
    requires t != "" && ReadStep(t) == Ok(Parsed(s, n)) && n <= |t| && t[n..] == rest
    ensures ReadSteps(t) == match ReadSteps(rest) case Err(e) => Err(e) case Ok(ss) => Ok([s] + ss)
  {
    hide ReadStep;
  }

  lemma NextFits(ws: seq<Writing>)
    requires WritingsOk(ws) && ws != []
    ensures Fits(ws[0], WriteAll(ws[1..]))
  {
    hide WriteNumber, WriteList, WriteEnd;
    if |ws| > 1 {
      assert ws[1..][0] == ws[1];
      assert WritingOk(ws[1]);
    }
  }

  /** A path text means the steps its writings mean. */
  lemma {:induction false} ReadAllWritings(ws: seq<Writing>)
    requires WritingsOk(ws)
    ensures ReadSteps(WriteAll(ws)) == Ok(MeantAll(ws))
    decreases |ws|
  {
    hide ReadStep, ReadSteps, Write, WritingOk, Meant;
    if ws == [] {
      NoSteps();
    } else {
      var rest := WriteAll(ws[1..]);
      var t := Write(ws[0], rest);
      NextFits(ws);
      ReadWriting(ws[0], rest);
      WriteEndsIn(ws[0], rest);
      ReadAllWritings(ws[1..]);
      UnfoldSteps(t, |t| - |rest|, rest, Meant(ws[0], rest));
    }
  }

  /** Only texts made of writings are read. */
  lemma {:induction false} WritingsOf(t: string) returns (ws: seq<Writing>)
    requires ReadSteps(t).Ok?
    ensures WritingsOk(ws) && t == WriteAll(ws)
    decreases |t|
  {
    hide ReadStep, Write, WritingOk, Meant;
    if t == "" {
      ws := [];
    } else {
      var w, rest := StepOf(t);
      ReadWriting(w, rest);
      WriteEndsIn(w, rest);
      UnfoldSteps(t, |t| - |rest|, rest, Meant(w, rest));
      var more := WritingsOf(rest);
      ws := [w] + more;
      assert ws[1..] == more;
      if w.Descent? {
        DescentNext(rest, more);
      }
    }
  }

  lemma DescentNext(rest: string, more: seq<Writing>)
    requires WritingsOk(more) && rest == WriteAll(more) && At(rest, 0) == '.'
    ensures more != [] && (more[0].Plain? || more[0].Star? || more[0].Descent?)
  {
    hide WriteNumber, WriteList, WriteEnd;
  }

  // ---- what is refused ----

  /** Writings in front of some other text. */
  function WriteBefore(ws: seq<Writing>, t: string): string {
    if ws == [] then t else Write(ws[0], WriteBefore(ws[1..], t))
  }

  ghost predicate FitBefore(ws: seq<Writing>, t: string) {
    ws != [] ==> WritingOk(ws[0]) && Fits(ws[0], WriteBefore(ws[1..], t)) && FitBefore(ws[1..], t)
  }

  /** A path is refused for the first of its steps that cannot be read. */
  lemma {:induction false} FirstError(ws: seq<Writing>, t: string, e: PathError)
    requires FitBefore(ws, t) && t != "" && ReadStep(t) == Err(e)
    ensures ReadSteps(WriteBefore(ws, t)) == Err(e)
    decreases |ws|
  {
    hide ReadStep, Write, WritingOk, Meant, Fits;
    if ws != [] {
      var rest := WriteBefore(ws[1..], t);
      var u := Write(ws[0], rest);
      FirstError(ws[1..], t, e);
      ReadWriting(ws[0], rest);
      WriteEndsIn(ws[0], rest);
      UnfoldSteps(u, |u| - |rest|, rest, Meant(ws[0], rest));
    }
  }

  /** A second root, a dot without a name, a quoted name without its end, a bracket without a
      number, and any other character are refused as such. */
  lemma StepErrors(t: string)
    requires t != ""
    ensures t[0] == '$' ==> ReadStep(t) == Err(SecondRoot)
    ensures t[0] == '.' && (|t| == 1 || t[1] == '[') ==> ReadStep(t) == Err(MissingMember)
    ensures At(t, 0) == '[' && At(t, 1) == '\'' && (forall i :: 2 <= i < |t| - 1 && t[i] == '\'' ==> t[i + 1] != ']')
            ==> ReadStep(t) == Err(UnterminatedQuote)
    ensures At(t, 0) == '[' && (|t| == 1 || t[1] == ']' || t[1] == ',') ==> ReadStep(t) == Err(BadNumber)
    ensures t[0] != '$' && t[0] != '.' && t[0] != '[' ==> ReadStep(t) == Err(UnexpectedCharacter)
  {
    hide ReadSliceTail, ReadList;
    if At(t, 0) == '[' && At(t, 1) == '\'' {
      if FindClose(t[2..]).Some? {
        CloseParts(t[2..]);
        var n := FindClose(t[2..]).value;
        assert t[2 + n] == '\'' && t[3 + n] == ']';
      }
    } else if |t| > 1 {
      assert t[1..][0] == t[1];
    }
  }

  /** What a path compiles to whose text behind the root is t, with any space in front. */
  lemma CompileUnfold(sp: string, t: string)
    requires forall i :: 0 <= i < |sp| ==> IsSpace(sp[i])
    ensures Compiled(sp + "$" + t) ==
            if At(t, 0) != '.' && At(t, 0) != '[' then Err(MissingRoot)
            else match ReadSteps(t) case Err(e) => Err(e) case Ok(steps) => Ok([Root] + steps)
  {
    hide ReadSteps, SkipSpace;
    var path := sp + "$" + t;
    assert path == sp + ("$" + t);
    LeadingSpace(sp, "$" + t);
    assert path[|sp|] == '$' && path[|sp| + 1..] == t;
    assert At(path, |sp| + 1) == At(t, 0);
  }

  lemma RootPlace(path: string)
    requires Compiled(path).Ok?
    ensures var p := SkipSpace(path);
            p + 1 < |path| && path[p] == '$' && ReadSteps(path[p + 1..]).Ok?
  {
    hide ReadSteps, SkipSpace;
  }

  lemma AroundRoot(path: string, p: nat)
    requires p < |path| && path[p] == '$'
    ensures path == path[..p] + "$" + path[p + 1..]
  {
  }

  lemma FirstChar(ws: seq<Writing>)
    requires ws != []
    ensures At(WriteAll(ws), 0) == '.' || At(WriteAll(ws), 0) == '['
  {
    hide WriteNumber, WriteList, WriteEnd;
  }

  /** The compiler's language: a path compiles to these steps if and only if it is space, the
      root, and one or more writings of the steps behind it. */
  lemma CompiledIff(path: string, ss: seq<Step>)
    ensures Compiled(path) == Ok(ss) <==>
            exists sp: string, ws: seq<Writing> ::
              (forall i :: 0 <= i < |sp| ==> IsSpace(sp[i])) && ws != [] && WritingsOk(ws)
              && path == sp + "$" + WriteAll(ws) && ss == [Root] + MeantAll(ws)
  {
    hide ReadSteps, SkipSpace, Compiled, WriteAll, WritingsOk, MeantAll;
    if Compiled(path) == Ok(ss) {
      var p := SkipSpace(path);
      RootPlace(path);
      AroundRoot(path, p);
      SkippedIsSpace(path);
      var ws := WritingsOf(path[p + 1..]);
      assert ws != [] by { NothingWritten(ws); }
      ReadAllWritings(ws);
      FirstChar(ws);
      CompileUnfold(path[..p], WriteAll(ws));
    }
    if sp: string, ws: seq<Writing> :|
         (forall i :: 0 <= i < |sp| ==> IsSpace(sp[i])) && ws != [] && WritingsOk(ws)
         && path == sp + "$" + WriteAll(ws) && ss == [Root] + MeantAll(ws) {
      ReadAllWritings(ws);
      FirstChar(ws);
      CompileUnfold(sp, WriteAll(ws));
    }
  }

  lemma NothingWritten(ws: seq<Writing>)
    ensures ws == [] ==> WriteAll(ws) == ""
  {
  }
}
