/** Which step lists paths denote, and the canonical way to write one down: compiling what was
    written gives it back. */
module JsonPathMeaning {
  import opened Common
  import opened JsonPathSpec
  import opened JsonPathTexts

  // ---- numbers ----

  function Digit(d: nat): char
    requires d < 10
  {
    "0123456789"[d]
  }

  function Digits(n: nat): (s: string)
    ensures s != "" && forall i :: 0 <= i < |s| ==> IsDigit(s[i])
  {
    if n < 10 then [Digit(n)] else Digits(n / 10) + [Digit(n % 10)]
  }

  lemma {:induction false} DecimalOfDigits(n: nat)
    ensures Decimal(Digits(n)) == n
  {
    if n >= 10 {
      DecimalOfDigits(n / 10);
    } else {
      assert Digits(n)[..0] == "";
      assert Decimal("") == 0;
    }
  }

  /** An integer without space or plus sign. */
  function Numeral(v: int): Number {
    Number("", if v < 0 then "-" else "", Digits(if v < 0 then -v else v))
  }

  lemma NumeralIs(v: int)
    ensures NumberShape(Numeral(v)) && NumberValue(Numeral(v)) == v
  {
    DecimalOfDigits(if v < 0 then -v else v);
  }

  /** Reading a written integer gives it back if it is an int, and fails if it is not. */
  lemma ReadIntText(v: int, t: string)
    requires t == "" || !IsDigit(t[0])
    ensures var u := WriteNumber(Numeral(v), t);
            ReadInt(u) == if -0x8000_0000 <= v < 0x8000_0000 then Some(Parsed(v, |u| - |t|)) else None
  {
    hide ReadInt, WriteNumber, Decimal;
    NumeralIs(v);
    ReadNumber(WriteNumber(Numeral(v), t), Numeral(v), t);
    NumberEndsIn(Numeral(v), t);
  }

  function Numerals(l: seq<int>): (ns: seq<Number>)
    ensures |ns| == |l|
  {
    if l == [] then [] else [Numeral(l[0])] + Numerals(l[1..])
  }

  lemma {:induction false} NumeralsAre(l: seq<int>)
    requires forall k :: 0 <= k < |l| ==> IsInt(l[k])
    ensures forall k :: 0 <= k < |l| ==> NumberOk(Numerals(l)[k])
    ensures Values(Numerals(l)) == l
  {
    if l != [] {
      hide NumberShape, Numeral, Values;
      NumeralIs(l[0]);
      NumeralsAre(l[1..]);
      var ns := Numerals(l[1..]);
      assert Numerals(l) == [Numeral(l[0])] + ns;
      OneMore(Numeral(l[0]), ns);
      assert l == [l[0]] + l[1..];
    }
  }

  lemma OneMore(n: Number, ns: seq<Number>)
    requires NumberOk(n) && forall k :: 0 <= k < |ns| ==> NumberOk(ns[k])
    ensures var l := [n] + ns;
            (forall k :: 0 <= k < |l| ==> NumberOk(l[k])) && Values(l) == [NumberValue(n)] + Values(ns)
  {
    hide NumberOk, NumberShape;
    var l := [n] + ns;
    assert l[1..] == ns;
    forall k | 0 <= k < |l| ensures NumberOk(l[k]) {
      assert k > 0 ==> l[k] == ns[k - 1];
    }
  }

  // ---- steps ----

  /** A name that can stand in quotes. */
  ghost predicate QuoteName(n: string) {
    n != "" && n != "*" && FindClose(n).None?
  }

  /** Steps that a path can denote on their own. */
  ghost predicate StepOk(s: Step) {
    match s
    case Root => false
    case Member(n) => DotName(n) || QuoteName(n)
    case Element(i) => IsInt(i)
    case ElementList(l) => |l| >= 2 && forall k :: 0 <= k < |l| ==> IsInt(l[k])
    case ElementSlice(a, b, c) => IsInt(a) && IsInt(b) && IsInt(c)
    case _ => true
  }

  /** Steps whose text starts with a dot. */
  ghost predicate Dotted(s: Step) {
    s.RecursiveDescent? || s.WildcardMember? || (s.Member? && DotName(s.name))
  }

  /** A recursive descent is followed by a dotted step. */
  ghost predicate StepsOk(ss: seq<Step>) {
    && (forall i :: 0 <= i < |ss| ==> StepOk(ss[i]))
    && (forall i :: 0 <= i < |ss| && ss[i].RecursiveDescent? ==> i + 1 < |ss| && Dotted(ss[i + 1]))
  }

  /** The canonical way to write a step: names behind a dot where they allow it, slices in
      full. */
  ghost function Canonical(s: Step): Writing
    requires !s.Root?
  {
    match s
    case Member(n) => if DotName(n) then Plain(n) else Quoted(n)
    case WildcardMember => Star
    case RecursiveDescent => Descent
    case Element(i) => Numbered(Numeral(i))
    case WildcardElement => AnyElement
    case ElementList(l) => Listed(Numerals(l))
    case ElementSlice(a, b, c) => Sliced(Some(Numeral(a)), Some(Numeral(b)), Some(Numeral(c)))
  }

  ghost function StepText(s: Step, rest: string): (t: string)
    ensures |t| > |rest|
  {
    if s.Root? then "$" + rest else Write(Canonical(s), rest)
  }

  ghost function StepsText(ss: seq<Step>): string {
    if ss == [] then "" else StepText(ss[0], StepsText(ss[1..]))
  }

  lemma CanonicalOk(s: Step, rest: string)
    requires StepOk(s)
    ensures WritingOk(Canonical(s)) && Meant(Canonical(s), rest) == s
    ensures Dotted(s) <==> Canonical(s).Plain? || Canonical(s).Star? || Canonical(s).Descent?
  {
    hide NumberShape, Numeral;
    match s {
      case Element(i) => NumeralIs(i);
      case ElementList(l) => NumeralsAre(l);
      case ElementSlice(a, b, c) =>
        NumeralIs(a);
        NumeralIs(b);
        NumeralIs(c);
      case _ =>
    }
  }

  ghost predicate Follows(s: Step, rest: string) {
    if s.RecursiveDescent? then At(rest, 0) == '.'
    else rest == "" || rest[0] == '.' || rest[0] == '['
  }

  /** Reading the canonical text of a step gives the step and stops behind it. */
  lemma ReadStepText(s: Step, rest: string)
    requires StepOk(s) && Follows(s, rest)
    ensures var t := StepText(s, rest);
            ReadStep(t) == Ok(Parsed(s, |t| - |rest|)) && t[|t| - |rest|..] == rest
  {
    hide ReadStep, Write, Meant, WritingOk;
    CanonicalOk(s, rest);
    ReadWriting(Canonical(s), rest);
    WriteEndsIn(Canonical(s), rest);
  }

  // ---- whole paths ----

  lemma StepsOkUnfold(ss: seq<Step>)
    ensures StepsOk(ss) <==>
            ss == [] || (StepOk(ss[0]) && StepsOk(ss[1..])
                         && (ss[0].RecursiveDescent? ==> |ss| > 1 && Dotted(ss[1])))
    ensures StepsOk(ss) && |ss| > 1 ==> StepOk(ss[1])
  {
    if ss != [] {
      var r := ss[1..];
      assert forall i :: 1 <= i < |ss| ==> ss[i] == r[i - 1];
      assert forall i :: 0 <= i < |r| ==> r[i] == ss[i + 1];
    }
  }

  /** Steps whose text is not the root. */
  lemma TextOfSteps(ss: seq<Step>)
    requires ss != [] && !ss[0].Root?
    ensures At(StepsText(ss), 0) == if Dotted(ss[0]) then '.' else '['
  {
    hide WriteNumber, WriteList, WriteEnd, Numeral, Numerals;
  }

  lemma RestFollows(ss: seq<Step>)
    requires ss != [] && (|ss| > 1 ==> !ss[1].Root?)
    requires ss[0].RecursiveDescent? ==> |ss| > 1 && Dotted(ss[1])
    ensures Follows(ss[0], StepsText(ss[1..]))
  {
    hide StepText, Dotted;
    if ss[1..] != [] {
      assert ss[1..][0] == ss[1];
      TextOfSteps(ss[1..]);
    }
  }

  lemma {:induction false} ReadStepsText(ss: seq<Step>)
    requires StepsOk(ss)
    ensures ReadSteps(StepsText(ss)) == Ok(ss)
    decreases |ss|
  {
    hide StepText, ReadStep, ReadSteps, StepsOk, Follows, Dotted;
    StepsOkUnfold(ss);
    if ss == [] {
      NoSteps();
    } else {
      var rest := StepsText(ss[1..]);
      var t := StepText(ss[0], rest);
      ReadStepsText(ss[1..]);
      RestFollows(ss);
      ReadStepText(ss[0], rest);
      UnfoldSteps(t, |t| - |rest|, rest, ss[0]);
      assert ss == [ss[0]] + ss[1..];
    }
  }

  /** Compiling the canonical text of a well-formed list of steps, with any space in front,
      gives the root followed by exactly that list. */
  lemma CompileText(sp: string, ss: seq<Step>)
    requires forall i :: 0 <= i < |sp| ==> IsSpace(sp[i])
    requires StepsOk(ss) && ss != []
    ensures Compiled(sp + "$" + StepsText(ss)) == Ok([Root] + ss)
  {
    hide ReadSteps, StepsText, Compiled;
    StepsOkUnfold(ss);
    TextOfSteps(ss);
    ReadStepsText(ss);
    CompileUnfold(sp, StepsText(ss));
  }

  // ---- every compiled path ----

  /** The one way a compiled step can lie outside the grammar is an empty quoted name, which is
      taken to be the rest of the path. It contains the closing `']`, and may not fit a dot. */
  ghost predicate CleanName(s: Step) {
    s.Member? ==> DotName(s.name) || FindClose(s.name).None?
  }

  lemma MeantOk(w: Writing, rest: string)
    requires WritingOk(w)
    ensures var s := Meant(w, rest);
            && !s.Root? && (CleanName(s) ==> StepOk(s)) && (s.RecursiveDescent? <==> w.Descent?)
            && (w.Plain? || w.Star? || w.Descent? ==> Dotted(s))
  {
    match w {
      case Numbered(n) => assert IsInt(NumberValue(n));
      case Listed(l) => ValuesAreInts(l);
      case Quoted(n) => assert n == "" ==> FindClose("']" + rest) == Some(0);
      case _ =>
    }
  }

  lemma {:induction false} ValuesAreInts(l: seq<Number>)
    requires forall k :: 0 <= k < |l| ==> NumberOk(l[k])
    ensures forall k :: 0 <= k < |l| ==> IsInt(Values(l)[k])
  {
    if l != [] {
      hide NumberShape;
      assert NumberOk(l[0]);
      ValuesAreInts(l[1..]);
      assert forall k :: 1 <= k < |l| ==> Values(l)[k] == Values(l[1..])[k - 1];
    }
  }

  lemma {:induction false} MeantAllOk(ws: seq<Writing>)
    requires WritingsOk(ws)
    ensures var ss := MeantAll(ws);
            && |ss| == |ws|
            && (forall i :: 0 <= i < |ss| ==> !ss[i].Root? && (CleanName(ss[i]) ==> StepOk(ss[i])))
            && (forall i :: 0 <= i < |ss| && ss[i].RecursiveDescent? ==> i + 1 < |ss| && Dotted(ss[i + 1]))
            && (ws != [] && (ws[0].Plain? || ws[0].Star? || ws[0].Descent?) ==> Dotted(ss[0]))
  {
    if ws != [] {
      hide Meant, WritingOk, Write, StepOk, Dotted, CleanName;
      var s, more := Meant(ws[0], WriteAll(ws[1..])), MeantAll(ws[1..]);
      MeantOk(ws[0], WriteAll(ws[1..]));
      MeantAllOk(ws[1..]);
      assert MeantAll(ws) == [s] + more;
      assert |ws| > 1 ==> ws[1..][0] == ws[1];
      assert forall i :: 1 <= i < |ws| ==> ([s] + more)[i] == more[i - 1];
    }
  }

  lemma ReadStepsOk(t: string)
    requires ReadSteps(t).Ok?
    ensures var ss := ReadSteps(t).value;
            && (forall i :: 0 <= i < |ss| ==> !ss[i].Root? && (CleanName(ss[i]) ==> StepOk(ss[i])))
            && (forall i :: 0 <= i < |ss| && ss[i].RecursiveDescent? ==> i + 1 < |ss| && Dotted(ss[i + 1]))
  {
    hide ReadSteps, WritingsOk, MeantAll, WriteAll, StepOk, Dotted, CleanName;
    var ws := WritingsOf(t);
    ReadAllWritings(ws);
    MeantAllOk(ws);
  }

  /** The shape of every compiled path: the root comes first and only there, and a recursive
      descent is followed by a member, a wildcard member or another descent. If no quoted name
      was empty, the rest is a well-formed list. */
  lemma CompiledShape(path: string)
    requires Compiled(path).Ok?
    ensures var ss := Compiled(path).value;
            && |ss| >= 2 && ss[0] == Root
            && (forall i :: 1 <= i < |ss| ==> !ss[i].Root?)
            && (forall i :: 0 <= i < |ss| && ss[i].RecursiveDescent? ==>
                  i + 1 < |ss| && (ss[i + 1].Member? || ss[i + 1].WildcardMember? || ss[i + 1].RecursiveDescent?))
            && ((forall i :: 1 <= i < |ss| ==> CleanName(ss[i])) ==> StepsOk(ss[1..]))
  {
    hide Compiled, ReadSteps, StepOk, CleanName, WriteAll, WritingsOk, MeantAll;
    var ss := Compiled(path).value;
    CompiledIff(path, ss);
    var sp: string, ws: seq<Writing> :|
      (forall i :: 0 <= i < |sp| ==> IsSpace(sp[i])) && ws != [] && WritingsOk(ws)
      && path == sp + "$" + WriteAll(ws) && ss == [Root] + MeantAll(ws);
    MeantAllOk(ws);
    var more := MeantAll(ws);
    assert forall i :: 1 <= i < |ss| ==> ss[i] == more[i - 1];
    assert ss[1..] == more;
  }

  lemma {:induction false} ClosesEarly(n: string, t: string)
    requires FindClose(n).Some?
    ensures FindClose(n + t) == FindClose(n)
  {
    var u := n + t;
    assert u[0] == n[0] && u[1] == n[1];
    if !(n[0] == '\'' && n[1] == ']') {
      assert u[1..] == n[1..] + t;
      ClosesEarly(n[1..], t);
    }
  }

  /** A quoted name with the closing mark inside is not read as itself. */
  lemma ClosedEarly(n: string, rest: string)
    requires FindClose(n).Some?
    ensures var r := ReadStep(Write(Quoted(n), rest)); r.Ok? ==> r.value.value != Member(n)
  {
    hide ReadStep, FindClose;
    var u := n + ("']" + rest);
    ClosesEarly(n, "']" + rest);
    QuoteUnfold(Write(Quoted(n), rest), u);
    var k := FindClose(n).value;
    assert |u| > |n| && |u[..k]| < |n|;
  }

  /** Only a well-formed list is read back from its own text. */
  lemma {:induction false} OnlyWellFormed(ss: seq<Step>)
    requires ReadSteps(StepsText(ss)) == Ok(ss)
    ensures StepsOk(ss)
  {
    hide StepText, ReadStep, StepOk, Dotted, CleanName, Follows, StepsOk;
    StepsOkUnfold(ss);
    if ss != [] {
      var t, rest := StepsText(ss), StepsText(ss[1..]);
      var Parsed(s, n) := ReadStep(t).value;
      ReadStepsOk(t);
      assert s == ss[0] && ReadSteps(t[n..]) == Ok(ss[1..]);
      if !CleanName(s) {
        UncleanMisread(s, rest);
        assert false;
      } else {
        RestFollows(ss);
        ReadStepText(s, rest);
        OnlyWellFormed(ss[1..]);
      }
    }
  }

  lemma UncleanMisread(s: Step, rest: string)
    requires !CleanName(s)
    ensures var r := ReadStep(StepText(s, rest)); r.Ok? ==> r.value.value != s
  {
    hide ReadStep;
    ClosedEarly(s.name, rest);
  }

  /** A list of steps is what its canonical text compiles to if and only if it is not empty and
      well-formed. */
  lemma CompileTextIff(sp: string, ss: seq<Step>)
    requires forall i :: 0 <= i < |sp| ==> IsSpace(sp[i])
    ensures Compiled(sp + "$" + StepsText(ss)) == Ok([Root] + ss) <==> ss != [] && StepsOk(ss)
  {
    hide ReadSteps, StepsText, StepsOk, Compiled;
    if ss != [] && StepsOk(ss) {
      CompileText(sp, ss);
    }
    CompileUnfold(sp, StepsText(ss));
    if Compiled(sp + "$" + StepsText(ss)) == Ok([Root] + ss) {
      var steps := ReadSteps(StepsText(ss)).value;
      assert ss == ([Root] + ss)[1..] == ([Root] + steps)[1..] == steps;
      OnlyWellFormed(ss);
      assert ss == [] ==> StepsText(ss) == "" by { NoText(ss); }
    }
  }

  lemma NoText(ss: seq<Step>)
    ensures ss == [] ==> StepsText(ss) == ""
  {
  }

  /** Rewriting a compiled path into canonical text and compiling that changes nothing, if and
      only if no name in it is the remnant of an empty quoted name that does not fit a dot. */
  lemma CanonicalTextIff(path: string)
    requires Compiled(path).Ok?
    ensures var ss := Compiled(path).value;
            Compiled("" + "$" + StepsText(ss[1..])) == Ok(ss) <==> forall i :: 1 <= i < |ss| ==> CleanName(ss[i])
  {
    hide Compiled, StepsText, CleanName, StepOk;
    CompiledShape(path);
    var ss := Compiled(path).value;
    assert ss == [Root] + ss[1..];
    CompileTextIff("", ss[1..]);
    if StepsOk(ss[1..]) {
      forall i | 1 <= i < |ss| ensures CleanName(ss[i]) {
        assert ss[i] == ss[1..][i - 1];
        OkIsClean(ss[i]);
      }
    }
  }

  lemma OkIsClean(s: Step)
    requires StepOk(s)
    ensures CleanName(s)
  {
  }

  /** A name in quotes is read as that name if and only if it is not empty, not a star, and free
      of the closing mark. */
  lemma QuotedNameIff(n: string, rest: string)
    ensures ReadStep(Write(Quoted(n), rest)) == Ok(Parsed(Member(n), |n| + 4))
            <==> n != "" && n != "*" && FindClose(n).None?
  {
    hide ReadStep, FindClose;
    var t := Write(Quoted(n), rest);
    if n == "*" {
      QuoteUnfold(t, n + ("']" + rest));
    } else if FindClose(n).Some? {
      ClosedEarly(n, rest);
    } else {
      ReadQuoted(t, n, rest);
    }
  }

  /** `$['']` and `$[''].x` compile, to a first member named `']` and `'].x`: what stands behind
      the opening quote. */
  lemma EmptyQuoteExample()
    ensures Compiled("$['']") == Ok([Root, Member("']")])
    ensures Compiled("$[''].x") == Ok([Root, Member("'].x"), Member("x")])
  {
    hide Compiled, ReadSteps;
    var one, two := [Quoted("")], [Quoted(""), Plain("x")];
    assert one[1..] == [] && two[1..] == [Plain("x")] && [Plain("x")][1..] == [];
    assert WriteAll(one) == "['']" && WriteAll([Plain("x")]) == ".x" && WriteAll(two) == "[''].x";
    ReadAllWritings(one);
    ReadAllWritings(two);
    assert "']" + "" == "']" && "']" + ".x" == "'].x";
    assert MeantAll([Plain("x")]) == [Member("x")];
    assert MeantAll(one) == [Member("']")] && MeantAll(two) == [Member("'].x"), Member("x")];
    CompileUnfold("", "['']");
    CompileUnfold("", "[''].x");
    assert [Root] + [Member("']")] == [Root, Member("']")];
    assert [Root] + [Member("'].x"), Member("x")] == [Root, Member("'].x"), Member("x")];
    assert "" + "$" + "['']" == "$['']" && "" + "$" + "[''].x" == "$[''].x";
  }

  // ---- texts as C strings ----

  /** The text is a C string, so that the compiler can be given it, if and only if no name has
      a NUL. */
  lemma {:induction false} TextIsCString(ss: seq<Step>)
    ensures '\0' !in StepsText(ss) <==> forall i :: 0 <= i < |ss| && ss[i].Member? ==> '\0' !in ss[i].name
  {
    if ss != [] {
      hide StepText;
      StepIsCString(ss[0], StepsText(ss[1..]));
      TextIsCString(ss[1..]);
      assert forall i :: 1 <= i < |ss| ==> ss[i] == ss[1..][i - 1];
    }
  }

  lemma StepIsCString(s: Step, rest: string)
    ensures '\0' in StepText(s, rest) <==> '\0' in rest || (s.Member? && '\0' in s.name)
  {
    hide WriteNumber, WriteList, Numeral, DotName;
    match s {
      case Element(i) => NumberIsCString(i, "]" + rest);
      case ElementList(l) =>
        if l != [] {
          NumberIsCString(l[0], WriteList(Numerals(l[1..]), rest));
          ListIsCString(l[1..], rest);
          assert Numerals(l)[1..] == Numerals(l[1..]);
        }
      case ElementSlice(a, b, c) =>
        NumberIsCString(c, "]" + rest);
        var tail := ":" + WriteNumber(Numeral(c), "]" + rest);
        NumberIsCString(b, tail);
        NumberIsCString(a, ":" + WriteNumber(Numeral(b), tail));
      case _ =>
    }
  }

  lemma NumberIsCString(v: int, rest: string)
    ensures '\0' in WriteNumber(Numeral(v), rest) <==> '\0' in rest
  {
    var d := Digits(if v < 0 then -v else v);
    assert '\0' !in d by {
      assert forall i :: 0 <= i < |d| ==> IsDigit(d[i]);
    }
  }

  lemma {:induction false} ListIsCString(l: seq<int>, rest: string)
    ensures '\0' in WriteList(Numerals(l), rest) <==> '\0' in rest
  {
    if l != [] {
      hide WriteNumber, Numeral;
      assert Numerals(l)[1..] == Numerals(l[1..]);
      NumberIsCString(l[0], WriteList(Numerals(l[1..]), rest));
      ListIsCString(l[1..], rest);
    }
  }
}
