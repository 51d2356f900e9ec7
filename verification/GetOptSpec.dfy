/** Command line options of src/init/getopt.c on strings: one call as a step of a state
    machine, and a whole command line as a recursive grammar. */
module GetOptSpec {
  import opened Common

  datatype Policy = NoArg | ReqArg | OptArg

  /** `pcl_option_t`. */
  datatype LongOption = LongOption(name: string, policy: Policy, val: int)

  /** What a caller configures; None is a null pointer. */
  datatype Setup = Setup(optstr: Option<string>, options: Option<seq<LongOption>>)

  /** One option found: its code, its value and the matching long option, if any. */
  datatype Found = Found(code: int, value: Option<string>, long: Option<nat>)

  datatype Return = Opt(found: Found) | Finished | Failure

  /** Where c first occurs in s, or |s|: strchr for a character that is not NUL. */
  function IndexOf(s: string, c: char): (n: nat)
    ensures n <= |s|
    ensures n < |s| ==> s[n] == c
    ensures forall i :: 0 <= i < n ==> s[i] != c
  {
    if s == "" || s[0] == c then 0 else 1 + IndexOf(s[1..], c)
  }

  /** The first option of this name, or the number of options. */
  function FindName(os: seq<LongOption>, name: string): (k: nat)
    ensures k <= |os|
    ensures k < |os| ==> os[k].name == name
    ensures forall i :: 0 <= i < k ==> os[i].name != name
  {
    if os == [] || os[0].name == name then 0 else 1 + FindName(os[1..], name)
  }

  /** The first option with this value. */
  function FindVal(os: seq<LongOption>, val: int): (k: nat)
    ensures k <= |os|
    ensures k < |os| ==> os[k].val == val
    ensures forall i :: 0 <= i < k ==> os[i].val != val
  {
    if os == [] || os[0].val == val then 0 else 1 + FindVal(os[1..], val)
  }

  /** The policy that optstr gives the option character at place j. */
  function PolicyAt(optstr: string, j: nat): Policy {
    if At(optstr, j + 1) != ':' then NoArg
    else if At(optstr, j + 2) == ':' then OptArg
    else ReqArg
  }

  /** How an option gets its value: it lacks one it needs, or it has this one, taken from the
      following element or not. */
  datatype Value = Missing | Value(text: Option<string>, taken: bool)

  /** A value from the following element: any for a required argument, none that starts with
      a dash for an optional one. */
  function FromNext(policy: Policy, next: Option<string>): Value {
    if policy == ReqArg then
      if next.None? then Missing else Value(next, true)
    else if policy == OptArg && next.Some? && At(next.value, 0) != '-' then Value(next, true)
    else Value(None, false)
  }

  /** The value behind an equals sign. An empty one is an error if it is required and none if
      it is optional. */
  function FromEquals(policy: Policy, text: string): Value {
    if policy == NoArg then Value(None, false)
    else if text != "" then Value(Some(text), false)
    else if policy == ReqArg then Missing
    else Value(None, false)
  }

  /** The value of a long option whose text behind the dashes is body. */
  function LongValue(policy: Policy, body: string, next: Option<string>): Value {
    var e := IndexOf(body, '=');
    if e < |body| then FromEquals(policy, body[e + 1..]) else FromNext(policy, next)
  }

  /** The value of a short option that takes one and is followed by tail in its element. The
      equals sign is looked for anywhere in the tail. */
  function ShortValue(policy: Policy, tail: string, next: Option<string>): Value
    requires policy != NoArg
  {
    var e := IndexOf(tail, '=');
    if e < |tail| then FromEquals(policy, tail[e + 1..])
    else if tail != "" then Value(Some(tail), false)
    else FromNext(policy, next)
  }

  predicate IsLong(arg: string) {
    At(arg, 0) == '-' && At(arg, 1) == '-'
  }

  /** The name part of a long option. */
  function LongName(arg: string): string
    requires |arg| >= 2
  {
    arg[2..][..IndexOf(arg[2..], '=')]
  }

  /** An element that the source does not read beyond its end. It does so with the empty one,
      and with `--` if there are long options. */
  predicate Readable(setup: Setup, arg: string) {
    arg != "" && (arg == "--" ==> setup.options.None?)
  }

  function NextArg(args: seq<string>, i: nat): Option<string> {
    if i + 1 < |args| then Some(args[i + 1]) else None
  }

  /** The long option a short one stands for. */
  function LongOf(setup: Setup, c: char): Option<nat> {
    if setup.options.None? then None
    else
      var k := FindVal(setup.options.value, c as int);
      if k < |setup.options.value| then Some(k) else None
  }

  // ---- one call ----

  /** Where parsing stands: at the start of element i, or inside its cluster of short options. */
  datatype Place = Place(i: nat, next: Option<nat>)

  ghost predicate PlaceOk(args: seq<string>, p: Place) {
    && p.i <= |args|
    && (p.next.Some? ==> p.i < |args| && 0 < p.next.value < |args[p.i]|)
  }

  /** The call is defined: it does not read past the end of an element. */
  predicate CallOk(setup: Setup, args: seq<string>, p: Place) {
    p.next.None? && p.i < |args| ==> Readable(setup, args[p.i])
  }

  function LongCall(setup: Setup, args: seq<string>, i: nat): (Return, Place)
    requires i < |args| && IsLong(args[i]) && |args[i]| >= 2
  {
    var arg := args[i];
    if setup.options.None? || |arg| <= 3 then (Failure, Place(i, None))
    else
      var k := FindName(setup.options.value, LongName(arg));
      if k == |setup.options.value| then (Failure, Place(i, None))
      else
        var o := setup.options.value[k];
        match LongValue(o.policy, arg[2..], NextArg(args, i))
        case Missing => (Failure, Place(i, None))
        case Value(v, taken) => (Opt(Found(o.val, v, Some(k))), Place(if taken then i + 2 else i + 1, None))
  }

  function ShortCall(setup: Setup, args: seq<string>, i: nat, at: nat): (Return, Place)
    requires i < |args| && 0 < at < |args[i]| && setup.optstr.Some?
  {
    var c := args[i][at];
    var tail := args[i][at + 1..];
    var j := IndexOf(setup.optstr.value, c);
    if j == |setup.optstr.value| then (Failure, Place(i, None))
    else
      var policy := PolicyAt(setup.optstr.value, j);
      if policy == NoArg then
        (Opt(Found(c as int, None, LongOf(setup, c))),
         if tail == "" then Place(i + 1, None) else Place(i, Some(at + 1)))
      else
        match ShortValue(policy, tail, NextArg(args, i))
        case Missing => (Failure, Place(i, None))
        case Value(v, taken) =>
          (Opt(Found(c as int, v, LongOf(setup, c))), Place(if taken then i + 2 else i + 1, None))
  }

  /** `pcl_getopt`. */
  function Call(setup: Setup, args: seq<string>, p: Place): (Return, Place)
    requires PlaceOk(args, p) && CallOk(setup, args, p)
    requires p.next.Some? ==> setup.optstr.Some?
  {
    if p.next.Some? then ShortCall(setup, args, p.i, p.next.value)
    else if p.i == |args| then (Finished, p)
    else if IsLong(args[p.i]) then LongCall(setup, args, p.i)
    else if At(args[p.i], 0) != '-' || setup.optstr.None? || |args[p.i]| == 1 then (Failure, p)
    else ShortCall(setup, args, p.i, 1)
  }

  /** Elements left, then characters left in the element. */
  function Left(args: seq<string>, p: Place): (nat, nat)
    requires PlaceOk(args, p)
  {
    (|args| - p.i, if p.i == |args| then 0 else if p.next.Some? then |args[p.i]| - p.next.value else |args[p.i]|)
  }

  /** A call that finds an option leaves a well-formed place nearer to the end. */
  lemma CallAdvances(setup: Setup, args: seq<string>, p: Place)
    requires PlaceOk(args, p) && CallOk(setup, args, p) && (p.next.Some? ==> setup.optstr.Some?)
    requires Call(setup, args, p).0.Opt?
    ensures var p' := Call(setup, args, p).1;
            && PlaceOk(args, p') && (p'.next.Some? ==> setup.optstr.Some?)
            && p.i <= p'.i <= p.i + 2
            && (Left(args, p').0 < Left(args, p).0
                || (Left(args, p').0 == Left(args, p).0 && Left(args, p').1 < Left(args, p).1))
  {
  }

  // ---- a whole run ----

  /** How a run of calls ends. Overrun: the next element is one that the source misreads. */
  datatype End = AllRead | Rejected | Overrun

  datatype Run = Run(found: seq<Found>, end: End)

  function Before(f: Found, r: Run): Run {
    Run([f] + r.found, r.end)
  }

  /** Calling until 0 or -1. */
  function RunFrom(setup: Setup, args: seq<string>, p: Place): Run
    requires PlaceOk(args, p) && (p.next.Some? ==> setup.optstr.Some?)
    decreases Left(args, p).0, Left(args, p).1
  {
    if !CallOk(setup, args, p) then Run([], Overrun)
    else
      var (r, p') := Call(setup, args, p);
      match r
      case Finished => Run([], AllRead)
      case Failure => Run([], Rejected)
      case Opt(f) =>
        CallAdvances(setup, args, p);
        Before(f, RunFrom(setup, args, p'))
  }

  /** The grammar: the options of a list of elements. */
  function Parse(setup: Setup, args: seq<string>): Run
    decreases |args|, 0
  {
    if args == [] then Run([], AllRead)
    else
      var arg, rest := args[0], args[1..];
      if !Readable(setup, arg) then Run([], Overrun)
      else if IsLong(arg) then
        if setup.options.None? || |arg| <= 3 then Run([], Rejected)
        else
          var k := FindName(setup.options.value, LongName(arg));
          if k == |setup.options.value| then Run([], Rejected)
          else
            var o := setup.options.value[k];
            ParseValue(setup, o.val, Some(k), LongValue(o.policy, arg[2..], First(rest)), rest)
      else if arg[0] != '-' || setup.optstr.None? || |arg| == 1 then Run([], Rejected)
      else ParseCluster(setup, arg[1..], rest)
  }

  function First(args: seq<string>): Option<string> {
    if args == [] then None else Some(args[0])
  }

  /** An option with its value, and the options that follow it. */
  function ParseValue(setup: Setup, code: int, long: Option<nat>, v: Value, rest: seq<string>): Run
    requires v.Value? && v.taken ==> rest != []
    decreases |rest|, 1
  {
    match v
    case Missing => Run([], Rejected)
    case Value(text, taken) =>
      Before(Found(code, text, long), Parse(setup, if taken then rest[1..] else rest))
  }

  /** The short options of one element. */
  function ParseCluster(setup: Setup, chars: string, rest: seq<string>): Run
    requires chars != "" && setup.optstr.Some?
    decreases |rest|, 2 + |chars|
  {
    var c, tail := chars[0], chars[1..];
    var j := IndexOf(setup.optstr.value, c);
    if j == |setup.optstr.value| then Run([], Rejected)
    else
      var policy := PolicyAt(setup.optstr.value, j);
      if policy != NoArg then
        ParseValue(setup, c as int, LongOf(setup, c), ShortValue(policy, tail, First(rest)), rest)
      else
        Before(Found(c as int, None, LongOf(setup, c)),
               if tail == "" then Parse(setup, rest) else ParseCluster(setup, tail, rest))
  }

  /** What is left to parse at a place. */
  function ParseAt(setup: Setup, args: seq<string>, p: Place): Run
    requires PlaceOk(args, p) && (p.next.Some? ==> setup.optstr.Some?)
  {
    if p.next.Some? then ParseCluster(setup, args[p.i][p.next.value..], args[p.i + 1..])
    else Parse(setup, args[p.i..])
  }

  lemma Windows(args: seq<string>, i: nat)
    requires i < |args|
    ensures args[i..][0] == args[i] && args[i..][1..] == args[i + 1..]
    ensures First(args[i + 1..]) == NextArg(args, i)
    ensures i + 1 < |args| ==> args[i + 1..][1..] == args[i + 2..]
  {
  }

  /** A call inside an element and the grammar of the rest of the element. */
  lemma ClusterStep(setup: Setup, args: seq<string>, i: nat, at: nat)
    requires i < |args| && 0 < at < |args[i]| && setup.optstr.Some?
    ensures var (r, p') := ShortCall(setup, args, i, at);
            var run := ParseCluster(setup, args[i][at..], args[i + 1..]);
            if r.Opt? then
              PlaceOk(args, p') && run == Before(r.found, ParseAt(setup, args, p'))
            else r == Failure && run == Run([], Rejected)
  {
    Windows(args, i);
    assert args[i][at..][0] == args[i][at] && args[i][at..][1..] == args[i][at + 1..];
  }

  lemma LongStep(setup: Setup, args: seq<string>, i: nat)
    requires i < |args| && IsLong(args[i]) && |args[i]| >= 2 && Readable(setup, args[i])
    ensures var (r, p') := LongCall(setup, args, i);
            var run := Parse(setup, args[i..]);
            if r.Opt? then
              PlaceOk(args, p') && p'.next.None? && run == Before(r.found, Parse(setup, args[p'.i..]))
            else r == Failure && run == Run([], Rejected)
  {
    Windows(args, i);
    var arg, rest := args[i], args[i + 1..];
    if setup.options.Some? && |arg| > 3 {
      var k := FindName(setup.options.value, LongName(arg));
      if k < |setup.options.value| {
        var o := setup.options.value[k];
        var v := LongValue(o.policy, arg[2..], First(rest));
        assert Parse(setup, args[i..]) == ParseValue(setup, o.val, Some(k), v, rest);
      }
    }
  }

  /** A call at any place and the grammar of what is left there. */
  lemma ParseStep(setup: Setup, args: seq<string>, p: Place)
    requires PlaceOk(args, p) && CallOk(setup, args, p) && (p.next.Some? ==> setup.optstr.Some?)
    ensures var (r, p') := Call(setup, args, p);
            match r
            case Opt(f) =>
              PlaceOk(args, p') && (p'.next.Some? ==> setup.optstr.Some?)
              && ParseAt(setup, args, p) == Before(f, ParseAt(setup, args, p'))
            case Finished => ParseAt(setup, args, p) == Run([], AllRead)
            case Failure => ParseAt(setup, args, p) == Run([], Rejected)
  {
    if p.next.Some? {
      ClusterStep(setup, args, p.i, p.next.value);
    } else if p.i < |args| {
      Windows(args, p.i);
      var arg := args[p.i];
      if IsLong(arg) {
        LongStep(setup, args, p.i);
      } else if arg[0] == '-' && setup.optstr.Some? && |arg| > 1 {
        ClusterStep(setup, args, p.i, 1);
      }
    }
  }

  /** A full run of calls yields exactly what the grammar says. */
  lemma {:induction false} RunIsParse(setup: Setup, args: seq<string>, p: Place)
    requires PlaceOk(args, p) && (p.next.Some? ==> setup.optstr.Some?)
    ensures RunFrom(setup, args, p) == ParseAt(setup, args, p)
    decreases Left(args, p).0, Left(args, p).1
  {
    if CallOk(setup, args, p) {
      ParseStep(setup, args, p);
      if Call(setup, args, p).0.Opt? {
        CallAdvances(setup, args, p);
        RunIsParse(setup, args, Call(setup, args, p).1);
      }
    } else {
      Windows(args, p.i);
    }
  }
}
