/** `pcl_initopt` and `pcl_getopt` of src/init, on argv as arrays of characters that end in
    NUL. One call parses in place: it cuts a long option at its equals sign while it looks the
    name up, and mends the cut. */
module GetOpt {
  import opened Common
  import opened GetOptSpec

  /** a holds one C string and nothing behind its NUL. */
  ghost predicate IsCString(a: array<char>)
    reads a
  {
    a.Length > 0 && a[a.Length - 1] == '\0' && forall i :: 0 <= i < a.Length - 1 ==> a[i] != '\0'
  }

  /** The characters of a before its last. */
  ghost function Text(a: array<char>): string
    reads a
  {
    if a.Length == 0 then "" else a[..a.Length - 1]
  }

  ghost function Texts(argv: seq<array<char>>): (args: seq<string>)
    reads argv
    ensures |args| == |argv|
    ensures forall i :: 0 <= i < |argv| ==> args[i] == Text(argv[i])
  {
    seq(|argv|, i requires 0 <= i < |argv| reads argv => Text(argv[i]))
  }

  /** strcmp of name and the C string that starts at a[from]. */
  method SameString(name: string, a: array<char>, from: nat, ghost end: nat) returns (same: bool)
    requires from <= end < a.Length && a[end] == '\0' && '\0' !in name
    requires forall i :: from <= i < end ==> a[i] != '\0'
    ensures same <==> name == a[from..end]
  {
    var k := 0;
    while k < |name| && a[from + k] == name[k]
      invariant k <= |name| && from + k <= end
      invariant name[..k] == a[from..from + k]
    {
      assert name[k] in name;
      k := k + 1;
    }
    same := k == |name| && a[from + k] == '\0';
    if same {
      assert name == name[..k];
    } else if |name| == end - from {
      assert k < |name|;
      assert name[k] != a[from..end][k];
    }
  }

  /** strchr from a[from] on: the place of c, or of the NUL. */
  method FindChar(a: array<char>, from: nat, c: char) returns (n: nat)
    requires IsCString(a) && from < a.Length && c != '\0'
    ensures n == IndexOf(Text(a)[from..], c) && from + n < a.Length
    ensures a[from + n] == '\0' <==> from + n == a.Length - 1
  {
    n := 0;
    ghost var t := Text(a)[from..];
    while a[from + n] != '\0' && a[from + n] != c
      invariant from + n < a.Length
      invariant forall i :: 0 <= i < n ==> t[i] != c
      decreases a.Length - n
    {
      assert t[n] == a[from + n];
      n := n + 1;
    }
    IndexIs(t, c, n);
  }

  lemma IndexIs(t: string, c: char, n: nat)
    requires n <= |t| && (n < |t| ==> t[n] == c) && forall i :: 0 <= i < n ==> t[i] != c
    ensures IndexOf(t, c) == n
  {
  }

  /** The lookup loop: the name part of a long option among the options. */
  method Lookup(options: seq<LongOption>, a: array<char>, ghost end: nat) returns (k: nat)
    requires 2 <= end < a.Length && a[end] == '\0' && forall i :: 2 <= i < end ==> a[i] != '\0'
    requires forall i :: 0 <= i < |options| ==> '\0' !in options[i].name
    ensures k == FindName(options, a[2..end])
  {
    k := 0;
    ghost var name := a[2..end];
    while k < |options|
      invariant k <= |options|
      invariant forall i :: 0 <= i < k ==> options[i].name != name
    {
      var same := SameString(options[k].name, a, 2, end);
      if same {
        break;
      }
      k := k + 1;
    }
    NameIs(options, name, k);
  }

  lemma NameIs(os: seq<LongOption>, name: string, k: nat)
    requires k <= |os| && (k < |os| ==> os[k].name == name) && forall i :: 0 <= i < k ==> os[i].name != name
    ensures FindName(os, name) == k
  {
  }

  /** The loop that maps a short option to a long one. */
  method LongFor(options: seq<LongOption>, c: char) returns (long: Option<nat>)
    ensures var k := FindVal(options, c as int); long == if k < |options| then Some(k) else None
  {
    var k := 0;
    while k < |options| && options[k].val != c as int
      invariant k <= |options|
      invariant forall i :: 0 <= i < k ==> options[i].val != c as int
    {
      k := k + 1;
    }
    ValIs(options, c as int, k);
    long := if k < |options| then Some(k) else None;
  }

  lemma ValIs(os: seq<LongOption>, val: int, k: nat)
    requires k <= |os| && (k < |os| ==> os[k].val == val) && forall i :: 0 <= i < k ==> os[i].val != val
    ensures FindVal(os, val) == k
  {
  }

  /** Cut a long option at its equals sign, if it has one, look its name up, mend the cut. */
  method FindLong(options: seq<LongOption>, a: array<char>) returns (k: nat, eq: nat)
    requires IsCString(a) && a.Length > 3
    requires forall i :: 0 <= i < |options| ==> '\0' !in options[i].name
    modifies a
    ensures a[..] == old(a[..]) && IsCString(a) && Text(a) == old(Text(a))
    ensures eq == IndexOf(Text(a)[2..], '=')
    ensures k == FindName(options, LongName(Text(a)))
  {
    ghost var was := a[..];
    eq := FindChar(a, 2, '=');
    var found := a[2 + eq] == '=';
    if found {
      a[2 + eq] := '\0';
    }
    assert a[2..2 + eq] == was[2..2 + eq];
    k := Lookup(options, a, 2 + eq);
    if found {
      a[2 + eq] := '=';
    }
    assert a[..] == was;
    assert IsCString(a) by {
      assert forall i :: 0 <= i < a.Length ==> a[i] == was[i];
    }
    assert LongName(Text(a)) == was[2..2 + eq];
  }

  /** The characters from a[from] to the NUL. */
  method Rest(a: array<char>, from: nat) returns (s: string)
    requires IsCString(a) && from < a.Length
    ensures s == Text(a)[from..]
  {
    s := a[from..a.Length - 1];
  }

  /** The value of a long option with its equals sign, or its end, eq characters behind the
      dashes. */
  method TakeLong(arg: array<char>, policy: Policy, eq: nat, next: Option<string>) returns (v: Value)
    requires IsCString(arg) && arg.Length > 3 && eq == IndexOf(Text(arg)[2..], '=')
    ensures v == LongValue(policy, Text(arg)[2..], next)
  {
    var body := Rest(arg, 2);
    if policy == ReqArg {
      if eq < |body| {
        if arg[2 + eq + 1] == '\0' {
          return Missing;
        }
        return Value(Some(body[eq + 1..]), false);
      } else if next.None? {
        return Missing;
      } else {
        return Value(next, true);
      }
    } else if policy == OptArg {
      if eq < |body| {
        return Value(if arg[2 + eq + 1] != '\0' then Some(body[eq + 1..]) else None, false);
      } else if next.Some? && At(next.value, 0) != '-' {
        return Value(next, true);
      }
    }
    return Value(None, false);
  }

  /** The value of a short option that takes one, with the rest of its element from off on. */
  method TakeShort(arg: array<char>, off: nat, policy: Policy, next: Option<string>) returns (v: Value)
    requires IsCString(arg) && off < arg.Length && policy != NoArg
    ensures v == ShortValue(policy, Text(arg)[off..], next)
  {
    var tail := Rest(arg, off);
    var eq := FindChar(arg, off, '=');
    if policy == ReqArg {
      if eq < |tail| {
        if arg[off + eq + 1] == '\0' {
          return Missing;
        }
        return Value(Some(tail[eq + 1..]), false);
      } else if arg[off] == '\0' {
        if next.None? {
          return Missing;
        }
        return Value(next, true);
      } else {
        return Value(Some(tail), false);
      }
    } else {
      if eq < |tail| {
        return Value(if arg[off + eq + 1] != '\0' then Some(tail[eq + 1..]) else None, false);
      } else if arg[off] != '\0' {
        return Value(Some(tail), false);
      } else if next.Some? && At(next.value, 0) != '-' {
        return Value(next, true);
      } else {
        return Value(None, false);
      }
    }
  }

  class OptState {
    const argv: seq<array<char>>
    const setup: Setup
    var argidx: nat
    /** Offset in argv[argidx] of the next short option; None is the null pointer. */
    var nextOptstr: Option<nat>

    ghost predicate Valid()
      reads this, argv
    {
      && (forall i :: 0 <= i < |argv| ==> IsCString(argv[i]))
      && PlaceOk(Texts(argv), Place(argidx, nextOptstr))
      && (nextOptstr.Some? ==> setup.optstr.Some?)
      && (setup.options.Some? ==>
            forall i :: 0 <= i < |setup.options.value| ==> '\0' !in setup.options.value[i].name)
    }

    ghost function Here(): Place
      reads this
    {
      Place(argidx, nextOptstr)
    }

    /** `pcl_initopt`, once its arguments are accepted. */
    constructor (argv: seq<array<char>>, setup: Setup)
      requires argv != [] && (setup.optstr.Some? || setup.options.Some?)
      requires forall i :: 0 <= i < |argv| ==> IsCString(argv[i])
      requires setup.options.Some? ==>
                 forall i :: 0 <= i < |setup.options.value| ==> '\0' !in setup.options.value[i].name
      ensures Valid() && this.argv == argv && this.setup == setup && Here() == Place(1, None)
    {
      this.argv, this.setup := argv, setup;
      argidx, nextOptstr := 1, None;
    }

    /** `pcl_initopt`. Null is the EINVAL failure. */
    static method Init(argv: seq<array<char>>, setup: Setup) returns (state: OptState?)
      requires forall i :: 0 <= i < |argv| ==> IsCString(argv[i])
      requires setup.options.Some? ==>
                 forall i :: 0 <= i < |setup.options.value| ==> '\0' !in setup.options.value[i].name
      ensures state == null <==> argv == [] || (setup.optstr.None? && setup.options.None?)
      ensures state != null ==> fresh(state) && state.Valid() && state.argv == argv && state.setup == setup
                                && state.Here() == Place(1, None)
    {
      if |argv| == 0 || !(setup.optstr.Some? || setup.options.Some?) {
        return null;
      }
      state := new OptState(argv, setup);
    }

    /** The following element, if there is one. */
    method Following() returns (next: Option<string>)
      requires Valid() && argidx < |argv|
      ensures next == NextArg(Texts(argv), argidx)
    {
      next := None;
      if argidx + 1 < |argv| {
        var s := Rest(argv[argidx + 1], 0);
        assert s == Text(argv[argidx + 1]);
        next := Some(s);
      }
    }

    /** FindLong on the current element: nothing in argv has changed when it returns. */
    method FindHere(options: seq<LongOption>) returns (k: nat, eq: nat)
      requires Valid() && argidx < |argv| && setup.options == Some(options)
      requires |Text(argv[argidx])| > 3
      modifies argv
      ensures forall i :: 0 <= i < |argv| ==> argv[i][..] == old(argv[i][..]) && IsCString(argv[i])
      ensures Texts(argv) == old(Texts(argv))
      ensures eq == IndexOf(Texts(argv)[argidx][2..], '=') && k == FindName(options, LongName(Texts(argv)[argidx]))
    {
      ghost var args := Texts(argv);
      k, eq := FindLong(options, argv[argidx]);
      assert forall i :: 0 <= i < |argv| ==> Text(argv[i]) == args[i];
      assert Texts(argv) == args;
    }

    /** The part of a call that handles `--name`, `--name=value` and `--name value`. */
    method LongForm(options: seq<LongOption>) returns (r: Return)
      requires Valid() && argidx < |argv| && nextOptstr.None? && setup.options == Some(options)
      requires IsLong(Text(argv[argidx])) && |Text(argv[argidx])| > 3
      modifies this, argv
      ensures forall i :: 0 <= i < |argv| ==> argv[i][..] == old(argv[i][..])
      ensures Texts(argv) == old(Texts(argv)) && forall i :: 0 <= i < |argv| ==> IsCString(argv[i])
      ensures !r.Finished? && (r, Here()) == LongCall(setup, old(Texts(argv)), old(argidx))
    {
      hide LongValue, FindName, LongName, IndexOf, IsCString;
      ghost var args := Texts(argv);
      var next := Following();
      var arg := argv[argidx];
      assert args[argidx] == Text(arg);
      var k, eq := FindHere(options);
      assert Text(arg) == Texts(argv)[argidx];
      if k == |options| {
        return Failure;
      }
      var o := options[k];
      var v := TakeLong(arg, o.policy, eq, next);
      if v.Missing? {
        return Failure;
      }
      argidx := if v.taken then argidx + 2 else argidx + 1;
      return Opt(Found(o.val, v.text, Some(k)));
    }

    /** The part of a call that handles one short option at this offset of the element. */
    method ShortForm(at: nat) returns (r: Return)
      requires Valid() && argidx < |argv| && setup.optstr.Some? && 0 < at < |Text(argv[argidx])|
      modifies this
      ensures !r.Finished? && r == ShortCall(setup, old(Texts(argv)), old(argidx), at).0
      ensures !r.Failure? ==> Here() == ShortCall(setup, old(Texts(argv)), old(argidx), at).1
    {
      hide ShortValue;
      ghost var args := Texts(argv);
      ghost var tail := args[argidx][at + 1..];
      var next := Following();
      var arg := argv[argidx];
      var opt := arg[at];
      var off := at + 1;
      nextOptstr := Some(off);
      var optstr := setup.optstr.value;
      var j := IndexOf(optstr, opt);
      if j == |optstr| {
        return Failure;
      }
      var policy := PolicyAt(optstr, j);
      var v := Value(None, false);
      if policy != NoArg {
        v := TakeShort(arg, off, policy, next);
        if v.Missing? {
          return Failure;
        }
        off := arg.Length - 1;
      }
      assert policy == NoArg ==> (tail == "" <==> arg[off] == '\0');
      if arg[off] == '\0' {
        argidx, nextOptstr := if v.taken then argidx + 2 else argidx + 1, None;
      } else {
        nextOptstr := Some(off);
      }
      var long: Option<nat> := None;
      if setup.options.Some? {
        long := LongFor(setup.options.value, opt);
      }
      return Opt(Found(opt as int, v.text, long));
    }

    /** `pcl_getopt`. The characters of argv are as they were when it returns. */
    method GetOpt() returns (r: Return)
      requires Valid() && CallOk(setup, Texts(argv), Here())
      modifies this, argv
      ensures forall i :: 0 <= i < |argv| ==> argv[i][..] == old(argv[i][..])
      ensures Texts(argv) == old(Texts(argv))
      ensures r == Call(setup, old(Texts(argv)), old(Here())).0
      ensures !r.Failure? ==> Valid() && Here() == Call(setup, old(Texts(argv)), old(Here())).1
    {
      hide ShortCall, LongCall;
      ghost var args, p := Texts(argv), Here();
      if nextOptstr.Some? {
        r := ShortForm(nextOptstr.value);
        Settle(args, p);
        return;
      }
      if |argv| == argidx {
        return Finished;
      }
      var arg := argv[argidx];
      assert args[argidx] == Text(arg);
      if arg[0] == '-' && arg[1] == '-' {
        if setup.options.None? || arg[3] == '\0' {
          NoLongCall(setup, args, argidx);
          return Failure;
        }
        r := LongForm(setup.options.value);
        Settle(args, p);
        return;
      }
      if arg[0] != '-' || setup.optstr.None? || arg[1] == '\0' {
        return Failure;
      }
      r := ShortForm(1);
      Settle(args, p);
    }

    /** A call that found an option stands at a well-formed place. */
    lemma Settle(args: seq<string>, p: Place)
      requires PlaceOk(args, p) && CallOk(setup, args, p) && (p.next.Some? ==> setup.optstr.Some?)
      ensures var (r, p') := Call(setup, args, p);
              r.Opt? ==> PlaceOk(args, p') && (p'.next.Some? ==> setup.optstr.Some?)
    {
      if Call(setup, args, p).0.Opt? {
        CallAdvances(setup, args, p);
      }
    }
  }

  /** The documented loop: call until there is no further option. */
  method ParseAll(state: OptState) returns (found: seq<Found>, end: End)
    requires state.Valid() && state.Here() == Place(1, None)
    modifies state, state.argv
    ensures forall i :: 0 <= i < |state.argv| ==> state.argv[i][..] == old(state.argv[i][..])
    ensures Run(found, end) == Parse(state.setup, old(Texts(state.argv))[1..])
  {
    ghost var args := Texts(state.argv);
    found := [];
    RunIsParse(state.setup, args, Place(1, None));
    while true
      invariant state.Valid() && Texts(state.argv) == args
      invariant forall i :: 0 <= i < |state.argv| ==> state.argv[i][..] == old(state.argv[i][..])
      invariant RunFrom(state.setup, args, Place(1, None)) == Behind(found, RunFrom(state.setup, args, state.Here()))
      decreases Left(args, state.Here()).0, Left(args, state.Here()).1
    {
      var callable := CanCall(state);
      if !callable {
        return found, Overrun;
      }
      ghost var p := state.Here();
      RunTurn(state.setup, args, p, found);
      var r := state.GetOpt();
      match r {
        case Finished => return found, AllRead;
        case Failure => return found, Rejected;
        case Opt(f) =>
          CallAdvances(state.setup, args, p);
          found := found + [f];
      }
    }
  }

  /** Whether the next element is one that a call can read. */
  method CanCall(state: OptState) returns (ok: bool)
    requires state.Valid()
    ensures ok == CallOk(state.setup, Texts(state.argv), state.Here())
  {
    ok := true;
    if state.nextOptstr.None? && state.argidx < |state.argv| {
      var arg := state.argv[state.argidx];
      var text := Rest(arg, 0);
      assert text == Texts(state.argv)[state.argidx];
      ok := Readable(state.setup, text);
    }
  }

  ghost function Behind(found: seq<Found>, r: Run): Run {
    Run(found + r.found, r.end)
  }

  lemma RunTurn(setup: Setup, args: seq<string>, p: Place, found: seq<Found>)
    requires PlaceOk(args, p) && CallOk(setup, args, p) && (p.next.Some? ==> setup.optstr.Some?)
    ensures var (r, p') := Call(setup, args, p);
            && (r.Finished? ==> Behind(found, RunFrom(setup, args, p)) == Run(found, AllRead))
            && (r.Failure? ==> Behind(found, RunFrom(setup, args, p)) == Run(found, Rejected))
            && (r.Opt? ==> PlaceOk(args, p') && (p'.next.Some? ==> setup.optstr.Some?))
            && (r.Opt? ==> Behind(found, RunFrom(setup, args, p)) == Behind(found + [r.found], RunFrom(setup, args, p')))
  {
    hide LongCall, ShortCall;
    var (r, p') := Call(setup, args, p);
    if r.Opt? {
      CallAdvances(setup, args, p);
      var rest := RunFrom(setup, args, p').found;
      assert found + ([r.found] + rest) == (found + [r.found]) + rest;
    } else {
      assert found + [] == found;
    }
  }

  lemma NoLongCall(setup: Setup, args: seq<string>, i: nat)
    requires i < |args| && IsLong(args[i]) && |args[i]| >= 2
    requires setup.options.None? || |args[i]| <= 3
    ensures LongCall(setup, args, i).0 == Failure
  {
  }
}
