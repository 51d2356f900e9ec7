/** What command lines mean: every documented way of writing options is read back as what was
    written, and a run that reaches the end has used each element exactly once. */
module GetOptMeaning {
  import opened Common
  import opened GetOptSpec

  // ---- writing options down ----

  /** How an argument is attached: `-Ovalue`, `-O=value` or `--long=value`, `-O value` or
      `--long value`, or not given. */
  datatype Form = Attached | Equals | Separate | Absent

  /** One use of options on a command line: a cluster of plain short options, a short option
      with an argument behind a possibly empty cluster, or the long option with this index. */
  datatype Use =
    | Flags(flags: string)
    | Short(flags: string, c: char, form: Form, value: string)
    | Long(index: nat, form: Form, value: string)

  predicate HasPolicy(setup: Setup, c: char, policy: Policy) {
    setup.optstr.Some?
    && IndexOf(setup.optstr.value, c) < |setup.optstr.value|
    && PolicyAt(setup.optstr.value, IndexOf(setup.optstr.value, c)) == policy
  }

  ghost predicate PlainOptions(setup: Setup, flags: string) {
    forall i :: 0 <= i < |flags| ==> HasPolicy(setup, flags[i], NoArg)
  }

  /** The argument fits the form and the policy. */
  predicate FormOk(policy: Policy, form: Form, value: string) {
    match form
    case Attached => policy != NoArg && value != "" && '=' !in value
    case Equals => policy != NoArg && value != ""
    case Separate => policy == ReqArg || (policy == OptArg && At(value, 0) != '-')
    case Absent => policy != ReqArg
  }

  ghost predicate UseOk(setup: Setup, u: Use) {
    match u
    case Flags(fs) => fs != "" && fs[0] != '-' && PlainOptions(setup, fs)
    case Short(fs, c, form, v) =>
      && (fs + [c])[0] != '-' && PlainOptions(setup, fs)
      && (exists policy :: policy != NoArg && HasPolicy(setup, c, policy) && FormOk(policy, form, v))
    case Long(k, form, v) =>
      && setup.options.Some? && k < |setup.options.value|
      && var o := setup.options.value[k];
         && FindName(setup.options.value, o.name) == k && '=' !in o.name
         && (form != Equals ==> |o.name| >= 2)
         && form != Attached && FormOk(o.policy, form, v)
  }

  /** The elements of a use. */
  function Written(setup: Setup, u: Use): seq<string>
    requires u.Long? ==> setup.options.Some? && u.index < |setup.options.value|
  {
    match u
    case Flags(fs) => ["-" + fs]
    case Short(fs, c, form, v) =>
      (match form
       case Attached => ["-" + fs + [c] + v]
       case Equals => ["-" + fs + [c] + "=" + v]
       case Separate => ["-" + fs + [c], v]
       case Absent => ["-" + fs + [c]])
    case Long(k, form, v) =>
      var name := setup.options.value[k].name;
      match form
      case Equals => ["--" + name + "=" + v]
      case Separate => ["--" + name, v]
      case _ => ["--" + name]
  }

  function PlainFound(setup: Setup, flags: string): seq<Found> {
    if flags == "" then []
    else [Found(flags[0] as int, None, LongOf(setup, flags[0]))] + PlainFound(setup, flags[1..])
  }

  function Argument(form: Form, value: string): Option<string> {
    if form == Absent then None else Some(value)
  }

  /** What is to be found in a use. */
  function Meant(setup: Setup, u: Use): seq<Found>
    requires u.Long? ==> setup.options.Some? && u.index < |setup.options.value|
  {
    match u
    case Flags(fs) => PlainFound(setup, fs)
    case Short(fs, c, form, v) =>
      PlainFound(setup, fs) + [Found(c as int, Argument(form, v), LongOf(setup, c))]
    case Long(k, form, v) => [Found(setup.options.value[k].val, Argument(form, v), Some(k))]
  }

  ghost predicate UsesOk(setup: Setup, us: seq<Use>) {
    forall i :: 0 <= i < |us| ==> UseOk(setup, us[i])
  }

  ghost function WrittenAll(setup: Setup, us: seq<Use>): seq<string>
    requires UsesOk(setup, us)
  {
    if us == [] then [] else Written(setup, us[0]) + WrittenAll(setup, us[1..])
  }

  ghost function MeantAll(setup: Setup, us: seq<Use>): seq<Found>
    requires UsesOk(setup, us)
  {
    if us == [] then [] else Meant(setup, us[0]) + MeantAll(setup, us[1..])
  }

  function Ahead(found: seq<Found>, r: Run): Run {
    Run(found + r.found, r.end)
  }

  /** What follows a use is the end or starts with a dash, so that it is not taken for an
      optional argument. */
  predicate Dashed(rest: seq<string>) {
    rest == [] || At(rest[0], 0) == '-'
  }

  // ---- short options ----

  /** A cluster of plain options in front of something else in the same element. */
  lemma {:induction false} ClusterFlags(setup: Setup, flags: string, more: string, rest: seq<string>)
    requires setup.optstr.Some? && PlainOptions(setup, flags) && more != ""
    ensures ParseCluster(setup, flags + more, rest)
         == Ahead(PlainFound(setup, flags), ParseCluster(setup, more, rest))
    decreases |flags|
  {
    if flags == "" {
      assert flags + more == more;
      AheadNothing(ParseCluster(setup, more, rest));
    } else {
      var u := flags + more;
      assert u[0] == flags[0] && u[1..] == flags[1..] + more;
      assert HasPolicy(setup, flags[0], NoArg);
      ClusterFlags(setup, flags[1..], more, rest);
      AheadOne(Found(flags[0] as int, None, LongOf(setup, flags[0])), PlainFound(setup, flags[1..]),
               ParseCluster(setup, more, rest));
    }
  }

  lemma AheadNothing(r: Run)
    ensures Ahead([], r) == r
  {
    assert [] + r.found == r.found;
  }

  lemma AheadOne(f: Found, fs: seq<Found>, r: Run)
    ensures Before(f, Ahead(fs, r)) == Ahead([f] + fs, r)
  {
    assert [f] + (fs + r.found) == ([f] + fs) + r.found;
  }

  lemma AheadTwice(fs: seq<Found>, gs: seq<Found>, r: Run)
    ensures Ahead(fs, Ahead(gs, r)) == Ahead(fs + gs, r)
  {
    assert fs + (gs + r.found) == (fs + gs) + r.found;
  }

  /** A whole element of plain options. */
  lemma FlagsElement(setup: Setup, flags: string, rest: seq<string>)
    requires setup.optstr.Some? && PlainOptions(setup, flags) && flags != ""
    ensures ParseCluster(setup, flags, rest) == Ahead(PlainFound(setup, flags), Parse(setup, rest))
  {
    var n := |flags| - 1;
    var front, last := flags[..n], flags[n..];
    assert flags == front + last && last == [flags[n]] && last[1..] == "";
    ClusterFlags(setup, front, last, rest);
    var f := Found(flags[n] as int, None, LongOf(setup, flags[n]));
    assert HasPolicy(setup, flags[n], NoArg);
    assert ParseCluster(setup, last, rest) == Ahead([f], Parse(setup, rest));
    AheadTwice(PlainFound(setup, front), [f], Parse(setup, rest));
    PlainSnoc(setup, front, flags[n]);
  }

  lemma {:induction false} PlainSnoc(setup: Setup, flags: string, c: char)
    ensures PlainFound(setup, flags + [c]) == PlainFound(setup, flags) + [Found(c as int, None, LongOf(setup, c))]
  {
    if flags == "" {
      assert flags + [c] == [c] && [c][1..] == "";
    } else {
      assert (flags + [c])[1..] == flags[1..] + [c];
      PlainSnoc(setup, flags[1..], c);
    }
  }

  /** The characters of a short option's element behind the option. */
  function Tail(form: Form, v: string): string {
    match form
    case Attached => v
    case Equals => "=" + v
    case _ => ""
  }

  /** A short option gets the argument written for it if and only if the form suits its policy
      and what follows; an attached argument must not contain an equals sign. */
  lemma ShortFormIff(policy: Policy, form: Form, v: string, rest: seq<string>)
    requires policy != NoArg
    ensures ShortValue(policy, Tail(form, v), First(if form == Separate then [v] + rest else rest))
              == Value(Argument(form, v), form == Separate)
            <==> FormOk(policy, form, v) && (form == Absent ==> Dashed(rest))
  {
    var t := Tail(form, v);
    match form {
      case Attached =>
        var e := IndexOf(v, '=');
        if e < |v| {
          assert |v[e + 1..]| < |v|;
        } else {
          assert '=' !in v;
        }
      case Equals => assert t[1..] == v;
      case _ =>
    }
  }

  lemma NoEquals(s: string)
    requires '=' !in s
    ensures IndexOf(s, '=') == |s|
  {
    assert forall i :: 0 <= i < |s| ==> s[i] in s;
  }

  lemma ShortUse(setup: Setup, fs: string, c: char, policy: Policy, form: Form, v: string, rest: seq<string>)
    requires setup.optstr.Some? && PlainOptions(setup, fs) && policy != NoArg && HasPolicy(setup, c, policy)
    requires FormOk(policy, form, v) && (form == Absent ==> Dashed(rest))
    ensures ParseCluster(setup, fs + ([c] + Tail(form, v)), if form == Separate then [v] + rest else rest)
         == Ahead(PlainFound(setup, fs) + [Found(c as int, Argument(form, v), LongOf(setup, c))], Parse(setup, rest))
  {
    var more := [c] + Tail(form, v);
    var after := if form == Separate then [v] + rest else rest;
    var f := Found(c as int, Argument(form, v), LongOf(setup, c));
    ClusterFlags(setup, fs, more, after);
    assert more[1..] == Tail(form, v);
    ShortFormIff(policy, form, v, rest);
    assert form == Separate ==> after[1..] == rest;
    assert ParseCluster(setup, more, after) == Ahead([f], Parse(setup, rest));
    AheadTwice(PlainFound(setup, fs), [f], Parse(setup, rest));
  }

  /** The same for the element as a whole: it parses to the options meant if and only if the
      form suits. */
  lemma ShortUseIff(setup: Setup, fs: string, c: char, policy: Policy, form: Form, v: string, rest: seq<string>)
    requires setup.optstr.Some? && PlainOptions(setup, fs) && policy != NoArg && HasPolicy(setup, c, policy)
    requires form == Attached ==> v != ""
    ensures ParseCluster(setup, fs + ([c] + Tail(form, v)), if form == Separate then [v] + rest else rest)
              == Ahead(PlainFound(setup, fs) + [Found(c as int, Argument(form, v), LongOf(setup, c))], Parse(setup, rest))
            <==> FormOk(policy, form, v) && (form == Absent ==> Dashed(rest))
  {
    hide Parse;
    var more := [c] + Tail(form, v);
    var after := if form == Separate then [v] + rest else rest;
    var f := Found(c as int, Argument(form, v), LongOf(setup, c));
    ShortFormIff(policy, form, v, rest);
    if FormOk(policy, form, v) && (form == Absent ==> Dashed(rest)) {
      ShortUse(setup, fs, c, policy, form, v, rest);
    } else {
      ClusterFlags(setup, fs, more, after);
      assert more[1..] == Tail(form, v);
      WrongValue(setup, c, policy, form, v, after);
      var run := ParseCluster(setup, more, after);
      OneDiffers(PlainFound(setup, fs), run, f, Parse(setup, rest));
    }
  }

  lemma WrongValue(setup: Setup, c: char, policy: Policy, form: Form, v: string, after: seq<string>)
    requires setup.optstr.Some? && policy != NoArg && HasPolicy(setup, c, policy)
    requires (form == Attached ==> v != "") && (form == Separate ==> after != [] && after[0] == v)
    requires ShortValue(policy, Tail(form, v), First(after)) != Value(Argument(form, v), form == Separate)
    ensures var found := ParseCluster(setup, [c] + Tail(form, v), after).found;
            found == [] || found[0] != Found(c as int, Argument(form, v), LongOf(setup, c))
  {
    hide Parse;
    assert ([c] + Tail(form, v))[1..] == Tail(form, v);
  }

  lemma OneDiffers(fs: seq<Found>, run: Run, f: Found, rest: Run)
    requires run.found == [] || run.found[0] != f
    ensures Ahead(fs, run) != Ahead(fs + [f], rest)
  {
    var left, right := fs + run.found, fs + [f] + rest.found;
    assert right[|fs|] == f;
    assert if run.found == [] then |left| < |right| else left[|fs|] == run.found[0];
  }

  // ---- long options ----

  /** The long option at index k, under its own name. */
  ghost predicate Named(setup: Setup, k: nat) {
    && setup.options.Some? && k < |setup.options.value|
    && var name := setup.options.value[k].name;
       FindName(setup.options.value, name) == k && '=' !in name
  }

  /** A written long option that is long enough is looked up, and gets its value. */
  lemma LongLooksUp(setup: Setup, k: nat, form: Form, v: string, after: seq<string>)
    requires Named(setup, k) && form != Attached
    requires var name := setup.options.value[k].name; if form == Equals then name + v != "" else |name| >= 2
    ensures var o := setup.options.value[k];
            var arg := Written(setup, Long(k, form, v))[0];
            var body := if form == Equals then o.name + ("=" + v) else o.name;
            Parse(setup, [arg] + after) ==
            ParseValue(setup, o.val, Some(k), LongValue(o.policy, body, First(after)), after)
  {
    var arg := Written(setup, Long(k, form, v))[0];
    var all := [arg] + after;
    assert all[0] == arg && all[1..] == after;
    LongBody(arg, setup.options.value[k].name, form, v);
  }

  /** A long option is found with the argument written for it if and only if its name has two
      characters or an equals sign follows, the form suits the policy, and, where an argument
      may follow but is left out, what follows starts with a dash. */
  lemma LongUseIff(setup: Setup, k: nat, form: Form, v: string, rest: seq<string>)
    requires Named(setup, k) && form != Attached
    ensures var u := Long(k, form, v);
            Parse(setup, Written(setup, u) + rest) == Ahead(Meant(setup, u), Parse(setup, rest))
            <==> UseOk(setup, u)
                 && (form == Absent && setup.options.value[k].policy == OptArg ==> Dashed(rest))
  {
    hide Parse, LongValue;
    var o := setup.options.value[k];
    var w := Written(setup, Long(k, form, v));
    var after := if form == Separate then [v] + rest else rest;
    var f := Found(o.val, Argument(form, v), Some(k));
    assert w + rest == [w[0]] + after;
    assert form == Separate ==> after[1..] == rest;
    if form == Equals && o.name + v == "" {
      TooShort(setup, w[0], after);
      OneDiffers([], Parse(setup, w + rest), f, Parse(setup, rest));
    } else if form != Equals && |o.name| < 2 {
      TooShort(setup, w[0], after);
      OneDiffers([], Parse(setup, w + rest), f, Parse(setup, rest));
    } else {
      var body := if form == Equals then o.name + ("=" + v) else o.name;
      LongLooksUp(setup, k, form, v, after);
      LongFormIff(o.policy, body, o.name, form, v, rest);
      if LongValue(o.policy, body, First(after)) != Value(Argument(form, v), form == Separate) {
        WrongLongValue(o.policy, body, o.name, form, v, after);
        OneDiffers([], Parse(setup, w + rest), f, Parse(setup, rest));
      }
    }
    AheadNothing(Parse(setup, w + rest));
  }

  /** A value other than the one written shows in the text, not only in where it came from. */
  lemma WrongLongValue(policy: Policy, body: string, name: string, form: Form, v: string, after: seq<string>)
    requires '=' !in name && form != Attached
    requires body == if form == Equals then name + ("=" + v) else name
    requires form == Separate ==> after != [] && after[0] == v
    requires LongValue(policy, body, First(after)) != Value(Argument(form, v), form == Separate)
    ensures var r := LongValue(policy, body, First(after)); r.Missing? || r.text != Argument(form, v)
  {
    if form == Equals {
      FirstEquals(name, v);
      assert body[|name| + 1..] == v;
    } else {
      NoEquals(name);
    }
  }

  lemma TooShort(setup: Setup, arg: string, after: seq<string>)
    requires IsLong(arg) && 2 <= |arg| <= 3
    ensures Parse(setup, [arg] + after).found == []
  {
    var all := [arg] + after;
    assert all[0] == arg;
  }

  /** A long option gets the argument written for it if and only if the form suits its policy
      and, where an argument may follow but is left out, what follows starts with a dash. */
  lemma LongFormIff(policy: Policy, body: string, name: string, form: Form, v: string, rest: seq<string>)
    requires '=' !in name && form != Attached
    requires body == if form == Equals then name + ("=" + v) else name
    ensures LongValue(policy, body, First(if form == Separate then [v] + rest else rest))
              == Value(Argument(form, v), form == Separate)
            <==> FormOk(policy, form, v) && (form == Absent && policy == OptArg ==> Dashed(rest))
  {
    if form == Equals {
      FirstEquals(name, v);
      assert body[|name| + 1..] == v;
    } else {
      NoEquals(name);
    }
  }

  /** The parts of a written long option. */
  lemma LongBody(arg: string, name: string, form: Form, v: string)
    requires '=' !in name && (if form == Equals then name + v != "" else |name| >= 2)
    requires arg == if form == Equals then "--" + name + "=" + v else "--" + name
    ensures |arg| > 3 && IsLong(arg) && LongName(arg) == name
    ensures arg[2..] == if form == Equals then name + ("=" + v) else name
  {
    var body := arg[2..];
    if form == Equals {
      assert body == name + ("=" + v);
      FirstEquals(name, v);
    } else {
      assert body == name;
      NoEquals(name);
    }
  }

  lemma FirstEquals(name: string, v: string)
    requires '=' !in name
    ensures IndexOf(name + ("=" + v), '=') == |name|
  {
    var s := name + ("=" + v);
    assert s[|name|] == '=';
    assert forall i :: 0 <= i < |name| ==> s[i] == name[i] && name[i] in name;
  }

  // ---- whole command lines ----

  /** One written use in front of anything that does not look like an argument. */
  lemma ParseUse(setup: Setup, u: Use, rest: seq<string>)
    requires UseOk(setup, u) && Dashed(rest)
    ensures Parse(setup, Written(setup, u) + rest) == Ahead(Meant(setup, u), Parse(setup, rest))
  {
    match u {
      case Flags(fs) =>
        var arg := "-" + fs;
        assert ([arg] + rest)[1..] == rest && arg[1..] == fs && arg[1] == fs[0];
        assert HasPolicy(setup, fs[0], NoArg);
        FlagsElement(setup, fs, rest);
      case Short(fs, c, form, v) =>
        var policy :| policy != NoArg && HasPolicy(setup, c, policy) && FormOk(policy, form, v);
        ShortUse(setup, fs, c, policy, form, v, rest);
        ShortElement(setup, u, rest);
      case Long(k, form, v) =>
        LongUseIff(setup, k, form, v, rest);
    }
  }

  lemma ShortElement(setup: Setup, u: Use, rest: seq<string>)
    requires u.Short? && setup.optstr.Some? && (u.flags + [u.c])[0] != '-'
    ensures Parse(setup, Written(setup, u) + rest)
         == ParseCluster(setup, u.flags + ([u.c] + Tail(u.form, u.value)), if u.form == Separate then [u.value] + rest else rest)
  {
    var w := Written(setup, u);
    var chars := u.flags + ([u.c] + Tail(u.form, u.value));
    assert w[0] == "-" + chars by {
      ShortText(u.flags, u.c, u.form, u.value);
    }
    assert w[0][1..] == chars && chars[0] == (u.flags + [u.c])[0];
    assert (w + rest)[1..] == if u.form == Separate then [u.value] + rest else rest;
  }

  lemma ShortText(fs: string, c: char, form: Form, v: string)
    ensures "-" + (fs + ([c] + Tail(form, v))) ==
            match form
            case Attached => "-" + fs + [c] + v
            case Equals => "-" + fs + [c] + "=" + v
            case _ => "-" + fs + [c]
  {
  }

  lemma UseDashed(setup: Setup, u: Use)
    requires UseOk(setup, u)
    ensures var w := Written(setup, u); w != [] && At(w[0], 0) == '-'
  {
  }

  lemma WrittenDashed(setup: Setup, us: seq<Use>)
    requires UsesOk(setup, us)
    ensures Dashed(WrittenAll(setup, us))
  {
    hide UseOk, Written;
    if us != [] {
      UseDashed(setup, us[0]);
    }
  }

  /** Whatever mix of the documented forms a command line is written in, parsing it finds
      exactly the options meant, with their arguments, in order, and reaches the end. */
  lemma {:induction false} ParseWritten(setup: Setup, us: seq<Use>)
    requires UsesOk(setup, us)
    ensures Parse(setup, WrittenAll(setup, us)) == Run(MeantAll(setup, us), AllRead)
    decreases |us|
  {
    if us != [] {
      var rest := WrittenAll(setup, us[1..]);
      ParseWritten(setup, us[1..]);
      WrittenDashed(setup, us[1..]);
      ParseUse(setup, us[0], rest);
    }
  }

  /** A value that contains an equals sign cannot be attached directly: what stands in front of
      the sign is lost. */
  lemma AttachedEqualsExample(setup: Setup)
    requires setup.optstr == Some("D:")
    ensures ParseCluster(setup, "Da=b", []).found == [Found('D' as int, Some("b"), LongOf(setup, 'D'))]
  {
    var chars := "Da=b";
    assert chars[1..] == "a=b";
    assert "a=b"[1..] == "=b" && "a=b"[2..] == "b";
    assert IndexOf("D:", 'D') == 0;
    assert IndexOf("=b", '=') == 0 && IndexOf("a=b", '=') == 1;
  }

  // ---- what becomes of each element ----

  /** An element is used up as the one that holds options, or as the argument of the option in
      front of it. */
  datatype Role = AsOptions(element: nat) | AsArgument(element: nat, text: Option<string>)

  /** What one call uses up. */
  function CallRoles(p: Place, f: Found, p': Place): seq<Role> {
    if p'.i <= p.i then []
    else if p'.i == p.i + 1 then [AsOptions(p.i)]
    else [AsOptions(p.i), AsArgument(p.i + 1, f.value)]
  }

  /** What a run uses up, in order. */
  function Roles(setup: Setup, args: seq<string>, p: Place): seq<Role>
    requires PlaceOk(args, p) && (p.next.Some? ==> setup.optstr.Some?)
    decreases Left(args, p).0, Left(args, p).1
  {
    if !CallOk(setup, args, p) then []
    else
      var (r, p') := Call(setup, args, p);
      if !r.Opt? then []
      else
        CallAdvances(setup, args, p);
        CallRoles(p, r.found, p') + Roles(setup, args, p')
  }

  /** The roles are those of the elements from i on, each once, in order; elements with
      options start with a dash; arguments are reported as they are. */
  ghost predicate OneRoleEach(args: seq<string>, i: nat, roles: seq<Role>) {
    && i + |roles| == |args|
    && forall k :: 0 <= k < |roles| ==> RoleOk(args, i + k, roles[k])
  }

  ghost predicate RoleOk(args: seq<string>, e: nat, role: Role)
    requires e < |args|
  {
    && role.element == e
    && (role.AsOptions? ==> At(args[e], 0) == '-')
    && (role.AsArgument? ==> role.text == Some(args[e]))
  }

  /** A value that is taken from the next element is that element. */
  lemma TakenIsNext(policy: Policy, body: string, next: Option<string>)
    ensures var v := LongValue(policy, body, next); v.Value? && v.taken ==> next.Some? && v.text == next
    ensures policy != NoArg ==>
              var v := ShortValue(policy, body, next); v.Value? && v.taken ==> next.Some? && v.text == next
  {
  }

  /** What a call that finds an option uses up. */
  lemma CallTakes(setup: Setup, args: seq<string>, p: Place)
    requires PlaceOk(args, p) && CallOk(setup, args, p)
    requires p.next.Some? ==> setup.optstr.Some? && At(args[p.i], 0) == '-'
    requires Call(setup, args, p).0.Opt?
    ensures var (r, p') := Call(setup, args, p);
            var roles := CallRoles(p, r.found, p');
            && p.i + |roles| == p'.i <= |args|
            && (forall k :: 0 <= k < |roles| ==> RoleOk(args, p.i + k, roles[k]))
            && (p'.next.Some? ==> p'.i < |args| && At(args[p'.i], 0) == '-')
  {
    hide LongValue, ShortValue, PolicyAt, LongOf, LongName;
    if p.next.Some? {
      ShortTakes(setup, args, p.i, p.next.value);
    } else if IsLong(args[p.i]) {
      LongTakes(setup, args, p.i);
    } else {
      ShortTakes(setup, args, p.i, 1);
    }
  }

  lemma LongTakes(setup: Setup, args: seq<string>, i: nat)
    requires i < |args| && IsLong(args[i]) && |args[i]| >= 2
    ensures var (r, p') := LongCall(setup, args, i);
            r.Opt? ==> p'.next.None? && OneOrTwo(args, i, r.found, p')
  {
    hide LongValue, LongName, FindName;
    if setup.options.Some? {
      var k := FindName(setup.options.value, LongName(args[i]));
      if k < |setup.options.value| {
        TakenIsNext(setup.options.value[k].policy, args[i][2..], NextArg(args, i));
      }
    }
  }

  lemma ShortTakes(setup: Setup, args: seq<string>, i: nat, at: nat)
    requires i < |args| && 0 < at < |args[i]| && setup.optstr.Some?
    ensures var (r, p') := ShortCall(setup, args, i, at);
            r.Opt? ==> (p' == Place(i, Some(at + 1)) && at + 1 < |args[i]|) || OneOrTwo(args, i, r.found, p')
  {
    hide LongValue, ShortValue, PolicyAt, LongOf;
    var j := IndexOf(setup.optstr.value, args[i][at]);
    if j < |setup.optstr.value| {
      TakenIsNext(PolicyAt(setup.optstr.value, j), args[i][at + 1..], NextArg(args, i));
    }
  }

  /** The element is done with, and perhaps the next one, whose text is the value. */
  predicate OneOrTwo(args: seq<string>, i: nat, f: Found, p: Place) {
    p == Place(i + 1, None) || (p == Place(i + 2, None) && i + 1 < |args| && f.value == Some(args[i + 1]))
  }

  lemma JoinRoles(args: seq<string>, i: nat, first: seq<Role>, more: seq<Role>)
    requires i + |first| <= |args| && OneRoleEach(args, i + |first|, more)
    requires forall k :: 0 <= k < |first| ==> RoleOk(args, i + k, first[k])
    ensures OneRoleEach(args, i, first + more)
  {
    var j := i + |first|;
    forall k | 0 <= k < |first + more| ensures RoleOk(args, i + k, (first + more)[k]) {
      if k >= |first| {
        assert RoleOk(args, j + (k - |first|), more[k - |first|]);
      }
    }
  }

  /** In a run that reads everything each element from the start on has exactly one role. */
  lemma {:induction false} EachElementOnce(setup: Setup, args: seq<string>, p: Place)
    requires PlaceOk(args, p) && (p.next.Some? ==> setup.optstr.Some? && At(args[p.i], 0) == '-')
    requires RunFrom(setup, args, p).end == AllRead
    ensures OneRoleEach(args, p.i, Roles(setup, args, p))
    decreases Left(args, p).0, Left(args, p).1
  {
    hide LongCall, ShortCall, OneRoleEach, RoleOk;
    var (r, p') := Call(setup, args, p);
    if r.Opt? {
      CallAdvances(setup, args, p);
      CallTakes(setup, args, p);
      EachElementOnce(setup, args, p');
      JoinRoles(args, p.i, CallRoles(p, r.found, p'), Roles(setup, args, p'));
    } else {
      FinishedAtEnd(setup, args, p);
    }
  }

  lemma FinishedAtEnd(setup: Setup, args: seq<string>, p: Place)
    requires PlaceOk(args, p) && CallOk(setup, args, p) && (p.next.Some? ==> setup.optstr.Some?)
    ensures Call(setup, args, p).0.Finished? ==> p.i == |args|
    ensures OneRoleEach(args, |args|, [])
  {
  }
}
