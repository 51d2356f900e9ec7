/** What option strings declare, and what a command line is refused for: options that were not
    declared, arguments that are missing, elements that are no options. */
module GetOptRefusals {
  import opened Common
  import opened GetOptSpec
  import opened GetOptMeaning

  // ---- option strings ----

  /** An option character and what it declares about an argument. */
  datatype Declared = Declared(c: char, policy: Policy)

  function Colons(policy: Policy): string {
    match policy
    case NoArg => ""
    case ReqArg => ":"
    case OptArg => "::"
  }

  /** The documented way to write an option string. */
  function OptStr(ds: seq<Declared>): string {
    if ds == [] then "" else [ds[0].c] + Colons(ds[0].policy) + OptStr(ds[1..])
  }

  ghost predicate Declarable(ds: seq<Declared>) {
    && (forall i :: 0 <= i < |ds| ==> ds[i].c != ':')
    && (forall i, j :: 0 <= i < j < |ds| ==> ds[i].c != ds[j].c)
  }

  lemma {:induction false} IndexBehind(x: string, s: string, c: char)
    requires c !in x
    ensures IndexOf(x + s, c) == |x| + IndexOf(s, c)
  {
    if x == "" {
      assert x + s == s;
    } else {
      assert x[0] in x && (x + s)[1..] == x[1..] + s;
      IndexBehind(x[1..], s, c);
    }
  }

  lemma PolicyBehind(x: string, s: string, j: nat)
    ensures PolicyAt(x + s, |x| + j) == PolicyAt(s, j)
  {
  }

  lemma DeclaredFirst(ds: seq<Declared>)
    requires Declarable(ds) && ds != []
    ensures IndexOf(OptStr(ds), ds[0].c) == 0 && PolicyAt(OptStr(ds), 0) == ds[0].policy
  {
    var rest := OptStr(ds[1..]);
    assert |ds| > 1 ==> rest[0] == ds[1].c;
  }

  /** An option string declares each of its options as it was written. */
  lemma {:induction false} DeclaredPolicy(ds: seq<Declared>, i: nat)
    requires Declarable(ds) && i < |ds|
    ensures var j := IndexOf(OptStr(ds), ds[i].c);
            j < |OptStr(ds)| && PolicyAt(OptStr(ds), j) == ds[i].policy
  {
    if i == 0 {
      DeclaredFirst(ds);
    } else {
      DeclaredPolicy(ds[1..], i - 1);
      var x, s := [ds[0].c] + Colons(ds[0].policy), OptStr(ds[1..]);
      IndexBehind(x, s, ds[i].c);
      PolicyBehind(x, s, IndexOf(s, ds[i].c));
    }
  }

  /** And it declares no others. */
  lemma {:induction false} DeclaredOnly(ds: seq<Declared>, c: char)
    requires c != ':'
    ensures c in OptStr(ds) <==> exists i :: 0 <= i < |ds| && ds[i].c == c
  {
    if ds != [] {
      DeclaredOnly(ds[1..], c);
      assert forall i :: 1 <= i < |ds| ==> ds[i] == ds[1..][i - 1];
      if i :| 0 <= i < |ds[1..]| && ds[1..][i].c == c {
        assert ds[i + 1].c == c;
      }
    }
  }

  /** The long option reported with a short one is the first with its value. */
  lemma LongOfIs(setup: Setup, c: char)
    ensures match LongOf(setup, c)
            case None => setup.options.None? || forall o <- setup.options.value :: o.val != c as int
            case Some(k) => setup.options.Some? && k < |setup.options.value| && setup.options.value[k].val == c as int
                            && forall i :: 0 <= i < k ==> setup.options.value[i].val != c as int
  {
  }

  // ---- short options ----

  lemma NotIndexed(s: string, c: char)
    ensures IndexOf(s, c) == |s| <==> c !in s
  {
    assert IndexOf(s, c) < |s| ==> s[IndexOf(s, c)] in s;
  }

  /** An element that starts like this is one of short options. */
  lemma ShortStart(setup: Setup, chars: string, rest: seq<string>)
    requires setup.optstr.Some? && chars != "" && chars[0] != '-'
    ensures Parse(setup, ["-" + chars] + rest) == ParseCluster(setup, chars, rest)
  {
    var all := ["-" + chars] + rest;
    assert all[0] == "-" + chars && all[1..] == rest && all[0][1..] == chars;
  }

  /** An option that is not in the option string is refused, whatever follows; the plain
      options in front of it in its element are found. */
  lemma UnknownShort(setup: Setup, flags: string, c: char, more: string, rest: seq<string>)
    requires setup.optstr.Some? && PlainOptions(setup, flags) && c !in setup.optstr.value
    requires (flags + [c])[0] != '-'
    ensures Parse(setup, ["-" + (flags + ([c] + more))] + rest) == Run(PlainFound(setup, flags), Rejected)
  {
    hide Parse;
    var chars := flags + ([c] + more);
    assert chars[0] == (flags + [c])[0];
    ShortStart(setup, chars, rest);
    ClusterFlags(setup, flags, [c] + more, rest);
    NotIndexed(setup.optstr.value, c);
    assert PlainFound(setup, flags) + [] == PlainFound(setup, flags);
  }

  /** A required argument must be there and must not be empty behind an equals sign. */
  lemma MissingShort(setup: Setup, flags: string, c: char, rest: seq<string>)
    requires setup.optstr.Some? && PlainOptions(setup, flags) && HasPolicy(setup, c, ReqArg)
    requires (flags + [c])[0] != '-'
    ensures Parse(setup, ["-" + (flags + [c])]) == Run(PlainFound(setup, flags), Rejected)
    ensures Parse(setup, ["-" + (flags + [c, '='])] + rest) == Run(PlainFound(setup, flags), Rejected)
  {
    hide Parse;
    assert (flags + [c, '='])[0] == (flags + [c])[0];
    assert PlainFound(setup, flags) + [] == PlainFound(setup, flags);
    assert ["-" + (flags + [c])] + [] == ["-" + (flags + [c])];
    ShortStart(setup, flags + [c], []);
    ClusterFlags(setup, flags, [c], []);
    ShortStart(setup, flags + [c, '='], rest);
    ClusterFlags(setup, flags, [c, '='], rest);
    assert [c][1..] == "" && [c, '='][1..] == "=" && "="[1..] == "";
    assert IndexOf("=", '=') == 0;
  }

  /** An empty argument behind an equals sign is none, where it is optional. */
  lemma EmptyOptionalShort(setup: Setup, flags: string, c: char, rest: seq<string>)
    requires setup.optstr.Some? && PlainOptions(setup, flags) && HasPolicy(setup, c, OptArg)
    requires (flags + [c])[0] != '-'
    ensures Parse(setup, ["-" + (flags + [c, '='])] + rest)
         == Ahead(PlainFound(setup, flags) + [Found(c as int, None, LongOf(setup, c))], Parse(setup, rest))
  {
    hide Parse;
    assert (flags + [c, '='])[0] == (flags + [c])[0];
    ShortStart(setup, flags + [c, '='], rest);
    ClusterFlags(setup, flags, [c, '='], rest);
    assert [c, '='][1..] == "=" && "="[1..] == "";
    assert IndexOf("=", '=') == 0;
    AheadTwice(PlainFound(setup, flags), [Found(c as int, None, LongOf(setup, c))], Parse(setup, rest));
  }

  // ---- long options ----

  /** A long option that was not declared is refused, with and without a value. */
  lemma UnknownLong(setup: Setup, name: string, tail: string, rest: seq<string>)
    requires '=' !in name && (tail == "" || tail[0] == '=') && name + tail != ""
    requires setup.options.Some? ==> forall o <- setup.options.value :: o.name != name
    ensures Parse(setup, ["--" + (name + tail)] + rest) == Run([], Rejected)
  {
    var arg := "--" + (name + tail);
    var all := [arg] + rest;
    assert all[0] == arg && all[1..] == rest && arg[2..] == name + tail;
    NameUpTo(name, tail);
    assert |arg| > 3 ==> LongName(arg) == name;
  }

  lemma NameUpTo(name: string, tail: string)
    requires '=' !in name && (tail == "" || tail[0] == '=')
    ensures IndexOf(name + tail, '=') == |name| && (name + tail)[..|name|] == name
  {
    if tail == "" {
      NoEquals(name + tail);
    } else {
      assert tail == "=" + tail[1..];
      FirstEquals(name, tail[1..]);
    }
  }

  /** Without long options, elements of two dashes are refused too. */
  lemma NoLongOptions(setup: Setup, body: string, rest: seq<string>)
    requires setup.options.None?
    ensures Parse(setup, ["--" + body] + rest) == Run([], Rejected)
  {
    var all := ["--" + body] + rest;
    assert all[0] == "--" + body;
  }

  /** What stands behind the equals sign of a long option, by its policy: without arguments it
      is ignored; empty, it is refused where required and none where optional. */
  lemma LongEquals(setup: Setup, k: nat, v: string, rest: seq<string>)
    requires Named(setup, k) && setup.options.value[k].name + v != ""
    ensures var o := setup.options.value[k];
            Parse(setup, ["--" + (o.name + ("=" + v))] + rest) ==
            if v == "" && o.policy == ReqArg then Run([], Rejected)
            else Ahead([Found(o.val, if v == "" || o.policy == NoArg then None else Some(v), Some(k))],
                       Parse(setup, rest))
  {
    hide Parse;
    var o := setup.options.value[k];
    assert "--" + o.name + "=" + v == "--" + (o.name + ("=" + v));
    LongLooksUp(setup, k, Equals, v, rest);
    FirstEquals(o.name, v);
    assert (o.name + ("=" + v))[|o.name| + 1..] == v;
  }

  /** A required argument must follow. */
  lemma MissingLong(setup: Setup, k: nat)
    requires Named(setup, k) && setup.options.value[k].policy == ReqArg
    requires setup.options.value[k].name != ""
    ensures Parse(setup, ["--" + setup.options.value[k].name]) == Run([], Rejected)
  {
    var o := setup.options.value[k];
    if |o.name| >= 2 {
      LongLooksUp(setup, k, Separate, "", []);
      NoEquals(o.name);
      assert ["--" + o.name] + [] == ["--" + o.name];
    }
  }

  // ---- other elements ----

  /** The first element that is no option ends the run, as does a single dash, and a short
      option where none are configured. */
  lemma NoOption(setup: Setup, arg: string, rest: seq<string>)
    requires arg != "" && (arg[0] != '-' || |arg| == 1 || (arg[1] != '-' && setup.optstr.None?))
    ensures Parse(setup, [arg] + rest) == Run([], Rejected)
  {
    var all := [arg] + rest;
    assert all[0] == arg;
  }
}
