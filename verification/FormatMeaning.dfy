/** What the format rewriter means: on format strings built from literal text, `%%`, `%/`,
    `%Ps`, `%Pc` and ordinary conversions, which strings come out. */
module FormatMeaning {
  import opened FormatConv

  // ---- strings it leaves alone ----

  /** s has no `%%`, no `%/` and no P. */
  ghost predicate Plain(s: string) {
    && 'P' !in s
    && forall i :: 0 <= i < |s| - 1 && s[i] == '%' ==> s[i + 1] != '%' && s[i + 1] != '/'
  }

  lemma PlainTail(s: string, k: nat)
    requires Plain(s) && k <= |s|
    ensures Plain(s[k..])
  {
    var t := s[k..];
    forall i | 0 <= i < |t| - 1 && t[i] == '%' ensures t[i + 1] != '%' && t[i + 1] != '/' {
      assert s[k + i] == '%';
    }
  }

  /** The rewriter is the identity on plain strings. */
  lemma {:induction false} PlainUnchanged(s: string)
    requires Plain(s)
    ensures Rewrite(s) == s
    decreases |s|, 1
  {
    if s != "" {
      PlainTail(s, 1);
      assert s == [s[0]] + s[1..];
      if s[0] == '%' {
        PlainSpecUnchanged(s[1..]);
      } else {
        PlainUnchanged(s[1..]);
      }
    }
  }

  lemma {:induction false} PlainSpecUnchanged(t: string)
    requires Plain(t)
    ensures RewriteSpec(t) == t
    decreases |t|, 2
  {
    if t != "" {
      PlainTail(t, 1);
      assert t[0] in t;
      assert t == [t[0]] + t[1..];
      if t[0] == '%' {
        PlainUnchanged(t);
      } else if IsFlag(t[0]) {
        PlainSpecUnchanged(t[1..]);
      } else {
        PlainUnchanged(t[1..]);
      }
    }
  }

  // ---- strings built from tokens ----

  datatype Token =
    | Lit(text: string)
    | Percent
    | Separator
    | Portable(flags: string, c: char)
    | Conv(flags: string, c: char)

  /** What may stand between the percent sign and the conversion of a platform's format: flags,
      width, position, precision and length. */
  predicate PlatformFlag(c: char) {
    '0' <= c <= '9' || c in "-+ #'" || c in "*.$" || c in "hlLqjzt"
  }

  /** Those of them that the rewriter does not know. */
  predicate Missed(c: char) {
    c == '3' || c == '#' || c == '$' || c == 't'
  }

  predicate NoneMissed(s: string) {
    forall i :: 0 <= i < |s| ==> !Missed(s[i])
  }

  predicate Scanned(c: char) {
    PlatformFlag(c) && !Missed(c)
  }

  /** The rewriter's own list is exactly the platform's without those four. */
  lemma ListedIff(c: char)
    ensures IsFlag(c) <==> Scanned(c)
  {
  }

  ghost predicate TokenOk(t: Token) {
    match t
    case Lit(s) => s != "" && '%' !in s
    case Portable(flags, c) => FlagsOk(flags) && c in "sc"
    case Conv(flags, c) => FlagsOk(flags) && !PlatformFlag(c) && c != '%' && c != 'P' && (c == '/' ==> flags != "")
    case _ => true
  }

  ghost predicate FlagsOk(s: string) {
    forall i :: 0 <= i < |s| ==> PlatformFlag(s[i])
  }

  /** No two neighbouring literals. */
  ghost predicate TokensOk(ts: seq<Token>) {
    && (forall i :: 0 <= i < |ts| ==> TokenOk(ts[i]))
    && (forall i :: 0 < i < |ts| && ts[i - 1].Lit? ==> !ts[i].Lit?)
  }

  /** As written in the library's format language. */
  function Source(t: Token): string {
    match t
    case Lit(s) => s
    case Percent => "%%"
    case Separator => "%/"
    case Portable(flags, c) => "%" + flags + "P" + [c]
    case Conv(flags, c) => "%" + flags + [c]
  }

  /** As meant in the platform's: on Unix the separator is a slash and portable characters
      are plain ones. A percent sign is doubled there too. */
  function Target(t: Token): string {
    match t
    case Separator => "/"
    case Portable(flags, c) => "%" + flags + [c]
    case _ => Source(t)
  }

  function SourceAll(ts: seq<Token>): string {
    if ts == [] then "" else Source(ts[0]) + SourceAll(ts[1..])
  }

  function TargetAll(ts: seq<Token>): string {
    if ts == [] then "" else Target(ts[0]) + TargetAll(ts[1..])
  }

  /** Literal text right behind a path separator is still scanned as a specification: after
      flag characters Ps and Pc lose their P. */
  function Collapse(s: string): (r: string)
    ensures |r| <= |s|
    ensures |r| == |s| <==> r == s
  {
    if s == "" then s
    else if s[0] == 'P' then if |s| > 1 && s[1] in "sc" then s[1..] else s
    else if Scanned(s[0]) then
      assert s == [s[0]] + s[1..];
      [s[0]] + Collapse(s[1..])
    else s
  }

  /** What the rewriter makes of a token. A doubled percent sign comes out single, and a
      portable specification with a character that is not in the source's list is not taken
      for one. */
  function Rendered(t: Token, afterSeparator: bool): string {
    match t
    case Lit(s) => if afterSeparator then Collapse(s) else s
    case Percent => "%"
    case Portable(flags, _) => if NoneMissed(flags) then Target(t) else Source(t)
    case _ => Target(t)
  }

  function Output(ts: seq<Token>, afterSeparator: bool): string {
    if ts == [] then "" else Rendered(ts[0], afterSeparator) + Output(ts[1..], ts[0].Separator?)
  }

  lemma FlagIsPlain(c: char)
    requires Scanned(c)
    ensures c != '%' && c != 'P'
  {
  }

  lemma SpecFlag(c: char, t: string)
    requires Scanned(c)
    ensures RewriteSpec([c] + t) == [c] + RewriteSpec(t)
  {
    hide Scanned, IsFlag;
    ListedIff(c);
    FlagIsPlain(c);
    assert ([c] + t)[1..] == t;
  }

  lemma SpecPortable(c: char, t: string)
    requires c in "sc"
    ensures RewriteSpec(['P', c] + t) == [c] + Rewrite(t)
  {
    assert (['P', c] + t)[2..] == t;
  }

  lemma SpecConv(c: char, t: string)
    requires c != '%' && !Scanned(c) && (c == 'P' ==> t == "" || t[0] !in "sc")
    ensures RewriteSpec([c] + t) == [c] + Rewrite(t)
  {
    hide Scanned, IsFlag;
    ListedIff(c);
    assert ([c] + t)[1..] == t;
  }

  /** The specification that w opens ends within w. */
  predicate Ends(w: string) {
    w != "" && (if w[0] == 'P' then |w| > 1 else Scanned(w[0]) ==> Ends(w[1..]))
  }

  /** The characters of a specification, or of literal text behind a separator, up to where
      the specification is over or cut off. */
  lemma {:induction false} SpecWord(s: string, t: string)
    requires '%' !in s && (Ends(s) || t == "" || t[0] == '%')
    ensures RewriteSpec(s + t) == Collapse(s) + Rewrite(t)
    decreases |s|
  {
    if s == "" {
      assert s + t == t;
    } else {
      var s1 := s[1..];
      assert s == [s[0]] + s1 && s[0] in s;
      Assoc([s[0]], s1, t);
      if s[0] == 'P' && |s| > 1 && s[1] in "sc" {
        assert s + t == ['P', s[1]] + (s[2..] + t) && s1 == [s[1]] + s[2..];
        SpecPortable(s[1], s[2..] + t);
        RewriteText(s[2..], t);
        Assoc([s[1]], s[2..], Rewrite(t));
      } else if s[0] != 'P' && Scanned(s[0]) {
        SpecFlag(s[0], s1 + t);
        SpecWord(s1, t);
        Assoc([s[0]], Collapse(s1), Rewrite(t));
      } else {
        SpecConv(s[0], s1 + t);
        RewriteText(s1, t);
        Assoc([s[0]], s1, Rewrite(t));
      }
    }
  }

  /** Flags in front of a portable or an ordinary conversion. */
  lemma {:induction false} SpecShape(flags: string, c: char)
    requires FlagsOk(flags)
    ensures c in "sc" ==> Ends(flags + ['P', c])
    ensures c in "sc" ==> Collapse(flags + ['P', c]) == if NoneMissed(flags) then flags + [c] else flags + ['P', c]
    ensures c != 'P' && !PlatformFlag(c) ==> Ends(flags + [c]) && Collapse(flags + [c]) == flags + [c]
  {
    if flags == "" {
      assert flags + ['P', c] == ['P', c] && ['P', c][1..] == [c] && flags + [c] == [c];
    } else {
      var f, rest := flags[0], flags[1..];
      assert flags == [f] + rest;
      assert (flags + ['P', c])[1..] == rest + ['P', c] && (flags + [c])[1..] == rest + [c];
      assert NoneMissed(flags) <==> Scanned(f) && NoneMissed(rest);
      SpecShape(rest, c);
      Assoc([f], rest, ['P', c]);
      Assoc([f], rest, [c]);
    }
  }

  /** A whole specification, with its percent sign and what follows it. */
  lemma RewriteWord(w: string, t: string)
    requires '%' !in w && Ends(w) && w[0] != '/'
    ensures Rewrite("%" + w + t) == "%" + Collapse(w) + Rewrite(t)
  {
    Assoc("%", w, t);
    Assoc("%", Collapse(w), Rewrite(t));
    assert (w + t)[0] == w[0] && w[0] in w;
    RewriteOpen(w + t);
    SpecWord(w, t);
  }

  lemma NoMarks(flags: string, w: string)
    requires FlagsOk(flags) && '%' !in w && w != ""
    ensures '%' !in flags + w && (flags + w)[0] == if flags == "" then w[0] else flags[0]
    ensures flags != "" ==> flags[0] != '/'
  {
  }

  lemma PortableToken(flags: string, c: char, t: string)
    requires TokenOk(Portable(flags, c))
    ensures Rewrite(Source(Portable(flags, c)) + t) == Rendered(Portable(flags, c), false) + Rewrite(t)
  {
    hide Rewrite, Ends, Collapse;
    SpecShape(flags, c);
    NoMarks(flags, ['P', c]);
    var w := flags + ['P', c];
    assert "%" + flags + "P" + [c] == "%" + w && "%" + flags + [c] == "%" + (flags + [c]);
    RewriteWord(w, t);
  }

  lemma ConvToken(flags: string, c: char, t: string)
    requires TokenOk(Conv(flags, c))
    ensures Rewrite(Source(Conv(flags, c)) + t) == Rendered(Conv(flags, c), false) + Rewrite(t)
  {
    hide Rewrite, Ends, Collapse;
    SpecShape(flags, c);
    NoMarks(flags, [c]);
    var w := flags + [c];
    assert "%" + flags + [c] == "%" + w;
    RewriteWord(w, t);
  }

  /** One token other than a literal or a separator, with what follows it. */
  lemma RewriteToken(k: Token, t: string)
    requires TokenOk(k) && (k.Percent? || k.Portable? || k.Conv?)
    ensures Rewrite(Source(k) + t) == Rendered(k, false) + Rewrite(t)
  {
    match k {
      case Percent => RewritePercent(t);
      case Portable(flags, c) => PortableToken(flags, c, t);
      case Conv(flags, c) => ConvToken(flags, c, t);
    }
  }

  lemma SourceStart(ts: seq<Token>)
    requires TokensOk(ts) && (ts != [] ==> !ts[0].Lit?)
    ensures SourceAll(ts) == "" || SourceAll(ts)[0] == '%'
  {
  }

  lemma TokensTail(ts: seq<Token>)
    requires TokensOk(ts) && ts != []
    ensures TokensOk(ts[1..])
  {
    var r := ts[1..];
    forall i | 0 < i < |r| && r[i - 1].Lit? ensures !r[i].Lit? {
      assert ts[i].Lit?;
    }
  }

  /** The rewriter's result on any list of tokens, read outside or, behind a separator,
      still inside a specification. */
  lemma {:induction false} RewriteTokens(ts: seq<Token>)
    requires TokensOk(ts)
    ensures Rewrite(SourceAll(ts)) == Output(ts, false)
    ensures RewriteSpec(SourceAll(ts)) == Output(ts, true)
    decreases |ts|
  {
    if ts != [] {
      TokensTail(ts);
      var rest := SourceAll(ts[1..]);
      RewriteTokens(ts[1..]);
      assert ts == [ts[0]] + ts[1..];
      match ts[0] {
        case Lit(s) =>
          RewriteText(s, rest);
          SourceStart(ts[1..]);
          SpecWord(s, rest);
        case Separator =>
          RewriteSlash(rest);
        case _ =>
          RewriteToken(ts[0], rest);
      }
    }
  }

  /** Literal text that a separator in front of it would change. */
  predicate Collapses(s: string) {
    Collapse(s) != s
  }

  /** Tokens that come out as something else. Literals do so behind a separator only. */
  predicate Garbled(t: Token, afterSeparator: bool) {
    match t
    case Percent => true
    case Portable(flags, _) => !NoneMissed(flags)
    case Lit(s) => afterSeparator && Collapses(s)
    case _ => false
  }

  /** Token i of ts, read where it stands. */
  predicate GarbledAt(ts: seq<Token>, i: nat, after: bool)
    requires i < |ts|
  {
    Garbled(ts[i], if i == 0 then after else ts[i - 1].Separator?)
  }

  /** How many percent signs s starts with. */
  function Lead(s: string): nat {
    if s != "" && s[0] == '%' then 1 + Lead(s[1..]) else 0
  }

  lemma LeadOne(s: string)
    requires |s| > 1 && s[0] == '%' && s[1] != '%'
    ensures Lead(s) == 1
  {
  }

  lemma SpecStart(t: Token, more: string, more': string)
    requires TokenOk(t) && (t.Portable? || t.Conv?)
    ensures Lead(Rendered(t, false) + more) == 1 == Lead(Target(t) + more')
  {
    var r, g := Rendered(t, false), Target(t);
    assert r[0] == g[0] == '%' && r[1] != '%' && g[1] != '%' by {
      assert t.flags != "" ==> t.flags[0] != '%';
    }
    LeadOne(r + more);
    LeadOne(g + more');
  }

  /** What comes out never starts with more percent signs than what is meant. */
  lemma {:induction false} LeadingPercents(ts: seq<Token>)
    requires TokensOk(ts)
    ensures Lead(Output(ts, false)) <= Lead(TargetAll(ts))
    decreases |ts|
  {
    if ts != [] {
      var o, t := Output(ts[1..], ts[0].Separator?), TargetAll(ts[1..]);
      match ts[0] {
        case Percent =>
          TokensTail(ts);
          LeadingPercents(ts[1..]);
          assert ("%" + o)[1..] == o && ("%%" + t)[1..] == "%" + t && ("%" + t)[1..] == t;
        case Lit(s) =>
          assert s[0] in s && (s + o)[0] == s[0];
        case Separator =>
        case _ => SpecStart(ts[0], o, t);
      }
    }
  }

  /** Where collapsing first shows, the P is gone. */
  lemma {:induction false} CollapseShows(s: string, more: string, more': string)
    requires Collapses(s)
    ensures Collapse(s) + more != s + more'
  {
    var c := Collapse(s);
    if s[0] == 'P' {
      assert (c + more)[0] == s[1] && (s + more')[0] == 'P';
    } else {
      CollapseShows(s[1..], more, more');
      assert (c + more)[1..] == Collapse(s[1..]) + more && (s + more')[1..] == s[1..] + more';
    }
  }

  lemma FlagShows(flags: string, c: char, more: string, more': string)
    requires c in "sc"
    ensures "%" + flags + "P" + [c] + more != "%" + flags + [c] + more'
  {
    var n := 1 + |flags|;
    assert ("%" + flags + "P" + [c] + more)[n] == 'P';
    assert ("%" + flags + [c] + more')[n] == c;
  }

  lemma PercentShows(o: string, t: string)
    requires Lead(o) <= Lead(t)
    ensures "%" + o != "%%" + t
  {
    assert ("%" + o)[1..] == o && ("%%" + t)[1..] == "%" + t && ("%" + t)[1..] == t;
  }

  lemma FirstToken(ts: seq<Token>)
    requires TokensOk(ts) && ts != []
    ensures TokenOk(ts[0])
  {
  }

  /** A garbled token cannot be made up for by what follows it. */
  lemma GarbledShows(ts: seq<Token>, after: bool)
    requires TokensOk(ts) && ts != [] && Garbled(ts[0], after)
    ensures Output(ts, after) != TargetAll(ts)
  {
    hide Collapses, Collapse, TokensOk;
    var o, t := Output(ts[1..], ts[0].Separator?), TargetAll(ts[1..]);
    match ts[0] {
      case Percent =>
        TokensTail(ts);
        LeadingPercents(ts[1..]);
        PercentShows(o, t);
      case Portable(flags, c) =>
        assert TokenOk(ts[0]) by { FirstToken(ts); }
        FlagShows(flags, c, o, t);
      case Lit(s) => CollapseShows(s, o, t);
    }
  }

  lemma SamePrefix(x: string, a: string, b: string)
    ensures x + a == x + b <==> a == b
  {
    assert (x + a)[|x|..] == a && (x + b)[|x|..] == b;
  }

  lemma {:induction false} OutputIsTargetIff(ts: seq<Token>, after: bool)
    requires TokensOk(ts)
    ensures Output(ts, after) == TargetAll(ts) <==> forall i :: 0 <= i < |ts| ==> !GarbledAt(ts, i, after)
    decreases |ts|
  {
    if ts != [] {
      TokensTail(ts);
      OutputIsTargetIff(ts[1..], ts[0].Separator?);
      if Garbled(ts[0], after) {
        GarbledShows(ts, after);
        assert GarbledAt(ts, 0, after);
      } else {
        SamePrefix(Target(ts[0]), Output(ts[1..], ts[0].Separator?), TargetAll(ts[1..]));
        GarbledTail(ts, after);
      }
    }
  }

  lemma GarbledTail(ts: seq<Token>, after: bool)
    requires ts != [] && !Garbled(ts[0], after)
    ensures (forall i :: 0 <= i < |ts| ==> !GarbledAt(ts, i, after)) <==>
            (forall i :: 0 <= i < |ts| - 1 ==> !GarbledAt(ts[1..], i, ts[0].Separator?))
  {
    forall i | 0 <= i < |ts| - 1 ensures GarbledAt(ts[1..], i, ts[0].Separator?) == GarbledAt(ts, i + 1, after) {
    }
    if !(forall i :: 0 <= i < |ts| ==> !GarbledAt(ts, i, after)) {
      var i :| 0 <= i < |ts| && GarbledAt(ts, i, after);
      assert GarbledAt(ts[1..], i - 1, ts[0].Separator?);
    }
  }

  /** The rewriter makes of a token list what it means if and only if no token is garbled where
      it stands: no doubled percent sign, no portable specification with a 3, '#', '$' or 't'
      among its flags, and behind no path separator a literal that reads as flags and Ps or Pc. */
  lemma RewriteIsFaithfulIff(ts: seq<Token>)
    requires TokensOk(ts)
    ensures Rewrite(SourceAll(ts)) == TargetAll(ts) <==> forall i :: 0 <= i < |ts| ==> !GarbledAt(ts, i, false)
  {
    RewriteTokens(ts);
    OutputIsTargetIff(ts, false);
  }

  /** A doubled percent sign in front of a d comes out as a conversion of an integer. */
  lemma PercentExample()
    ensures Rewrite("%%d") == "%d"
  {
    RewriteText("d", "");
    assert "%%" + "d" == "%%d" && "d" + "" == "d" && "%" + "d" == "%d";
    RewritePercent("d");
  }

  lemma EmptyFormat()
    ensures Rewrite("") == ""
  {
  }

  /** A field width with a 3 hides the P. */
  lemma WidthExample()
    ensures Rewrite("%3Ps") == "%3Ps"
  {
    hide Rewrite;
    assert "%" + "3Ps" + "" == "%3Ps" && !Scanned("3Ps"[0]);
    EmptyFormat();
    RewriteWord("3Ps", "");
  }

  /** The name behind a path separator loses its P. */
  lemma SeparatorExample()
    ensures Rewrite("%/Psalm") == "/salm"
  {
    SpecWord("Psalm", "");
    assert "Psalm" + "" == "Psalm" && "%/" + "Psalm" == "%/Psalm" && Collapse("Psalm") == "salm";
    RewriteSlash("Psalm");
  }
}
