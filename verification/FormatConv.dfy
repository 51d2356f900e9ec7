/** The format rewriter of src/io/fmtconv.c, in its Unix narrow-character build: it turns the
    library's portable format strings into the platform's, writing into a caller's buffer or,
    when that is too small, into a new one of the input's size. */
module FormatConv {

  /** Flag, width, precision and length characters: the scan goes on after them. The source's
      list has no '3', '#', '$' and 't'. */
  predicate IsFlag(c: char) {
    c in "hl012456789-+ '*.Lqjz"
  }

  /** The rewritten form of s, read outside any format specification. */
  function Rewrite(s: string): (r: string)
    ensures |r| <= |s|
    decreases |s|, 0
  {
    if s == "" then ""
    else if s[0] != '%' then [s[0]] + Rewrite(s[1..])
    else if |s| > 1 && s[1] == '%' then "%" + Rewrite(s[2..])
    else if |s| > 1 && s[1] == '/' then "/" + RewriteSpec(s[2..])
    else "%" + RewriteSpec(s[1..])
  }

  /** The rewritten form of t, read inside a format specification. */
  function RewriteSpec(t: string): (r: string)
    ensures |r| <= |t|
    decreases |t|, 1
  {
    if t == "" then ""
    else if t[0] == '%' then Rewrite(t)
    else if t[0] == 'P' && |t| > 1 && t[1] in "sc" then [t[1]] + Rewrite(t[2..])
    else if IsFlag(t[0]) then [t[0]] + RewriteSpec(t[1..])
    else [t[0]] + Rewrite(t[1..])
  }

  // ---- the rewriter ----

  /** pcl_strncpy of n > 0 characters to out[at..]: refused unless they and a NUL fit in size. */
  method Ncpy(out: array<char>, at: nat, size: nat, src: string)
    requires 0 < |src| < size && at + size <= out.Length
    modifies out
    ensures out[..at + |src|] == old(out[..at]) + src && out[at + |src|] == '\0'
    ensures out[at + size..] == old(out[at + size..])
  {
    forall i | 0 <= i < |src| {
      out[at + i] := src[i];
    }
    out[at + |src|] := '\0';
  }

  /** strchr: characters of s before its first percent sign. */
  method FindPercent(s: string) returns (n: nat)
    ensures n <= |s| && '%' !in s[..n] && (n < |s| ==> s[n] == '%')
  {
    n := 0;
    while n < |s| && s[n] != '%'
      invariant n <= |s| && '%' !in s[..n]
    {
      n := n + 1;
    }
  }

  lemma Assoc(a: string, b: string, c: string)
    ensures (a + b) + c == a + (b + c)
  {
  }

  /** Text without percent signs is copied. */
  lemma {:induction false} RewriteText(a: string, t: string)
    requires '%' !in a
    ensures Rewrite(a + t) == a + Rewrite(t)
  {
    if a == "" {
      assert a + t == t;
    } else {
      assert a + t == [a[0]] + (a[1..] + t) && a[0] in a;
      RewriteText(a[1..], t);
      Assoc([a[0]], a[1..], Rewrite(t));
      assert a == [a[0]] + a[1..];
    }
  }

  /** The written o and what is still to be read make up the result, and no more was written
      than read. */
  ghost predicate Progress(o: string, fmt: string, r: nat) {
    && |o| <= r <= |fmt|
    && o + Rewrite(fmt[r..]) == Rewrite(fmt)
  }

  /** At r a slash stands directly behind the percent sign that opened a specification. */
  predicate AtSlash(fmt: string, r: nat) {
    0 < r < |fmt| && fmt[r - 1] == '%' && fmt[r] == '/'
  }

  /** The same inside a specification. Its percent sign is written, and a slash directly
      behind it will take it back. */
  ghost predicate SpecProgress(o: string, fmt: string, r: nat) {
    && |o| <= r <= |fmt| && 0 < r
    && (fmt[r - 1] == '%' && r < |fmt| ==> fmt[r] != '%')
    && if AtSlash(fmt, r) then |o| > 0 && o[..|o| - 1] + ("/" + RewriteSpec(fmt[r + 1..])) == Rewrite(fmt)
       else o + RewriteSpec(fmt[r..]) == Rewrite(fmt)
  }

  lemma Start(fmt: string)
    ensures Progress("", fmt, 0)
  {
    assert fmt[0..] == fmt;
  }

  lemma Rest(o: string, fmt: string, r: nat)
    requires Progress(o, fmt, r) && '%' !in fmt[r..]
    ensures Progress(o + fmt[r..], fmt, |fmt|)
  {
    var a := fmt[r..];
    RewriteText(a, "");
    assert a + "" == a && fmt[|fmt|..] == "";
  }

  lemma PercentPercent(o: string, fmt: string, r: nat, p: nat)
    requires Progress(o, fmt, r) && r + p + 1 < |fmt| && '%' !in fmt[r..r + p]
    requires fmt[r + p] == '%' && fmt[r + p + 1] == '%'
    ensures Progress(o + fmt[r..r + p + 1], fmt, r + p + 2)
  {
    hide Rewrite;
    var a, t := fmt[r..r + p], fmt[r + p + 2..];
    RewriteText(a, "%%" + t);
    RewritePercent(t);
    Glue(o, a, Rewrite(t));
    assert fmt[r..] == a + ("%%" + t);
    assert fmt[r..r + p + 1] == a + "%";
  }

  lemma Glue(o: string, a: string, t: string)
    ensures o + (a + ("%" + t)) == (o + (a + "%")) + t
  {
  }

  lemma RewritePercent(t: string)
    ensures Rewrite("%%" + t) == "%" + Rewrite(t)
  {
    assert ("%%" + t)[2..] == t;
  }

  lemma RewriteOpen(t: string)
    requires t != "" ==> t[0] != '%' && t[0] != '/'
    ensures Rewrite("%" + t) == "%" + RewriteSpec(t)
  {
    assert ("%" + t)[1..] == t;
  }

  lemma RewriteSlash(t: string)
    ensures Rewrite("%/" + t) == "/" + RewriteSpec(t)
  {
    assert ("%/" + t)[2..] == t;
  }

  lemma OpenSpec(o: string, fmt: string, r: nat, p: nat)
    requires Progress(o, fmt, r) && r + p < |fmt| && '%' !in fmt[r..r + p] && fmt[r + p] == '%'
    requires r + p + 1 < |fmt| ==> fmt[r + p + 1] != '%'
    ensures SpecProgress(o + fmt[r..r + p + 1], fmt, r + p + 1)
  {
    hide Rewrite, RewriteSpec;
    var a, t := fmt[r..r + p], fmt[r + p + 1..];
    RewriteText(a, "%" + t);
    assert fmt[r..] == a + ("%" + t) && fmt[r..r + p + 1] == a + "%";
    if AtSlash(fmt, r + p + 1) {
      OpenSlash(o, a, t, fmt[r + p + 2..]);
    } else {
      RewriteOpen(t);
      Glue(o, a, RewriteSpec(t));
    }
  }

  /** The slash will replace the last of the characters written. */
  lemma OpenSlash(o: string, a: string, t: string, u: string)
    requires t == "/" + u
    ensures (o + (a + "%"))[..|o + (a + "%")| - 1] + ("/" + RewriteSpec(u)) == o + (a + Rewrite("%" + t))
  {
    hide Rewrite, RewriteSpec;
    assert "%" + t == "%/" + u;
    RewriteSlash(u);
    assert (o + (a + "%"))[..|o| + |a|] == o + a;
    Assoc(o, a, "/" + RewriteSpec(u));
  }

  lemma EndSpec(o: string, fmt: string, r: nat)
    requires SpecProgress(o, fmt, r) && (r == |fmt| || fmt[r] == '%')
    ensures Progress(o, fmt, r)
  {
  }

  lemma PathSeparator(o: string, fmt: string, r: nat)
    requires SpecProgress(o, fmt, r) && AtSlash(fmt, r)
    ensures |o| > 0 && SpecProgress(o[..|o| - 1] + "/", fmt, r + 1)
  {
    Assoc(o[..|o| - 1], "/", RewriteSpec(fmt[r + 1..]));
  }

  lemma Portable(o: string, fmt: string, r: nat)
    requires SpecProgress(o, fmt, r) && r + 1 < |fmt| && fmt[r] == 'P' && fmt[r + 1] in "sc"
    ensures Progress(o + [fmt[r + 1]], fmt, r + 2)
  {
    assert fmt[r..][2..] == fmt[r + 2..];
    Assoc(o, [fmt[r + 1]], Rewrite(fmt[r + 2..]));
  }

  lemma Flag(o: string, fmt: string, r: nat)
    requires SpecProgress(o, fmt, r) && r < |fmt| && IsFlag(fmt[r])
    ensures SpecProgress(o + [fmt[r]], fmt, r + 1)
  {
    assert fmt[r..][1..] == fmt[r + 1..];
    Assoc(o, [fmt[r]], RewriteSpec(fmt[r + 1..]));
  }

  /** Any other character is copied and ends the specification. */
  lemma Conversion(o: string, fmt: string, r: nat)
    requires SpecProgress(o, fmt, r) && r < |fmt| && fmt[r] != '%' && !IsFlag(fmt[r])
    requires !AtSlash(fmt, r) && (fmt[r] == 'P' && r + 1 < |fmt| ==> fmt[r + 1] !in "sc")
    ensures Progress(o + [fmt[r]], fmt, r + 1)
  {
    assert fmt[r..][1..] == fmt[r + 1..];
    Assoc(o, [fmt[r]], Rewrite(fmt[r + 1..]));
  }

  /** `fmtconv`. The result is the caller's buffer exactly when the input and its NUL fit. */
  method FmtConv(buf: array<char>, fmt: string) returns (out: array<char>, ghost n: nat)
    requires '\0' !in fmt
    modifies buf
    ensures |fmt| < buf.Length ==> out == buf
    ensures |fmt| >= buf.Length ==> fresh(out) && out.Length == |fmt| + 1 && buf[..] == old(buf[..])
    ensures n == |Rewrite(fmt)| && n <= |fmt| < out.Length
    ensures out[..n] == Rewrite(fmt) && out[n] == '\0'
    ensures |fmt| < buf.Length ==> out[|fmt| + 1..] == old(buf[..])[|fmt| + 1..]
  {
    var len := |fmt| + 1;
    out := buf;
    if len > buf.Length {
      out := new char[len];
    }
    ghost var tail := out[len..];
    var w: nat, r: nat := 0, 0;
    ghost var o := "";
    Start(fmt);
    while r < |fmt|
      invariant |o| == w <= |fmt| && out[..w] == o
      invariant Progress(o, fmt, r)
      invariant out[len..] == tail
      invariant out != buf ==> buf[..] == old(buf[..])
    {
      w, r, o := Turn(out, w, fmt, r, o);
    }
    assert fmt[|fmt|..] == "";
    out[w] := '\0';
    n := w;
  }

  /** One turn of the outer loop: copy up to and with the next percent sign, then handle what
      it introduces; without one, copy the rest. */
  method Turn(out: array<char>, w0: nat, fmt: string, r0: nat, ghost o0: string)
    returns (w: nat, r: nat, ghost o: string)
    requires |o0| == w0 <= r0 < |fmt| < out.Length && out[..w0] == o0 && Progress(o0, fmt, r0)
    modifies out
    ensures r0 < r && |o| == w <= |fmt| && out[..w] == o && Progress(o, fmt, r)
    ensures out[|fmt| + 1..] == old(out[|fmt| + 1..])
  {
    hide Rewrite, RewriteSpec;
    var siz := |fmt| + 1 - w0;
    var p := FindPercent(fmt[r0..]);
    if p == |fmt| - r0 {
      Rest(o0, fmt, r0);
      Ncpy(out, w0, siz, fmt[r0..]);
      return w0 + p, |fmt|, o0 + fmt[r0..];
    }
    w, r, o := w0 + p + 1, r0 + p + 1, o0 + fmt[r0..r0 + p + 1];
    Ncpy(out, w0, siz, fmt[r0..r]);
    if r < |fmt| && fmt[r] == '%' {
      PercentPercent(o0, fmt, r0, p);
      r := r + 1;
    } else {
      OpenSpec(o0, fmt, r0, p);
      w, r, o := Spec(out, w, fmt, r, o);
    }
  }

  /** `*out++ = c`. */
  method Emit(out: array<char>, w: nat, c: char, past: nat) returns (next: nat)
    requires w < past <= out.Length
    modifies out
    ensures next == w + 1 && out[..next] == old(out[..w]) + [c]
    ensures out[past..] == old(out[past..])
  {
    out[w] := c;
    next := w + 1;
  }

  /** The inner loop: scan one format specification. */
  method Spec(out: array<char>, w0: nat, fmt: string, r0: nat, ghost o0: string)
    returns (w: nat, r: nat, ghost o: string)
    requires |o0| == w0 <= |fmt| < out.Length && out[..w0] == o0 && SpecProgress(o0, fmt, r0)
    modifies out
    ensures r0 <= r && |o| == w <= |fmt| && out[..w] == o && Progress(o, fmt, r)
    ensures out[|fmt| + 1..] == old(out[|fmt| + 1..])
  {
    w, r, o := w0, r0, o0;
    var finished := false;
    while !finished && r < |fmt|
      invariant r0 <= r && |o| == w <= |fmt| && out[..w] == o
      invariant if finished then Progress(o, fmt, r) else SpecProgress(o, fmt, r)
      invariant out[|fmt| + 1..] == old(out[|fmt| + 1..])
      decreases |fmt| - r, !finished
    {
      w, r, finished, o := SpecChar(out, w, fmt, r, o);
    }
    if !finished {
      EndSpec(o, fmt, r);
    }
  }

  /** One turn of the inner loop. */
  method SpecChar(out: array<char>, w0: nat, fmt: string, r0: nat, ghost o0: string)
    returns (w: nat, r: nat, finished: bool, ghost o: string)
    requires |o0| == w0 <= r0 < |fmt| < out.Length && out[..w0] == o0 && SpecProgress(o0, fmt, r0)
    requires 0 < r0
    modifies out
    ensures |o| == w <= r <= |fmt| && r0 <= r && (!finished ==> r0 < r) && out[..w] == o
    ensures if finished then Progress(o, fmt, r) else SpecProgress(o, fmt, r)
    ensures out[|fmt| + 1..] == old(out[|fmt| + 1..])
  {
    hide Rewrite, RewriteSpec;
    var c := fmt[r0];
    if c == '%' {
      EndSpec(o0, fmt, r0);
      w, r, finished, o := w0, r0, true, o0;
    } else if c == '/' && fmt[r0 - 1] == '%' {
      PathSeparator(o0, fmt, r0);
      w := Emit(out, w0 - 1, '/', |fmt| + 1);
      r, finished, o := r0 + 1, false, o0[..|o0| - 1] + "/";
    } else if c == 'P' && r0 + 1 < |fmt| && (fmt[r0 + 1] == 's' || fmt[r0 + 1] == 'c') {
      Portable(o0, fmt, r0);
      w := Emit(out, w0, fmt[r0 + 1], |fmt| + 1);
      r, finished, o := r0 + 2, true, o0 + [fmt[r0 + 1]];
    } else if IsFlag(c) {
      Flag(o0, fmt, r0);
      w := Emit(out, w0, c, |fmt| + 1);
      r, finished, o := r0 + 1, false, o0 + [c];
    } else {
      Conversion(o0, fmt, r0);
      w := Emit(out, w0, c, |fmt| + 1);
      r, finished, o := r0 + 1, true, o0 + [c];
    }
  }
}
