/** The JSONPath subset of src/json/json_compile.c as a grammar on strings: what one step of
    the path consumes and means, and what a whole path means. */
module JsonPathSpec {
  import opened Common

  /** `tag_pcl_json_path` without its link. */
  datatype Step =
    | Root
    | Member(name: string)
    | WildcardMember
    | RecursiveDescent
    | Element(index: int)
    | WildcardElement
    | ElementList(indexes: seq<int>)
    | ElementSlice(start: int, end: int, step: int)

  datatype PathError =
    | MissingRoot
    | SecondRoot
    | MissingMember
    | UnterminatedQuote
    | BadNumber
    | BadSlice
    | BadSubscript
    | UnexpectedCharacter

  datatype Result<+T> = Ok(value: T) | Err(error: PathError)

  /** A step and the number of characters it took. */
  datatype Parsed<+T> = Parsed(value: T, used: nat)

  predicate IsSpace(c: char) {
    c == ' ' || 9 <= c as int <= 13
  }

  predicate IsDigit(c: char) {
    '0' <= c <= '9'
  }

  function SkipSpace(t: string): (n: nat)
    ensures n <= |t|
  {
    if t != "" && IsSpace(t[0]) then 1 + SkipSpace(t[1..]) else 0
  }

  function CountDigits(t: string): (n: nat)
    ensures n <= |t|
    ensures forall i :: 0 <= i < n ==> IsDigit(t[i])
    ensures n < |t| ==> !IsDigit(t[n])
  {
    if t != "" && IsDigit(t[0]) then 1 + CountDigits(t[1..]) else 0
  }

  function DigitValue(c: char): nat
    requires IsDigit(c)
  {
    c as int - '0' as int
  }

  function Decimal(t: string): nat
    requires forall i :: 0 <= i < |t| ==> IsDigit(t[i])
  {
    if t == "" then 0 else 10 * Decimal(t[..|t| - 1]) + DigitValue(t[|t| - 1])
  }

  predicate IsInt(v: int) {
    -0x8000_0000 <= v < 0x8000_0000
  }

  /** `pcl_strtoi` in base 10: space, sign, digits; None without digits or outside int. */
  function ReadInt(t: string): (r: Option<Parsed<int>>)
    ensures r.Some? ==> 0 < r.value.used <= |t| && IsInt(r.value.value)
  {
    var a := SkipSpace(t);
    var b := if At(t, a) == '-' || At(t, a) == '+' then a + 1 else a;
    var n := CountDigits(t[b..]);
    var d := Decimal(t[b..b + n]);
    var v: int := if At(t, a) == '-' then 0 - d else d;
    if n == 0 || !IsInt(v) then None else Some(Parsed(v, b + n))
  }

  /** Characters of t before the first '.' or '['. */
  function NameLength(t: string): (n: nat)
    ensures n <= |t|
  {
    if t == "" || t[0] == '.' || t[0] == '[' then 0 else 1 + NameLength(t[1..])
  }

  /** Where `']` first occurs in t: strstr. */
  function FindClose(t: string): (r: Option<nat>)
    ensures r.Some? ==> r.value + 2 <= |t|
  {
    if |t| < 2 then None
    else if t[0] == '\'' && t[1] == ']' then Some(0)
    else
      var r := FindClose(t[1..]);
      if r.None? then None else Some(1 + r.value)
  }

  /** The part of a slice behind its end: an optional step, and the bracket. t starts there;
      used counts from the start of the whole subscript, base characters earlier. */
  function ReadSliceTail(t: string, base: nat, start: int, end: int): (r: Result<Parsed<Step>>)
    ensures r.Ok? ==> base < r.value.used <= base + |t| && r.value.value.ElementSlice?
  {
    if At(t, 0) == ':' then
      match ReadInt(t[1..])
      case None => Err(BadNumber)
      case Some(Parsed(step, n)) =>
        if At(t, 1 + n) == ']' then Ok(Parsed(ElementSlice(start, end, step), base + n + 2)) else Err(BadSlice)
    else if At(t, 0) == ']' then Ok(Parsed(ElementSlice(start, end, 1), base + 1))
    else Err(BadSlice)
  }

  /** The part of an index list from a comma on, behind the given indexes. */
  function ReadList(t: string, base: nat, got: seq<int>): (r: Result<Parsed<Step>>)
    requires At(t, 0) == ','
    ensures r.Ok? ==> base < r.value.used <= base + |t| && r.value.value.ElementList?
    decreases |t|
  {
    match ReadInt(t[1..])
    case None => Err(BadNumber)
    case Some(Parsed(i, n)) =>
      var u := t[1 + n..];
      if At(u, 0) == ',' then ReadList(u, base + 1 + n, got + [i])
      else if At(u, 0) == ']' then Ok(Parsed(ElementList(got + [i]), base + 1 + n + 1))
      else Err(BadSubscript)
  }

  /** A path step that starts with a dot. A doubled dot takes one character: the second dot
      starts the next step. */
  function ReadDot(t: string): (r: Result<Parsed<Step>>)
    requires At(t, 0) == '.'
    ensures r.Ok? ==> 0 < r.value.used <= |t|
  {
    if At(t, 1) == '.' then Ok(Parsed(RecursiveDescent, 1))
    else if At(t, 1) == '*' then Ok(Parsed(WildcardMember, 2))
    else
      var n := NameLength(t[1..]);
      if n == 0 then Err(MissingMember) else Ok(Parsed(Member(t[1..1 + n]), 1 + n))
  }

  /** A quoted member name. An empty one is taken to the end of the path. */
  function ReadQuote(t: string): (r: Result<Parsed<Step>>)
    requires At(t, 0) == '[' && At(t, 1) == '\''
    ensures r.Ok? ==> 0 < r.value.used <= |t|
  {
    if At(t, 2) == '*' && At(t, 3) == '\'' && At(t, 4) == ']' then Ok(Parsed(WildcardMember, 5))
    else
      match FindClose(t[2..])
      case None => Err(UnterminatedQuote)
      case Some(n) => Ok(Parsed(Member(if n == 0 then t[2..] else t[2..2 + n]), n + 4))
  }

  /** `[:end]`, `[:end:step]` and `[::step]`. Unlike behind a start, the end is not optional
      in front of the bracket. */
  function ReadOpenSlice(t: string): (r: Result<Parsed<Step>>)
    requires At(t, 0) == '[' && At(t, 1) == ':'
    ensures r.Ok? ==> 0 < r.value.used <= |t|
  {
    if At(t, 2) == ':' then ReadSliceTail(t[2..], 2, 0, 0)
    else
      match ReadInt(t[2..])
      case None => Err(BadNumber)
      case Some(Parsed(end, n)) => ReadSliceTail(t[2 + n..], 2 + n, 0, end)
  }

  /** The part of a slice behind its first colon. */
  function ReadSliceEnd(t: string, base: nat, start: int): (r: Result<Parsed<Step>>)
    ensures r.Ok? ==> base < r.value.used <= base + |t|
  {
    if At(t, 0) == ']' || At(t, 0) == ':' then ReadSliceTail(t, base, start, 0)
    else
      match ReadInt(t)
      case None => Err(BadNumber)
      case Some(Parsed(end, n)) => ReadSliceTail(t[n..], base + n, start, end)
  }

  /** The part of a subscript behind its first number. */
  function ReadAfterIndex(t: string, base: nat, i: int): (r: Result<Parsed<Step>>)
    ensures r.Ok? ==> base < r.value.used <= base + |t|
  {
    if At(t, 0) == ',' then ReadList(t, base, [i])
    else if At(t, 0) == ':' then ReadSliceEnd(t[1..], base + 1, i)
    else if At(t, 0) == ']' then Ok(Parsed(Element(i), base + 1))
    else Err(BadSubscript)
  }

  /** A subscript that starts with a number: an element, a list or a slice. */
  function ReadSubscript(t: string): (r: Result<Parsed<Step>>)
    requires At(t, 0) == '['
    ensures r.Ok? ==> 0 < r.value.used <= |t|
  {
    match ReadInt(t[1..])
    case None => Err(BadNumber)
    case Some(Parsed(i, n)) => ReadAfterIndex(t[1 + n..], 1 + n, i)
  }

  /** One step of the path. */
  function ReadStep(t: string): (r: Result<Parsed<Step>>)
    requires t != ""
    ensures r.Ok? ==> 0 < r.value.used <= |t|
  {
    if t[0] == '$' then Err(SecondRoot)
    else if t[0] == '.' then ReadDot(t)
    else if t[0] == '[' then
      if At(t, 1) == '*' && At(t, 2) == ']' then Ok(Parsed(WildcardElement, 3))
      else if At(t, 1) == '\'' then ReadQuote(t)
      else if At(t, 1) == ':' then ReadOpenSlice(t)
      else ReadSubscript(t)
    else Err(UnexpectedCharacter)
  }

  /** All steps up to the end of the path. */
  function ReadSteps(t: string): Result<seq<Step>>
    decreases |t|
  {
    if t == "" then Ok([])
    else
      match ReadStep(t)
      case Err(e) => Err(e)
      case Ok(Parsed(s, n)) =>
        match ReadSteps(t[n..])
        case Err(e) => Err(e)
        case Ok(rest) => Ok([s] + rest)
  }

  /** `pcl_json_compile` on a string. */
  function Compiled(path: string): Result<seq<Step>> {
    var p := SkipSpace(path);
    if At(path, p) != '$' || (At(path, p + 1) != '.' && At(path, p + 1) != '[') then Err(MissingRoot)
    else
      match ReadSteps(path[p + 1..])
      case Err(e) => Err(e)
      case Ok(steps) => Ok([Root] + steps)
  }
}
