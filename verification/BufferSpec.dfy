/** What buffer calls do to a buffer's contents, as functions on byte sequences, and the
    binary format: a list of typed items written one after the other. */
module BufferSpec {
  import opened Common
  import opened Bits
  import opened ByteOrder

  datatype Mode = Binary | Text

  /** Non-negative counts are successes; the rest are the error codes. */
  datatype Result = Chars(n: nat) | Einval | Eof | Ebuf

  /** Write w over c at pos. What lies beyond stays, except that the character right after
      the written ones becomes NUL. */
  function Overwrite(c: seq<Byte>, pos: nat, w: seq<Byte>): seq<Byte>
    requires pos <= |c|
  {
    var end := pos + |w|;
    if end >= |c| then c[..pos] + w else c[..pos] + w + [0] + c[end + 1..]
  }

  /** Character by character: the old ones, the written ones, one NUL, the old ones again. */
  lemma OverwriteAt(c: seq<Byte>, pos: nat, w: seq<Byte>)
    requires pos <= |c|
    ensures var o := Overwrite(c, pos, w);
            && |o| == Max(|c|, pos + |w|)
            && forall i :: 0 <= i < |o| ==>
                 o[i] == if i < pos then c[i] else if i < pos + |w| then w[i - pos]
                         else if i == pos + |w| then 0 else c[i]
  {
  }

  lemma OverwriteEnd(c: seq<Byte>, w: seq<Byte>)
    ensures Overwrite(c, |c|, w) == c + w
  {
  }

  /** Allocated characters after a grow by n at pos. */
  function SizeAfter(size: nat, pos: nat, n: nat): nat {
    if pos + n >= size then 2 * (pos + n) else size
  }

  /** Characters of s before its first NUL. */
  function StrLen(s: seq<Byte>): (n: nat)
    ensures n <= |s|
    ensures forall i :: 0 <= i < n ==> s[i] != 0
    ensures n < |s| ==> s[n] == 0
  {
    if s == [] || s[0] == 0 then 0
    else
      1 + StrLen(s[1..])
  }

  datatype Item =
    | Int(width: nat, value: nat)
    | Blob(bytes: seq<Byte>)
    | Str(text: seq<Byte>)

  /** int8, int16, int32 or int64; a blob that is not empty; a string without NUL. */
  ghost predicate ItemOk(i: Item) {
    match i
    case Int(w, x) => w in {1, 2, 4, 8} && x < Pow2(8 * w)
    case Blob(b) => b != []
    case Str(s) => 0 !in s
  }

  /** The item's bytes in the buffer. */
  function Encode(i: Item): seq<Byte> {
    match i
    case Int(w, x) => BigEndian(x, w)
    case Blob(b) => b
    case Str(s) => s + [0]
  }

  function EncodeAll(items: seq<Item>): seq<Byte> {
    if items == [] then [] else EncodeAll(items[..|items| - 1]) + Encode(items[|items| - 1])
  }

  /** What a reader asks for: an integer of a width, n bytes, or a string for which it has
      room for cap characters. */
  datatype Shape = IntOf(width: nat) | BytesOf(n: nat) | StrOf(cap: nat)

  /** The request is the right one for the item. */
  predicate Matches(s: Shape, i: Item) {
    match i
    case Int(w, _) => s == IntOf(w)
    case Blob(b) => s == BytesOf(|b|)
    case Str(t) => s.StrOf? && s.cap > |t|
  }

  /** What a read at pos of contents c returns and consumes. */
  function Read(c: seq<Byte>, pos: nat, s: Shape): (Option<Item>, Result)
    requires pos <= |c|
  {
    match s
    case IntOf(w) =>
      if w > |c| - pos then (None, Eof)
      else (Some(Int(w, FromLittleEndian(Reverse(c[pos..pos + w])))), Chars(w))
    case BytesOf(n) =>
      if n > |c| - pos then (None, Eof) else (Some(Blob(c[pos..pos + n])), Chars(n))
    case StrOf(cap) =>
      var n := StrLen(c[pos..]) + 1;
      if n > cap then (None, Ebuf)
      else if n > |c| - pos then (None, Eof)
      else (Some(Str(c[pos..pos + n - 1])), Chars(n))
  }

  /** A string is read exactly when a NUL is among the unread characters and fits the caller's
      room; otherwise it is refused for lack of room if the room is all unread text without a
      NUL, and is at end of file if the room reaches beyond the unread characters. */
  lemma StrReadIff(c: seq<Byte>, pos: nat, cap: nat)
    requires pos <= |c|
    ensures var (item, out) := Read(c, pos, StrOf(cap));
            && (item.Some? <==> exists i :: pos <= i < |c| && i < pos + cap && c[i] == 0)
            && (out == Ebuf <==> pos + cap <= |c| && 0 !in c[pos..pos + cap])
            && (out == Eof <==> pos + cap > |c| && 0 !in c[pos..])
            && (item.Some? ==> out.Chars? && 0 < out.n <= |c| - pos && item.value == Str(c[pos..pos + out.n - 1])
                               && c[pos + out.n - 1] == 0 && 0 !in item.value.text)
  {
    var rest := c[pos..];
    var n := StrLen(rest);
    if n < |rest| {
      assert c[pos + n] == 0;
    }
    assert forall i :: pos <= i < |c| && c[i] == 0 ==> rest[i - pos] == 0;
    assert forall k :: 0 <= k < n ==> rest[k] == c[pos + k];
    if pos + cap <= |c| {
      var room := c[pos..pos + cap];
      assert forall k :: 0 <= k < cap ==> room[k] == rest[k];
      assert n < cap ==> room[n] == 0;
    }
  }

  /** A fixed number of characters is read exactly if so many are unread. */
  lemma FixedReadIff(c: seq<Byte>, pos: nat, s: Shape)
    requires pos <= |c| && !s.StrOf?
    ensures var n := if s.IntOf? then s.width else s.n;
            var (item, out) := Read(c, pos, s);
            if pos + n <= |c| then item.Some? && out == Chars(n) else item.None? && out == Eof
  {
  }

  lemma StrLenAppend(s: seq<Byte>, t: seq<Byte>)
    requires 0 !in s
    ensures StrLen(s + [0] + t) == |s|
  {
    var u := s + [0] + t;
    assert u[|s|] == 0;
    assert forall i :: 0 <= i < |s| ==> u[i] == s[i] && s[i] in s;
  }

  /** Reading at an encoded item, wherever it stands, gives the item and stops behind it. */
  lemma ReadEncoded(pre: seq<Byte>, i: Item, post: seq<Byte>, s: Shape)
    requires ItemOk(i) && Matches(s, i)
    ensures Read(pre + Encode(i) + post, |pre|, s) == (Some(i), Chars(|Encode(i)|))
  {
    match i {
      case Int(w, x) =>
        Middle(pre, BigEndian(x, w), post);
        SwapReadsNetworkOrder(x, w, false);
      case Blob(b) =>
        Middle(pre, b, post);
      case Str(t) =>
        ReadString(pre, t, post, s.cap);
    }
  }

  lemma Middle(pre: seq<Byte>, mid: seq<Byte>, post: seq<Byte>)
    ensures (pre + mid + post)[|pre|..|pre| + |mid|] == mid
  {
  }

  lemma ReadString(pre: seq<Byte>, t: seq<Byte>, post: seq<Byte>, cap: nat)
    requires 0 !in t && cap > |t|
    ensures Read(pre + (t + [0]) + post, |pre|, StrOf(cap)) == (Some(Str(t)), Chars(|t| + 1))
  {
    var c := pre + (t + [0]) + post;
    assert c[|pre|..] == t + [0] + post;
    StrLenAppend(t, post);
    assert c[|pre|..|pre| + |t|] == t;
  }

  /** A list of reads, each starting where the one before stopped; it ends at the first error. */
  function ReadAll(c: seq<Byte>, pos: nat, shapes: seq<Shape>): (seq<Item>, nat)
    requires pos <= |c|
    decreases |shapes|
  {
    if shapes == [] then ([], pos)
    else
      match Read(c, pos, shapes[0])
      case (Some(i), Chars(n)) =>
        var (rest, end) := ReadAll(c, Min(pos + n, |c|), shapes[1..]);
        ([i] + rest, end)
      case _ => ([], pos)
  }

  lemma ReadAllStep(c: seq<Byte>, pos: nat, shapes: seq<Shape>)
    requires pos <= |c| && shapes != []
    ensures var (i, r) := Read(c, pos, shapes[0]);
            ReadAll(c, pos, shapes) ==
            if i.Some? && r.Chars? then
              var (rest, end) := ReadAll(c, Min(pos + r.n, |c|), shapes[1..]);
              ([i.value] + rest, end)
            else ([], pos)
  {
  }

  function Min(a: nat, b: nat): nat {
    if a < b then a else b
  }

  lemma EncodeAllPush(items: seq<Item>, i: Item)
    ensures EncodeAll(items + [i]) == EncodeAll(items) + Encode(i)
  {
    assert (items + [i])[..|items|] == items;
  }

  lemma {:induction false} EncodeAllCons(i: Item, items: seq<Item>)
    ensures EncodeAll([i] + items) == Encode(i) + EncodeAll(items)
  {
    if items == [] {
      EncodeAllPush([], i);
      assert [i] + items == [] + [i];
    } else {
      var front, last := items[..|items| - 1], items[|items| - 1];
      assert [i] + items == ([i] + front) + [last];
      EncodeAllPush([i] + front, last);
      EncodeAllCons(i, front);
      ConcatAssociates(Encode(i), EncodeAll(front), Encode(last));
    }
  }

  lemma ConcatAssociates(a: seq<Byte>, b: seq<Byte>, c: seq<Byte>)
    ensures (a + b) + c == a + (b + c)
  {
  }

  lemma SplitAround(c: seq<Byte>, pos: nat, mid: seq<Byte>, rest: seq<Byte>)
    requires pos <= |c| && c[pos..] == mid + rest
    ensures c == c[..pos] + mid + rest
    ensures pos + |mid| <= |c| && c[pos + |mid|..] == rest
  {
    assert c == c[..pos] + c[pos..];
    assert c[pos..][|mid|..] == rest;
  }

  lemma ReadNext(c: seq<Byte>, pos: nat, i: Item, rest: seq<Byte>, s: Shape)
    requires pos <= |c| && c[pos..] == Encode(i) + rest
    requires ItemOk(i) && Matches(s, i)
    ensures Read(c, pos, s) == (Some(i), Chars(|Encode(i)|))
    ensures pos + |Encode(i)| <= |c| && c[pos + |Encode(i)|..] == rest
  {
    hide Read, Encode, ItemOk, Matches;
    SplitAround(c, pos, Encode(i), rest);
    ReadEncoded(c[..pos], i, rest, s);
  }

  lemma DecodeNothing(c: seq<Byte>, pos: nat)
    requires pos <= |c| && c[pos..] == EncodeAll([])
    ensures ReadAll(c, pos, []) == ([], |c|)
  {
    assert |c[pos..]| == 0;
  }

  /** Decoding undoes encoding: matching reads from where the encoded items begin return
      exactly the items and stop at the end. */
  lemma {:induction false} DecodeEncode(c: seq<Byte>, pos: nat, items: seq<Item>, shapes: seq<Shape>)
    requires |shapes| == |items|
    requires forall k :: 0 <= k < |items| ==> ItemOk(items[k]) && Matches(shapes[k], items[k])
    requires pos <= |c| && c[pos..] == EncodeAll(items)
    ensures ReadAll(c, pos, shapes) == (items, |c|)
    decreases |items|
  {
    hide ReadAll, Read, Encode, EncodeAll, ItemOk, Matches;
    if items == [] {
      DecodeNothing(c, pos);
    } else {
      var first, rest, next := items[0], items[1..], pos + |Encode(items[0])|;
      assert items == [first] + rest;
      EncodeAllCons(first, rest);
      ReadNext(c, pos, first, EncodeAll(rest), shapes[0]);
      DecodeEncode(c, next, rest, shapes[1..]);
      ReadAllStep(c, pos, shapes);
      assert Min(next, |c|) == next;
    }
  }

  /** The three kinds of put that append characters, by what the caller hands over. */
  datatype Append = Raw(bytes: seq<Byte>) | CStr(text: seq<Byte>) | Formatted(text: seq<Byte>)

  /** The characters an append adds: binary mode counts the NUL of a string. */
  function Added(mode: Mode, a: Append): seq<Byte> {
    if a.Raw? then a.bytes else if mode == Binary then a.text + [0] else a.text
  }

  function AddedAll(mode: Mode, ps: seq<Append>): seq<Byte> {
    if ps == [] then [] else AddedAll(mode, ps[..|ps| - 1]) + Added(mode, ps[|ps| - 1])
  }

  lemma AddedSnoc(mode: Mode, ps: seq<Append>, k: nat, pre: seq<Byte>)
    requires k < |ps|
    ensures (pre + AddedAll(mode, ps[..k])) + Added(mode, ps[k]) == pre + AddedAll(mode, ps[..k + 1])
  {
    assert ps[..k + 1][..k] == ps[..k];
  }

  lemma EncodeSnoc(items: seq<Item>, k: nat, pre: seq<Byte>)
    requires k < |items|
    ensures (pre + EncodeAll(items[..k])) + Encode(items[k]) == pre + EncodeAll(items[..k + 1])
  {
    assert items[..k + 1][..k] == items[..k];
  }
}
