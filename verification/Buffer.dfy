/** The dynamic buffer of src/buf in its one-byte-character modes: a growable array with a
    cursor and a NUL that is always present behind the contents and never counted. */
module Buffers {
  import opened Common
  import opened Bits
  import opened ByteOrder
  import opened BufferSpec

  class Buffer {
    const mode: Mode
    /** Byte order of the host the buffer lives on. */
    const little: bool
    var pos: nat
    var len: nat
    var size: nat
    var data: array<Byte>
    /** Characters copied by all reallocations so far. */
    ghost var copied: nat
    /** The size at creation, and the greatest length since. */
    ghost const firstSize: nat
    ghost var peak: nat

    ghost predicate Valid()
      reads this, data
    {
      && data.Length == size
      && pos <= len < size
      && data[len] == 0
      && len <= peak
      && size <= Max(firstSize, 2 * (peak + 1))
      && copied <= size
    }

    /** The counted characters. */
    ghost function Contents(): seq<Byte>
      reads this, data
      requires len <= data.Length
    {
      data[..len]
    }

    /** `pcl_buf_init` with a positive size. */
    constructor (size: nat, mode: Mode, little: bool)
      requires size > 0
      ensures Valid() && fresh(data)
      ensures this.mode == mode && this.little == little && firstSize == size
      ensures Contents() == [] && pos == 0 && this.size == size && peak == 0 && copied == 0
    {
      this.mode, this.little, this.size, firstSize := mode, little, size, size;
      pos, len, peak, copied := 0, 0, 0, 0;
      data := new Byte[size];
      new;
      data[0] := 0;
    }

    /** `pcl_buf_reset`. */
    method Reset()
      requires Valid()
      modifies this`pos, this`len, data
      ensures Valid() && Contents() == [] && pos == 0
    {
      pos, len := 0, 0;
      data[0] := 0;
    }

    /** Setting `pos` to 0, as readers do. */
    method Rewind()
      requires Valid()
      modifies this`pos
      ensures Valid() && pos == 0
    {
      pos := 0;
    }

    /** `pcl_buf_grow`. Afterwards n characters and one more fit at the cursor. */
    method Grow(n: nat)
      requires Valid()
      modifies this`size, this`data, this`copied
      ensures data == old(data) || fresh(data)
      ensures data.Length == size == SizeAfter(old(size), old(pos), n)
      ensures size == if old(pos) + n < old(size) then old(size) else 2 * (old(pos) + n)
      ensures old(size) <= size && data[..old(size)] == old(data[..])
      ensures n < size - pos
      ensures copied == old(copied) + (if size == old(size) then 0 else old(size))
      ensures copied <= size
    {
      var avail := size - pos;
      if n >= avail {
        var bigger := new Byte[(size + (n - avail)) * 2];
        forall i | 0 <= i < size {
          bigger[i] := data[i];
        }
        copied := copied + size;
        data := bigger;
        size := (size + (n - avail)) * 2;
      }
    }

    /** `pcl_buf_put`. */
    method Put(w: seq<Byte>) returns (r: Result)
      requires Valid()
      modifies this, data
      ensures Valid() && (data == old(data) || fresh(data))
      ensures w == [] ==> r == Einval && unchanged(this) && unchanged(data)
      ensures w != [] ==> r == Chars(|w|) && Written(old(data[..]), old(Contents()), old(pos), w)
                          && size == SizeAfter(old(size), old(pos), |w| + 1)
      ensures copied == old(copied) + (if size == old(size) then 0 else old(size))
      ensures peak == Max(old(peak), len)
    {
      if |w| == 0 {
        return Einval;
      }
      hide Overwrite, Untouched;
      ghost var was := data[..];
      Grow(|w| + 1);
      ghost var grown := data[..];
      assert Contents() == old(Contents()) && data[len] == was[len];
      assert grown[..|was|] == was;
      Store(w);
      UntouchedBefore(data[..], grown, was, old(pos), |w|);
      return Chars(|w|);
    }

    /** w was written at p over a buffer with these contents; nothing else changed. */
    ghost predicate Written(was: seq<Byte>, c: seq<Byte>, p: nat, w: seq<Byte>)
      reads this, data
      requires p <= |c|
    {
      && pos == p + |w| && len <= data.Length
      && Contents() == Overwrite(c, p, w)
      && Untouched(data[..], was, p, |w|)
    }

    /** The copy, cursor and NUL of a put, once there is room. */
    method Store(w: seq<Byte>)
      requires data.Length == size && pos <= len < size && data[len] == 0 && len <= peak
      requires pos + |w| < size
      requires size <= Max(firstSize, 2 * (Max(peak, pos + |w|) + 1)) && copied <= size
      modifies this`pos, this`len, this`peak, data
      ensures Valid() && Written(old(data[..]), old(Contents()), old(pos), w)
      ensures peak == Max(old(peak), len)
    {
      hide Splice, Overwrite, Untouched;
      SpliceFacts(data[..], len, pos, w);
      WriteEnded(data, pos, w);
      Advance(|w|);
    }

    /** Move the cursor over n written characters; the length follows if it is passed. */
    method Advance(n: nat)
      modifies this`pos, this`len, this`peak
      ensures pos == old(pos) + n && len == Max(old(len), pos) && peak == Max(old(peak), len)
    {
      pos := pos + n;
      if len < pos {
        len := pos;
      }
      peak := Max(peak, len);
    }

    /** The characters a string put or a formatted put writes: binary mode counts the NUL. */
    function Terminated(text: seq<Byte>): (w: seq<Byte>)
      ensures mode.Binary? ==> |w| == |text| + 1
    {
      Added(mode, CStr(text))
    }

    /** `pcl_buf_putstr` of a string without its NUL. */
    method PutStr(text: seq<Byte>) returns (r: Result)
      requires Valid() && 0 !in text
      modifies this, data
      ensures Valid() && (data == old(data) || fresh(data))
      ensures mode == Text && text == [] ==> r == Einval && unchanged(this) && unchanged(data)
      ensures mode == Binary || text != [] ==>
                r == Chars(|Terminated(text)|) && Written(old(data[..]), old(Contents()), old(pos), Terminated(text))
      ensures peak == Max(old(peak), len)
    {
      r := Put(Terminated(text));
    }

    /** `pcl_buf_vputf`, given what the formatter makes of its arguments; None is its failure. */
    method PutFormatted(out: Option<seq<Byte>>) returns (r: Result)
      requires Valid()
      modifies this, data
      ensures Valid() && (data == old(data) || fresh(data))
      ensures out.None? ==> r == Einval && unchanged(this) && unchanged(data)
      ensures out.Some? ==> var w := Terminated(out.value);
                r == Chars(|w|) && Written(old(data[..]), old(Contents()), old(pos), w)
                && size == SizeAfter(old(size), old(pos), |w|)
      ensures copied == old(copied) + (if size == old(size) then 0 else old(size))
      ensures peak == Max(old(peak), len)
    {
      if out.None? {
        return Einval;
      }
      var text := out.value;
      hide Overwrite, Untouched;
      ghost var was := data[..];
      Grow(if mode == Binary then |text| + 1 else |text|);
      ghost var grown := data[..];
      assert Contents() == old(Contents()) && data[len] == was[len];
      assert grown[..|was|] == was;
      StoreFormatted(text);
      UntouchedBefore(data[..], grown, was, old(pos), |Terminated(text)|);
      return Chars(|Terminated(text)|);
    }

    /** The write of a formatted put, once there is room: the formatter ends its output with a
        NUL, binary mode counts it, and another NUL follows. */
    method StoreFormatted(text: seq<Byte>)
      requires data.Length == size && pos <= len < size && data[len] == 0 && len <= peak
      requires pos + |Terminated(text)| < size && copied <= size
      requires size <= Max(firstSize, 2 * (Max(peak, pos + |Terminated(text)|) + 1))
      modifies this`pos, this`len, this`peak, data
      ensures Valid() && Written(old(data[..]), old(Contents()), old(pos), Terminated(text))
      ensures peak == Max(old(peak), len)
    {
      hide Splice, Overwrite, Untouched;
      var n := |Terminated(text)|;
      SpliceFacts(data[..], len, pos, Terminated(text));
      SpliceNul(data[..], pos, text, mode == Binary);
      WriteEnded(data, pos, text);
      data[pos + n] := 0;
      assert data[..] == Splice(old(data[..]), pos, text)[old(pos) + n := 0];
      Advance(n);
    }

    /** `pcl_buf_get`. */
    method Get(n: nat) returns (out: seq<Byte>, r: Result)
      requires Valid()
      modifies this`pos
      ensures Valid()
      ensures mode != Binary ==> r == Einval && pos == old(pos)
      ensures mode == Binary && n > len - old(pos) ==> r == Eof && pos == old(pos)
      ensures mode == Binary && n <= len - old(pos) ==>
                r == Chars(n) && pos == old(pos) + n && out == Contents()[old(pos)..pos]
    {
      out := [];
      if mode != Binary {
        return out, Einval;
      }
      if n > len - pos {
        return out, Eof;
      }
      out := data[pos..pos + n];
      pos := pos + n;
      return out, Chars(n);
    }

    /** strlen at the cursor. The NUL behind the contents stops it inside the data. */
    method StrLenHere() returns (n: nat)
      requires Valid()
      ensures n == StrLen(Contents()[pos..]) && pos + n < size
    {
      n := 0;
      ghost var rest := Contents()[pos..];
      while data[pos + n] != 0
        invariant pos + n <= len
        invariant forall i :: 0 <= i < n ==> rest[i] != 0
        decreases len - n
      {
        assert rest[n] == data[pos + n];
        n := n + 1;
      }
      assert n < |rest| ==> rest[n] == 0;
    }

    /** `pcl_buf_getstr` into room for cap characters; text comes without its NUL. */
    method GetStr(cap: nat) returns (text: seq<Byte>, r: Result)
      requires Valid()
      modifies this`pos
      ensures Valid()
      ensures mode != Binary ==> r == Einval && pos == old(pos)
      ensures mode == Binary ==>
                var (item, out) := Read(Contents(), old(pos), StrOf(cap));
                r == out && pos == old(pos) + (if out.Chars? then out.n else 0) && (item.Some? ==> item.value == Str(text))
    {
      text := [];
      if mode != Binary {
        return text, Einval;
      }
      var n := StrLenHere();
      n := n + 1;
      if n > cap {
        return text, Ebuf;
      }
      var buf;
      buf, r := Get(n);
      if r.Chars? {
        text := buf[..n - 1];
      }
    }

    /** `pcl_buf_putint8`, `16`, `32`, `64`: swap, then put the integer's memory. */
    method PutInt(w: nat, x: nat) returns (r: Result)
      requires Valid() && w in {1, 2, 4, 8} && x < Pow2(8 * w)
      modifies this, data
      ensures Valid() && (data == old(data) || fresh(data))
      ensures mode != Binary ==> r == Einval && unchanged(this) && unchanged(data)
      ensures mode == Binary ==> r == Chars(w) && Written(old(data[..]), old(Contents()), old(pos), BigEndian(x, w))
      ensures peak == Max(old(peak), len)
    {
      if mode != Binary {
        return Einval;
      }
      var net := NetSwap(x, w, little);
      SwapGivesNetworkOrder(x, w, little);
      r := Put(MemoryOf(net, w, little));
    }

    /** `pcl_buf_getint8`, `16`, `32`, `64`: get the integer's memory, then swap. */
    method GetInt(w: nat) returns (x: nat, r: Result)
      requires Valid() && w in {1, 2, 4, 8}
      modifies this`pos
      ensures Valid()
      ensures mode != Binary ==> r == Einval && pos == old(pos)
      ensures mode == Binary ==>
                var (item, out) := Read(Contents(), old(pos), IntOf(w));
                r == out && pos == old(pos) + (if out.Chars? then out.n else 0) && (item.Some? ==> item.value == Int(w, x))
    {
      x := 0;
      if mode != Binary {
        return x, Einval;
      }
      var bytes;
      bytes, r := Get(w);
      if !r.Chars? {
        return;
      }
      SwapReadsBytes(bytes, little);
      x := NetSwap(ValueOf(bytes, little), w, little);
    }

    /** The put that belongs to an item. */
    method PutItem(i: Item) returns (r: Result)
      requires Valid() && mode == Binary && ItemOk(i)
      modifies this, data
      ensures Valid() && (data == old(data) || fresh(data))
      ensures r == Chars(|Encode(i)|) && Written(old(data[..]), old(Contents()), old(pos), Encode(i))
      ensures peak == Max(old(peak), len)
    {
      match i {
        case Int(w, x) => r := PutInt(w, x);
        case Blob(b) => r := Put(b);
        case Str(s) => r := PutStr(s);
      }
    }

    /** The get that belongs to a request. */
    method GetItem(s: Shape) returns (i: Option<Item>, r: Result)
      requires Valid() && mode == Binary && (s.IntOf? ==> s.width in {1, 2, 4, 8})
      modifies this`pos
      ensures Valid() && (i, r) == Read(Contents(), old(pos), s)
      ensures i.Some? == r.Chars? && pos == old(pos) + (if r.Chars? then r.n else 0)
    {
      match s {
        case IntOf(w) =>
          var x;
          x, r := GetInt(w);
          i := if r.Chars? then Some(Int(w, x)) else None;
        case BytesOf(n) =>
          var b;
          b, r := Get(n);
          i := if r.Chars? then Some(Blob(b)) else None;
        case StrOf(cap) =>
          var t;
          t, r := GetStr(cap);
          i := if r.Chars? then Some(Str(t)) else None;
      }
    }

    method PutNext(i: Item)
      requires Valid() && mode == Binary && ItemOk(i) && pos == len
      modifies this, data
      ensures Valid() && (data == old(data) || fresh(data))
      ensures pos == len && Contents() == old(Contents()) + Encode(i)
    {
      OverwriteEnd(Contents(), Encode(i));
      var _ := PutItem(i);
    }

    /** Write a list of items at the end. */
    method PutAll(items: seq<Item>)
      requires Valid() && mode == Binary && pos == len
      requires forall k :: 0 <= k < |items| ==> ItemOk(items[k])
      modifies this, data
      ensures Valid() && (data == old(data) || fresh(data))
      ensures pos == len && Contents() == old(Contents()) + EncodeAll(items)
    {
      for k := 0 to |items|
        invariant Valid() && (data == old(data) || fresh(data))
        invariant pos == len && Contents() == old(Contents()) + EncodeAll(items[..k])
      {
        EncodeSnoc(items, k, old(Contents()));
        PutNext(items[k]);
      }
      assert items[..|items|] == items;
    }

    /** A list of gets, stopped by the first error. */
    method GetAll(shapes: seq<Shape>) returns (items: seq<Item>)
      requires Valid() && mode == Binary
      requires forall k :: 0 <= k < |shapes| ==> shapes[k].IntOf? ==> shapes[k].width in {1, 2, 4, 8}
      modifies this`pos
      ensures Valid() && (items, pos) == ReadAll(Contents(), old(pos), shapes)
      decreases |shapes|
    {
      if shapes == [] {
        return [];
      }
      hide ReadAll, Read;
      ghost var c := Contents();
      ReadAllStep(c, pos, shapes);
      var i, r := GetItem(shapes[0]);
      if i.None? {
        return [];
      }
      assert Contents() == c && Min(pos, |c|) == pos;
      var rest := GetAll(shapes[1..]);
      items := [i.value] + rest;
    }

    /** Put items into a reset buffer, rewind, get them back: the very items, and the cursor
        at the end. */
    method RoundTrip(items: seq<Item>, shapes: seq<Shape>) returns (got: seq<Item>)
      requires Valid() && mode == Binary && |shapes| == |items|
      requires forall k :: 0 <= k < |items| ==> ItemOk(items[k])
      requires forall k :: 0 <= k < |items| ==> BufferSpec.Matches(shapes[k], items[k])
      modifies this, data
      ensures Valid() && got == items && pos == len
    {
      Reset();
      PutAll(items);
      Rewind();
      DecodeEncode(Contents(), 0, items, shapes);
      got := GetAll(shapes);
    }

    /** Appending through any of the three kinds of put concatenates. If the buffer was never
        longer than it is, its size stays within twice what it holds, and all reallocations
        together have copied no more than its size. */
    method AppendAll(ps: seq<Append>)
      requires Valid() && pos == len
      requires forall k :: 0 <= k < |ps| ==> ps[k].CStr? ==> 0 !in ps[k].text
      modifies this, data
      ensures Valid() && (data == old(data) || fresh(data))
      ensures pos == len && Contents() == old(Contents()) + AddedAll(mode, ps)
      ensures old(peak == len) ==> size <= Max(firstSize, 2 * (len + 1))
      ensures copied <= size
    {
      for k := 0 to |ps|
        invariant Valid() && (data == old(data) || fresh(data))
        invariant pos == len && Contents() == old(Contents()) + AddedAll(mode, ps[..k])
        invariant old(peak == len) ==> peak == len
      {
        AddedSnoc(mode, ps, k, old(Contents()));
        var _ := AppendOne(ps[k]);
      }
      assert ps[..|ps|] == ps;
    }

    method AppendOne(a: Append) returns (r: Result)
      requires Valid() && pos == len && (a.CStr? ==> 0 !in a.text)
      modifies this, data
      ensures Valid() && (data == old(data) || fresh(data))
      ensures pos == len && Contents() == old(Contents()) + Added(mode, a)
      ensures peak == Max(old(peak), len)
    {
      OverwriteEnd(Contents(), Added(mode, a));
      match a {
        case Raw(w) => r := Put(w);
        case CStr(s) => r := PutStr(s);
        case Formatted(s) => r := PutFormatted(Some(s));
      }
    }
  }

  /** was with w and a NUL behind it written at p. */
  function Splice(was: seq<Byte>, p: nat, w: seq<Byte>): (s: seq<Byte>)
    requires p + |w| < |was|
    ensures |s| == |was|
  {
    was[..p] + w + [0] + was[p + |w| + 1..]
  }

  /** From was to now nothing changed in front of p or behind the NUL that follows n characters. */
  ghost predicate Untouched(now: seq<Byte>, was: seq<Byte>, p: nat, n: nat) {
    && p <= |was| <= |now| && now[..p] == was[..p]
    && (p + n < |was| ==> now[p + n + 1..|was|] == was[p + n + 1..])
  }

  /** What a grown array leaves untouched it leaves of the old one. */
  lemma UntouchedBefore(now: seq<Byte>, grown: seq<Byte>, was: seq<Byte>, p: nat, n: nat)
    requires p <= |was| <= |grown| && grown[..|was|] == was && Untouched(now, grown, p, n)
    ensures Untouched(now, was, p, n)
  {
    assert p + n < |was| ==> now[p + n + 1..|was|] == now[p + n + 1..|grown|][..|was| - (p + n + 1)];
  }

  /** A splice into an array of len counted characters, seen as contents. */
  lemma SpliceFacts(was: seq<Byte>, len: nat, p: nat, w: seq<Byte>)
    requires p <= len < |was| && was[len] == 0 && p + |w| < |was|
    ensures var s, n := Splice(was, p, w), Max(len, p + |w|);
            s[..n] == Overwrite(was[..len], p, w) && s[n] == 0 && Untouched(s, was, p, |w|)
  {
  }

  /** One more NUL: behind the formatter's own in binary mode, over it in text mode. */
  lemma SpliceNul(was: seq<Byte>, p: nat, text: seq<Byte>, binary: bool)
    requires p + |text| + (if binary then 1 else 0) < |was|
    ensures var w := if binary then text + [0] else text;
            Splice(was, p, text)[p + |w| := 0] == Splice(was, p, w)
  {
  }

  /** memcpy of w to position p. */
  method CopyIn(data: array<Byte>, p: nat, w: seq<Byte>)
    requires p + |w| <= data.Length
    modifies data
    ensures data[..] == old(data[..p]) + w + old(data[p + |w|..])
  {
    forall i | 0 <= i < |w| {
      data[p + i] := w[i];
    }
  }

  /** text at position p, and a NUL behind it. */
  method WriteEnded(data: array<Byte>, p: nat, text: seq<Byte>)
    requires p + |text| < data.Length
    modifies data
    ensures data[..] == Splice(old(data[..]), p, text)
  {
    CopyIn(data, p, text);
    data[p + |text|] := 0;
  }
}
