/** Integers as bytes: host memory layout, the swap done by htons, htonl and htonll, and
    network byte order (Appendix B of RFC 791). */
module ByteOrder {
  import opened Common
  import opened Bits

  type Byte = x: nat | x < 256

  /** The w low bytes of x, least significant first. */
  function LittleEndian(x: nat, w: nat): (b: seq<Byte>)
    ensures |b| == w
  {
    if w == 0 then [] else [x % 256] + LittleEndian(x / 256, w - 1)
  }

  /** The w low bytes of x in network order, most significant first. */
  function BigEndian(x: nat, w: nat): (b: seq<Byte>)
    ensures |b| == w
  {
    if w == 0 then [] else BigEndian(x / 256, w - 1) + [x % 256]
  }

  function FromLittleEndian(b: seq<Byte>): nat {
    if b == [] then 0 else b[0] + 256 * FromLittleEndian(b[1..])
  }

  /** How a w byte integer lies in the memory of a little- or big-endian host. */
  function MemoryOf(x: nat, w: nat, little: bool): (b: seq<Byte>)
    ensures |b| == w
  {
    if little then LittleEndian(x, w) else BigEndian(x, w)
  }

  /** The integer that a host reads from memory. */
  function ValueOf(b: seq<Byte>, little: bool): nat {
    if little then FromLittleEndian(b) else FromLittleEndian(Reverse(b))
  }

  /** htons, htonl, htonll, and their inverses: swap the bytes on a little-endian host. */
  function NetSwap(x: nat, w: nat, little: bool): nat {
    if little then FromLittleEndian(Reverse(LittleEndian(x, w))) else x
  }

  /** Network order, byte by byte: byte i counts the multiples of 2 to the 8 (w - 1 - i). */
  lemma {:induction false} BigEndianAt(x: nat, w: nat, i: nat)
    requires i < w
    ensures BigEndian(x, w)[i] == x / Pow2(8 * (w - 1 - i)) % 256
  {
    if i < w - 1 {
      var k := 8 * (w - 2 - i);
      BigEndianAt(x / 256, w - 1, i);
      assert BigEndian(x, w)[i] == BigEndian(x / 256, w - 1)[i];
      EightBits(k + 8);
      DivTwice(x, Pow2(k));
    }
  }

  lemma DivTwice(x: nat, b: nat)
    requires b > 0
    ensures x / 256 / b == x / (256 * b)
  {
    var q, r := x / 256, x % 256;
    var s, t := q / b, q % b;
    var p := b * s;
    assert q == p + t && x == 256 * p + (256 * t + r);
    assert (256 * b) * s == 256 * p;
    QuotientIs(x, 256 * b, s, 256 * t + r);
  }

  lemma QuotientIs(x: nat, d: nat, q: nat, r: nat)
    requires d > 0 && x == d * q + r && r < d
    ensures x / d == q
  {
    var p := x / d;
    var e := p - q;
    assert d * e == r - x % d;
    assert e >= 1 ==> d * e >= d;
    assert e <= -1 ==> d * e + d <= 0;
  }

  lemma {:induction false} ReverseSnoc<T>(s: seq<T>, x: T)
    ensures Reverse(s + [x]) == [x] + Reverse(s)
  {
    if s == [] {
    } else {
      assert (s + [x])[1..] == s[1..] + [x];
      ReverseSnoc(s[1..], x);
    }
  }

  lemma {:induction false} ReverseTwice<T>(s: seq<T>)
    ensures Reverse(Reverse(s)) == s
  {
    if s != [] {
      ReverseSnoc(Reverse(s[1..]), s[0]);
      ReverseTwice(s[1..]);
    }
  }

  lemma {:induction false} BigIsReversedLittle(x: nat, w: nat)
    ensures BigEndian(x, w) == Reverse(LittleEndian(x, w))
  {
    if w > 0 {
      BigIsReversedLittle(x / 256, w - 1);
      ReverseCons(x % 256, LittleEndian(x / 256, w - 1));
    }
  }

  lemma ReverseCons<T>(x: T, s: seq<T>)
    ensures Reverse([x] + s) == Reverse(s) + [x]
  {
    assert ([x] + s)[1..] == s;
  }

  /** Bytes are the digits of their value. */
  lemma {:induction false} DigitsOfValue(b: seq<Byte>)
    ensures LittleEndian(FromLittleEndian(b), |b|) == b
  {
    if b != [] {
      DigitsOfValue(b[1..]);
      var r := FromLittleEndian(b[1..]);
      assert (b[0] + 256 * r) / 256 == r && (b[0] + 256 * r) % 256 == b[0];
    }
  }

  /** A value that fits in w bytes is the value of its bytes. */
  lemma {:induction false} ValueOfDigits(x: nat, w: nat)
    requires x < Pow2(8 * w)
    ensures FromLittleEndian(LittleEndian(x, w)) == x
  {
    if w > 0 {
      EightBits(8 * w);
      ValueOfDigits(x / 256, w - 1);
      assert LittleEndian(x, w)[1..] == LittleEndian(x / 256, w - 1);
    }
  }

  lemma EightBits(k: nat)
    requires k >= 8
    ensures Pow2(k) == 256 * Pow2(k - 8)
  {
    assert Pow2(k) == 4 * Pow2(k - 2);
    assert Pow2(k - 2) == 4 * Pow2(k - 4);
    assert Pow2(k - 4) == 4 * Pow2(k - 6);
    assert Pow2(k - 6) == 4 * Pow2(k - 8);
  }

  /** After the swap a host's memory holds the integer in network order, on either host. */
  lemma SwapGivesNetworkOrder(x: nat, w: nat, little: bool)
    ensures MemoryOf(NetSwap(x, w, little), w, little) == BigEndian(x, w)
  {
    if little {
      BigIsReversedLittle(x, w);
      DigitsOfValue(Reverse(LittleEndian(x, w)));
    }
  }

  /** Reading network order bytes and swapping gives the integer back, on either host, even
      when writer and reader differ in byte order. */
  lemma SwapReadsNetworkOrder(x: nat, w: nat, little: bool)
    requires x < Pow2(8 * w)
    ensures NetSwap(ValueOf(BigEndian(x, w), little), w, little) == x
  {
    BigIsReversedLittle(x, w);
    ReverseTwice(LittleEndian(x, w));
    ValueOfDigits(x, w);
    if little {
      DigitsOfValue(Reverse(LittleEndian(x, w)));
    }
  }

  /** On either host the swapped integer is the one whose network order was in memory. */
  lemma SwapReadsBytes(b: seq<Byte>, little: bool)
    ensures NetSwap(ValueOf(b, little), |b|, little) == FromLittleEndian(Reverse(b))
  {
    DigitsOfValue(b);
  }
}
