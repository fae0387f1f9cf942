/** Bytes, the strings of the C++ source (byte strings), and big-endian numerics. */
module Bytes {

  type byte = b: int | 0 <= b < 256

  type Text = seq<byte>

  datatype Option<+T> = None | Some(value: T)

  /** The bytes of an ASCII literal. */
  function Ascii(s: string): (t: Text)
    requires forall i :: 0 <= i < |s| ==> s[i] as int < 128
    ensures |t| == |s| && forall i :: 0 <= i < |s| ==> t[i] == s[i] as int
  {
    seq(|s|, i requires 0 <= i < |s| => s[i] as int)
  }

  ghost predicate NulFree(t: Text) {
    forall i :: 0 <= i < |t| ==> t[i] != 0
  }

  // ------------------------------------------------------------------ numerics

  function Pow256(w: nat): (p: int)
    ensures p > 0
  {
    if w == 0 then 1 else 256 * Pow256(w - 1)
  }

  /** The low-order w bytes of n, most significant first. */
  function BigEndian(w: nat, n: nat): (s: seq<byte>)
    ensures |s| == w
  {
    if w == 0 then [] else BigEndian(w - 1, n / 256) + [n % 256]
  }

  function Unsigned(s: seq<byte>): (n: nat)
    ensures n < Pow256(|s|)
  {
    if s == [] then 0 else Unsigned(s[..|s| - 1]) * 256 + s[|s| - 1]
  }

  /** The two's complement reading of s. */
  function Signed(s: seq<byte>): (v: int)
    ensures -Pow256(|s|) <= 2 * v < Pow256(|s|) || s == []
  {
    var n := Unsigned(s);
    if 2 * n >= Pow256(|s|) then n - Pow256(|s|) else n
  }

  /** A C++ integer of w bytes in network order. The remainder is the
      truncating cast: it is the identity on values that fit. */
  function Num(w: nat, v: int): (s: seq<byte>)
    ensures |s| == w
  {
    BigEndian(w, v % Pow256(w))
  }

  predicate FitsSigned(w: nat, v: int) {
    w > 0 && -Pow256(w) <= 2 * v < Pow256(w)
  }

  predicate FitsUnsigned(w: nat, v: int) {
    0 <= v < Pow256(w)
  }

  lemma {:induction false} UnsignedBigEndian(w: nat, n: nat)
    requires n < Pow256(w)
    ensures Unsigned(BigEndian(w, n)) == n
  {
    if w > 0 {
      var hi := BigEndian(w - 1, n / 256);
      assert (hi + [n % 256])[..w - 1] == hi;
      UnsignedBigEndian(w - 1, n / 256);
    }
  }

  lemma {:induction false} BigEndianUnsigned(s: seq<byte>)
    ensures BigEndian(|s|, Unsigned(s)) == s
  {
    if s != [] {
      var front, last := s[..|s| - 1], s[|s| - 1];
      BigEndianUnsigned(front);
      LastDigit(Unsigned(front), last);
      assert s == front + [last];
    }
  }

  lemma LastDigit(n: nat, d: byte)
    ensures (n * 256 + d) / 256 == n && (n * 256 + d) % 256 == d
  {
  }

  /** Network order: byte i carries the digit of weight 256^(w-1-i). */
  lemma {:induction false} BigEndianDigit(w: nat, n: nat, i: nat)
    requires i < w
    ensures BigEndian(w, n)[i] == n / Pow256(w - 1 - i) % 256
  {
    if i < w - 1 {
      BigEndianDigit(w - 1, n / 256, i);
      DivideTwice(n, Pow256(w - 2 - i));
    }
  }

  lemma DivideTwice(n: nat, p: int)
    requires p > 0
    ensures n / 256 / p == n / (256 * p)
  {
    var q := n / 256 / p;
    var r := n / 256 - q * p;
    assert 0 <= r <= p - 1;
    assert n == 256 * (q * p + r) + n % 256;
    var rest := 256 * r + n % 256;
    assert rest < 256 * p;
    assert n == q * (256 * p) + rest;
    QuotientUnique(n, 256 * p, q, rest);
  }

  lemma QuotientUnique(n: nat, d: int, q: int, rest: int)
    requires d > 0 && n == q * d + rest && 0 <= rest < d
    ensures n / d == q
  {
    SameQuotient(n / d, n % d, q, rest, d);
  }

  lemma SameQuotient(a: int, x: int, b: int, y: int, d: int)
    requires d > 0 && 0 <= x < d && 0 <= y < d && a * d + x == b * d + y
    ensures a == b
  {
    SmallMultiple(a - b, d, y - x);
  }

  lemma SmallMultiple(k: int, d: int, m: int)
    requires d > 0 && k * d == m && -d < m < d
    ensures k == 0
  {
  }

  lemma ModOnce(v: int, p: int)
    requires 0 < p && -p <= v < p
    ensures v % p == if v < 0 then v + p else v
  {
    if v < 0 {
      assert v == v / p * p + v % p;
    }
  }

  /** Two's complement is inverted at every width, on the whole signed range. */
  lemma SignedNum(w: nat, v: int)
    requires FitsSigned(w, v)
    ensures Signed(Num(w, v)) == v
  {
    ModOnce(v, Pow256(w));
    UnsignedBigEndian(w, v % Pow256(w));
  }

  lemma UnsignedNum(w: nat, v: int)
    requires FitsUnsigned(w, v)
    ensures Unsigned(Num(w, v)) == v
  {
    ModOnce(v, Pow256(w));
    UnsignedBigEndian(w, v);
  }

  /** A value of another width is truncated to its low-order bytes. */
  lemma NumTruncates(w: nat, v: int)
    ensures Unsigned(Num(w, v)) == v % Pow256(w)
  {
    UnsignedBigEndian(w, v % Pow256(w));
  }

  /** Every byte string is the encoding of the number it reads as. */
  lemma NumSigned(s: seq<byte>)
    requires s != []
    ensures FitsSigned(|s|, Signed(s)) && Num(|s|, Signed(s)) == s
  {
    ModOnce(Signed(s), Pow256(|s|));
    BigEndianUnsigned(s);
  }

  lemma Pow256Values()
    ensures Pow256(1) == 0x100 && Pow256(2) == 0x1_0000
    ensures Pow256(4) == 0x1_0000_0000 && Pow256(8) == 0x1_0000_0000_0000_0000
    ensures FitsSigned(4, INT32_MAX) && !FitsSigned(4, INT32_MAX + 1)
  {
    assert Pow256(3) == 0x100_0000;
    assert Pow256(6) == 0x1_0000_0000_0000;
    assert Pow256(5) == 0x100_0000_0000;
  }

  const INT32_MAX := 0x7fff_ffff

  // ------------------------------------------------------------------ NUL-terminated strings

  /** The position of the first NUL, or the length when there is none. */
  function IndexOfNul(s: seq<byte>): (i: nat)
    ensures i <= |s|
    ensures forall j :: 0 <= j < i ==> s[j] != 0
    ensures i < |s| ==> s[i] == 0
  {
    if s == [] || s[0] == 0 then 0 else 1 + IndexOfNul(s[1..])
  }

  lemma IndexOfNulAt(t: Text, rest: seq<byte>)
    requires NulFree(t)
    ensures IndexOfNul(t + [0] + rest) == |t|
  {
    var s := t + [0] + rest;
    assert s[|t|] == 0;
    assert s[..|t|] == t;
  }

  // ------------------------------------------------------------------ concatenation of pieces

  function Flatten<T>(ss: seq<seq<T>>): seq<T> {
    if ss == [] then [] else ss[0] + Flatten(ss[1..])
  }

  lemma {:induction false} FlattenAppend<T>(a: seq<seq<T>>, b: seq<seq<T>>)
    ensures Flatten(a + b) == Flatten(a) + Flatten(b)
  {
    if a == [] {
      assert a + b == b;
    } else {
      assert (a + b)[0] == a[0] && (a + b)[1..] == a[1..] + b;
      FlattenAppend(a[1..], b);
    }
  }

  /** A prefix that reaches beyond a goes on as a prefix of b. */
  lemma PrefixBeyond<T>(a: seq<T>, b: seq<T>, w: seq<T>)
    requires w <= a + b && |w| >= |a|
    ensures w == a + w[|a|..] && w[|a|..] <= b
  {
    assert w == (a + b)[..|w|];
    assert w[|a|..] == b[..|w| - |a|];
  }

  lemma Regroup<T>(a: seq<T>, b: seq<T>, c: seq<T>)
    ensures a + b + c == a + (b + c)
  {
  }
}
