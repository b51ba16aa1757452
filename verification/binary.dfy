/** Byte strings and the pieces of Go's standard library the client leans on:
    the big-endian codec of encoding/binary, Go's fixed-width integers,
    `copy` into a zero-filled buffer, and decimal formatting (strconv). */
module Binary {

  type byte = b: int | 0 <= b < 256

  type Uint16 = n: nat | n < 0x1_0000
  type Uint32 = n: nat | n < 0x1_0000_0000
  type Uint64 = n: nat | n < 0x1_0000_0000_0000_0000

  /** Go's `int` on the 64-bit targets the client is built for. */
  type GoInt = x: int | -0x8000_0000_0000_0000 <= x < 0x8000_0000_0000_0000

  const Two16: int := 0x1_0000
  const Two32: int := 0x1_0000_0000
  const Two64: int := 0x1_0000_0000_0000_0000

  /** Go's integer division a / b for b > 0, which truncates toward zero. */
  function GoQuotient(a: int, b: int): (q: int)
    requires b > 0
    ensures 0 <= a ==> q == a / b
    ensures a < 0 ==> q <= 0
  {
    if a >= 0 then a / b else -((-a) / b)
  }

  /** 256^k, the number of values k bytes can hold. */
  function Pow256(k: nat): (r: nat)
    ensures r > 0
  {
    if k == 0 then 1 else 256 * Pow256(k - 1)
  }

  lemma PowersOf256()
    ensures Pow256(2) == Two16 && Pow256(4) == Two32 && Pow256(8) == Two64
  {
  }

  /** Big-endian reading of a byte string (binary.BigEndian.Uint16/32/64). */
  function FromBE(s: seq<byte>): (r: nat)
    ensures r < Pow256(|s|)
    ensures |s| == 2 ==> r < Two16
    ensures |s| == 4 ==> r < Two32
    ensures |s| == 8 ==> r < Two64
  {
    PowersOf256();
    if |s| == 0 then 0 else FromBE(s[..|s| - 1]) * 256 + s[|s| - 1]
  }

  /** Big-endian writing of n into k bytes (binary.BigEndian.PutUint16/32/64);
      reading the bytes back yields n. */
  function ToBE(n: nat, k: nat): (r: seq<byte>)
    requires n < Pow256(k)
    ensures |r| == k
    ensures FromBE(r) == n
  {
    if k == 0 then [] else
      var high := ToBE(n / 256, k - 1);
      var r := high + [n % 256];
      assert r[..k - 1] == high;
      r
  }

  /** The other round trip: re-encoding what was read gives back the same bytes. */
  lemma {:induction false} ToBEFromBE(s: seq<byte>)
    ensures ToBE(FromBE(s), |s|) == s
  {
    if |s| > 0 {
      var prefix := s[..|s| - 1];
      ToBEFromBE(prefix);
      var n := FromBE(s);
      assert n / 256 == FromBE(prefix);
      assert n % 256 == s[|s| - 1];
      assert s == prefix + [s[|s| - 1]];
    }
  }

  /** Equal big-endian values of equal width are equal byte strings. */
  lemma FromBEInjective(a: seq<byte>, b: seq<byte>)
    requires |a| == |b|
    requires FromBE(a) == FromBE(b)
    ensures a == b
  {
    ToBEFromBE(a);
    ToBEFromBE(b);
  }

  /** A big-endian value is zero exactly when every byte is zero. */
  lemma {:induction false} FromBEZero(s: seq<byte>)
    ensures FromBE(s) == 0 <==> forall i :: 0 <= i < |s| ==> s[i] == 0
  {
    if |s| > 0 {
      var prefix := s[..|s| - 1];
      FromBEZero(prefix);
      assert forall i :: 0 <= i < |s| - 1 ==> s[i] == prefix[i];
    }
  }

  /** A slice of the part after a prefix, read through the whole. */
  lemma SliceAfter<T>(prefix: seq<T>, c: seq<T>, lo: nat, hi: nat)
    requires lo <= hi <= |c|
    ensures (prefix + c)[|prefix| + lo .. |prefix| + hi] == c[lo..hi]
  {
  }

  /** A slice of the part before a suffix, read through the whole. */
  lemma SliceBefore<T>(a: seq<T>, suffix: seq<T>, lo: nat, hi: nat)
    requires lo <= hi <= |a|
    ensures (a + suffix)[lo..hi] == a[lo..hi]
  {
  }

  /** Where each of five joined parts lies in the whole. */
  lemma Concat5(a: seq<byte>, b: seq<byte>, c: seq<byte>, d: seq<byte>, e: seq<byte>)
    ensures var r := a + b + c + d + e;
      var i, j, k, l := |a|, |a| + |b|, |a| + |b| + |c|, |a| + |b| + |c| + |d|;
      && r[..i] == a && r[i..j] == b && r[j..k] == c && r[k..l] == d && r[l..] == e
  {
  }

  function Zeros(n: nat): (r: seq<byte>)
    ensures |r| == n
    ensures forall i :: 0 <= i < n ==> r[i] == 0
  {
    seq(n, _ => 0)
  }

  /** What Go's `copy(dst, src)` leaves in a zero-filled destination of
      `width` bytes: `src` cut to `width` bytes, or zero-padded up to it. */
  function Padded(src: seq<byte>, width: nat): (r: seq<byte>)
    ensures |r| == width
    ensures forall i :: 0 <= i < width ==> r[i] == if i < |src| then src[i] else 0
    ensures |src| == width ==> r == src
  {
    if |src| >= width then src[..width] else src + Zeros(width - |src|)
  }

  /** Concatenation of a sequence of byte strings, in order. */
  function Flatten(parts: seq<seq<byte>>): (r: seq<byte>)
  {
    if |parts| == 0 then [] else parts[0] + Flatten(parts[1..])
  }

  /** The bytes of a string whose characters are all below 256 (Go's []byte(s) on ASCII text). */
  function Ascii(s: string): (r: seq<byte>)
    requires forall i :: 0 <= i < |s| ==> s[i] as int < 256
    ensures |r| == |s|
    ensures forall i :: 0 <= i < |s| ==> r[i] == s[i] as int
  {
    seq(|s|, i requires 0 <= i < |s| => s[i] as int)
  }

  /** The character of a decimal digit. */
  function Digit(d: nat): (c: char)
    requires d < 10
    ensures '0' <= c <= '9'
    ensures c as int - '0' as int == d
  {
    ('0' as int + d) as char
  }

  /** A string of decimal digits. */
  predicate AllDigits(s: string)
  {
    forall i :: 0 <= i < |s| ==> '0' <= s[i] <= '9'
  }

  /** The value of a string of decimal digits, read most significant first
      (the reading strconv.Atoi gives a digit string). */
  function DecimalValue(s: string): (n: nat)
    requires AllDigits(s)
  {
    if |s| == 0 then 0
    else 10 * DecimalValue(s[..|s| - 1]) + (s[|s| - 1] as int - '0' as int)
  }

  /** Decimal rendering of a natural number, as strconv.Itoa / FormatUint(n, 10)
      print it: digits only, with no leading zero. */
  function Decimal(n: nat): (r: string)
    ensures 1 <= |r| && AllDigits(r)
    ensures n < 10 <==> |r| == 1
    ensures |r| > 1 ==> r[0] != '0'
  {
    if n < 10 then [Digit(n)] else Decimal(n / 10) + [Digit(n % 10)]
  }

  /** Reading the rendering back gives the number. */
  lemma {:induction false} DecimalReadsBack(n: nat)
    ensures DecimalValue(Decimal(n)) == n
  {
    if n >= 10 {
      DecimalReadsBack(n / 10);
      var r := Decimal(n);
      assert r[..|r| - 1] == Decimal(n / 10);
    }
  }
}
