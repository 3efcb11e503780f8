/**
 * The perceptual-hash distance of the scan worker (app/workers.py:161-168):
 * each hex digit of the lower-cased hash becomes four '0'/'1' characters,
 * any other character becomes "0000", and the distance is the number of
 * positions at which the two bit strings differ, counted only as far as the
 * shorter one reaches. An empty hash is at distance 64 from everything.
 */
module Hamming {
  import opened PathText

  /** The distance reported when either hash is empty. */
  const EmptyDistance := 64

  /** The value of a lower-case hexadecimal digit, or -1 for any other character. */
  function HexValue(c: char): (v: int)
    ensures -1 <= v < 16
    ensures v >= 0 <==> ('0' <= c <= '9' || 'a' <= c <= 'f')
  {
    if '0' <= c <= '9' then c as int - '0' as int
    else if 'a' <= c <= 'f' then c as int - 'a' as int + 10
    else -1
  }

  function BitChar(b: int): char
    requires 0 <= b < 2
  {
    if b == 1 then '1' else '0'
  }

  /** `format(v, '04b')`: four binary digits, most significant first. */
  function Bits4(v: int): (s: string)
    requires 0 <= v < 16
    ensures |s| == 4
  {
    [BitChar(v / 8), BitChar(v / 4 % 2), BitChar(v / 2 % 2), BitChar(v % 2)]
  }

  function BitValue(c: char): int
  {
    if c == '1' then 1 else 0
  }

  /** Reads four binary digits back as a number. */
  function Bits4Value(s: string): int
    requires |s| == 4
  {
    8 * BitValue(s[0]) + 4 * BitValue(s[1]) + 2 * BitValue(s[2]) + BitValue(s[3])
  }

  /** `format(v, '04b')` loses nothing: reading the digits back gives v. */
  lemma Bits4RoundTrip(v: int)
    requires 0 <= v < 16
    ensures Bits4Value(Bits4(v)) == v
  {
  }

  /** `HEX_TO_BITS.get(c, "0000")` */
  function NibbleBits(c: char): (s: string)
    ensures |s| == 4
  {
    var v := HexValue(c);
    if v >= 0 then Bits4(v) else "0000"
  }

  /** `''.join(HEX_TO_BITS.get(c, "0000") for c in t)` */
  function Expand(t: string): (b: string)
    ensures |b| == 4 * |t|
  {
    if t == [] then [] else Expand(t[..|t| - 1]) + NibbleBits(t[|t| - 1])
  }

  /** The bit string the distance compares for a hash as given. */
  function BitString(h: string): string
  {
    Expand(Lower(h))
  }

  /** `sum(ch1 != ch2 for ch1, ch2 in zip(a, b))`: differing positions up to
      the end of the shorter string. */
  function CountDiff(a: string, b: string): (n: nat)
    ensures n <= |a| && n <= |b|
  {
    if a == [] || b == [] then 0
    else (if a[0] != b[0] then 1 else 0) + CountDiff(a[1..], b[1..])
  }

  /** `hamming(h1, h2)` */
  function Distance(h1: string, h2: string): (d: nat)
    ensures h1 == [] || h2 == [] ==> d == EmptyDistance
    ensures h1 != [] && h2 != [] ==> d <= 4 * |Lower(h1)| && d <= 4 * |Lower(h2)|
  {
    if h1 == [] || h2 == [] then EmptyDistance
    else CountDiff(BitString(h1), BitString(h2))
  }

  lemma {:induction false} CountDiffSymmetric(a: string, b: string)
    ensures CountDiff(a, b) == CountDiff(b, a)
  {
    if a != [] && b != [] {
      CountDiffSymmetric(a[1..], b[1..]);
    }
  }

  /** A bit string compared with itself followed by anything has no differing position. */
  lemma {:induction false} CountDiffPrefix(a: string, c: string)
    ensures CountDiff(a, a + c) == 0
  {
    if a != [] {
      assert (a + c)[0] == a[0];
      assert (a + c)[1..] == a[1..] + c;
      CountDiffPrefix(a[1..], c);
    }
  }

  /** No differing position and equal lengths means equal strings. */
  lemma {:induction false} CountDiffZero(a: string, b: string)
    requires |a| == |b| && CountDiff(a, b) == 0
    ensures a == b
  {
    if a != [] {
      CountDiffZero(a[1..], b[1..]);
      assert a == [a[0]] + a[1..] && b == [b[0]] + b[1..];
    }
  }

  /** `hamming` is symmetric. */
  lemma DistanceSymmetric(h1: string, h2: string)
    ensures Distance(h1, h2) == Distance(h2, h1)
  {
    if h1 != [] && h2 != [] {
      CountDiffSymmetric(BitString(h1), BitString(h2));
    }
  }

  /** Every non-empty hash is at distance 0 from itself, while the empty
      hash is at distance 64 even from itself. */
  lemma DistanceToSelf(h: string)
    ensures Distance(h, h) == if h == [] then EmptyDistance else 0
  {
    if h != [] {
      CountDiffPrefix(BitString(h), []);
      assert BitString(h) + [] == BitString(h);
    }
  }

  lemma {:induction false} ExpandAppend(a: string, b: string)
    ensures Expand(a + b) == Expand(a) + Expand(b)
    decreases |b|
  {
    if b == [] {
      assert a + b == a;
    } else {
      var b' := b[..|b| - 1];
      assert (a + b)[..|a + b| - 1] == a + b';
      assert (a + b)[|a + b| - 1] == b[|b| - 1];
      ExpandAppend(a, b');
    }
  }

  /** Only the overlap is compared: a non-empty hash that is a prefix of the
      other is at distance 0 from it, whatever follows. */
  lemma DistanceToExtension(h: string, rest: string)
    requires h != []
    ensures Distance(h, h + rest) == 0
  {
    LowerAppend(h, rest);
    ExpandAppend(Lower(h), Lower(rest));
    CountDiffPrefix(BitString(h), Expand(Lower(rest)));
  }

  /** Letter case does not matter: lower-casing an argument first changes nothing. */
  lemma DistanceIgnoresCase(h1: string, h2: string)
    ensures Distance(Lower(h1), h2) == Distance(h1, h2)
  {
    LowerIdempotent(h1);
    assert h1 == [] <==> Lower(h1) == [];
  }

  /** A character that is not a hex digit reads as "0000": "G" and "0" are at distance 0. */
  lemma NonHexReadsAsZero()
    ensures Distance("G", "0") == 0
  {
    var z := "0000";
    NonHexBits();
    SampleBits();
    CountDiffPrefix(z, []);
    assert z + [] == z;
  }

  /** "G" lower-cases to "g", which is not a hex digit. */
  lemma NonHexBits()
    ensures BitString("G") == "0000"
  {
    OneChar('G');
    OneChar('g');
    assert LowerChar('G') == "g";
  }

  /** The bit strings of "0", "1" and "3". */
  lemma SampleBits()
    ensures BitString("0") == "0000" && BitString("1") == "0001" && BitString("3") == "0011"
  {
    DigitBits('0');
    DigitBits('1');
    DigitBits('3');
    Bits4Samples();
  }

  lemma Bits4Samples()
    ensures Bits4(0) == "0000" && Bits4(1) == "0001" && Bits4(3) == "0011"
  {
  }

  /** Lower-casing and expanding a one-character string work on that character. */
  lemma OneChar(c: char)
    ensures Lower([c]) == LowerChar(c)
    ensures Expand([c]) == NibbleBits(c)
  {
    assert [c][..0] == [];
  }

  /** The four bits of a hex digit identify the digit. */
  lemma NibbleBitsInjective(c: char, d: char)
    requires HexValue(c) >= 0 && HexValue(d) >= 0
    requires NibbleBits(c) == NibbleBits(d)
    ensures c == d
  {
    Bits4RoundTrip(HexValue(c));
    Bits4RoundTrip(HexValue(d));
  }

  predicate IsLowerHex(t: string)
  {
    forall k :: 0 <= k < |t| ==> HexValue(t[k]) >= 0
  }

  lemma {:induction false} ExpandInjective(x: string, y: string)
    requires IsLowerHex(x) && IsLowerHex(y) && |x| == |y|
    requires Expand(x) == Expand(y)
    ensures x == y
  {
    if x != [] {
      var n := |x| - 1;
      ExpandSplit(x, y);
      ExpandInjective(x[..n], y[..n]);
      assert x == x[..n] + [x[n]] && y == y[..n] + [y[n]];
    }
  }

  /** Equal expansions of equally long hex strings agree in their last
      characters and in the expansions of the rest. */
  lemma ExpandSplit(x: string, y: string)
    requires IsLowerHex(x) && IsLowerHex(y) && |x| == |y| && x != []
    requires Expand(x) == Expand(y)
    ensures IsLowerHex(x[..|x| - 1]) && IsLowerHex(y[..|y| - 1])
    ensures Expand(x[..|x| - 1]) == Expand(y[..|y| - 1]) && x[|x| - 1] == y[|y| - 1]
  {
    var n := |x| - 1;
    ExpandLast(x);
    ExpandLast(y);
    LowerHexPrefix(x, n);
    LowerHexPrefix(y, n);
    NibbleBitsInjective(x[n], y[n]);
  }

  /** The expansion of a non-empty string is that of all but its last
      character followed by the last character's four bits. */
  lemma ExpandLast(x: string)
    requires x != []
    ensures Expand(x)[..4 * (|x| - 1)] == Expand(x[..|x| - 1])
    ensures Expand(x)[4 * (|x| - 1)..] == NibbleBits(x[|x| - 1])
  {
  }

  lemma LowerHexPrefix(x: string, n: nat)
    requires IsLowerHex(x) && n <= |x|
    ensures IsLowerHex(x[..n])
  {
    forall k | 0 <= k < n
      ensures HexValue(x[..n][k]) >= 0
    {
      assert x[..n][k] == x[k];
    }
  }

  lemma {:induction false} LowerOfLowerHex(t: string)
    requires IsLowerHex(t)
    ensures Lower(t) == t
  {
    if t != [] {
      var n := |t| - 1;
      assert IsLowerHex(t[..n]) by {
        forall k | 0 <= k < n
          ensures HexValue(t[..n][k]) >= 0
        {
          assert t[..n][k] == t[k];
        }
      }
      LowerOfLowerHex(t[..n]);
      assert HexValue(t[n]) >= 0;
      assert LowerChar(t[n]) == [t[n]];
      assert t == t[..n] + [t[n]];
    }
  }

  /** On well-formed fingerprints (equally long, lower-case hex digits only)
      distance 0 means the fingerprints are identical. */
  lemma ZeroDistanceMeansEqual(h1: string, h2: string)
    requires h1 != [] && |h1| == |h2| && IsLowerHex(h1) && IsLowerHex(h2)
    requires Distance(h1, h2) == 0
    ensures h1 == h2
  {
    LowerOfLowerHex(h1);
    LowerOfLowerHex(h2);
    CountDiffZero(Expand(h1), Expand(h2));
    ExpandInjective(h1, h2);
  }

  /** A single decimal digit expands to its four binary digits. */
  lemma DigitBits(c: char)
    requires '0' <= c <= '9'
    ensures BitString([c]) == Bits4(c as int - '0' as int)
  {
    OneChar(c);
    assert LowerChar(c) == [c];
  }

  /** Two four-character strings differ in as many positions as there are
      unequal pairs among their four characters. */
  lemma CountDiffFour(a: string, b: string)
    requires |a| == 4 && |b| == 4
    ensures CountDiff(a, b) == Unequal(a[0], b[0]) + Unequal(a[1], b[1]) + Unequal(a[2], b[2]) + Unequal(a[3], b[3])
  {
    assert a[1..][1..][1..][1..] == [];
    assert CountDiff(a[3..], b[3..]) == Unequal(a[3], b[3]) by {
      assert a[3..][1..] == [] && b[3..][1..] == [];
    }
    assert CountDiff(a[2..], b[2..]) == Unequal(a[2], b[2]) + CountDiff(a[3..], b[3..]) by {
      assert a[2..][1..] == a[3..] && b[2..][1..] == b[3..];
    }
    assert CountDiff(a[1..], b[1..]) == Unequal(a[1], b[1]) + CountDiff(a[2..], b[2..]) by {
      assert a[1..][1..] == a[2..] && b[1..][1..] == b[2..];
    }
  }

  function Unequal(x: char, y: char): nat
  {
    if x != y then 1 else 0
  }

  /** "0" and "3" differ in two bits, "0" and "1" in one, "3" and "1" in one. */
  lemma SampleDistances()
    ensures Distance("0", "3") == 2 && Distance("0", "1") == 1 && Distance("3", "1") == 1
  {
    SampleBits();
    CountDiffFour("0000", "0011");
    CountDiffFour("0000", "0001");
    CountDiffFour("0011", "0001");
  }
}
