/** Java's `String.compareTo` and `String.hashCode` on `seq<char>`.
    A Java string is a sequence of UTF-16 code units, and both operations
    work on those units, so a character above U+FFFF counts as its two
    surrogates. Dafny's `<` on sequences means "proper prefix", so the
    lexicographic order the source relies on (TreeSet / TreeMultimap keys,
    the canonical edge direction of the dependency graphs) is defined here. */
module LexOrder {

  /** The UTF-16 code units of one character: itself below U+10000,
      otherwise a high surrogate and a low surrogate. */
  function CodeUnits(c: char): (u: seq<int>)
    ensures |u| == 1 <==> c as int < 0x1_0000
    ensures |u| == 1 || |u| == 2
    ensures forall i :: 0 <= i < |u| ==> 0 <= u[i] < 0x1_0000
    ensures |u| == 2 ==> 0xD800 <= u[0] < 0xDC00 <= u[1] < 0xE000
  {
    var v := c as int;
    if v < 0x1_0000 then [v]
    else [0xD800 + (v - 0x1_0000) / 0x400, 0xDC00 + (v - 0x1_0000) % 0x400]
  }

  /** The UTF-16 code units Java stores for a string. */
  function Utf16(s: string): (u: seq<int>)
    ensures |s| <= |u|
    decreases |s|
  {
    if |s| == 0 then [] else CodeUnits(s[0]) + Utf16(s[1..])
  }

  /** The code units of one character determine it, and they are never a
      proper prefix of another character's units, so a unit sequence
      splits into characters in one way only. */
  lemma CodeUnitsPrefixFree(c: char, d: char, x: seq<int>, y: seq<int>)
    requires CodeUnits(c) + x == CodeUnits(d) + y
    ensures c == d && x == y
  {
    var u, w := CodeUnits(c), CodeUnits(d);
    assert u[0] == (u + x)[0] == (w + y)[0] == w[0];
    if |u| == 2 {
      assert |w| == 2;
      assert u[1] == (u + x)[1] == (w + y)[1] == w[1];
      var v, t := c as int - 0x1_0000, d as int - 0x1_0000;
      assert v == (v / 0x400) * 0x400 + v % 0x400;
      assert t == (t / 0x400) * 0x400 + t % 0x400;
    }
    assert x == (u + x)[|u|..] == (w + y)[|w|..] == y;
  }

  /** Distinct strings have distinct UTF-16 encodings. */
  lemma {:induction false} Utf16Injective(a: string, b: string)
    ensures Utf16(a) == Utf16(b) <==> a == b
    decreases |a|
  {
    if Utf16(a) == Utf16(b) && |a| > 0 && |b| > 0 {
      CodeUnitsPrefixFree(a[0], b[0], Utf16(a[1..]), Utf16(b[1..]));
      Utf16Injective(a[1..], b[1..]);
      assert a == [a[0]] + a[1..] && b == [b[0]] + b[1..];
    }
  }

  /** `compareTo` on code units: the difference of the first differing
      units, or the difference of the lengths when one sequence is a
      prefix of the other. */
  function CompareUnits(a: seq<int>, b: seq<int>): int
    decreases |a|
  {
    if |a| == 0 || |b| == 0 then |a| - |b|
    else if a[0] != b[0] then a[0] - b[0]
    else CompareUnits(a[1..], b[1..])
  }

  /** `a.compareTo(b)` */
  function Compare(a: string, b: string): int {
    CompareUnits(Utf16(a), Utf16(b))
  }

  /** `a.compareTo(b) < 0` */
  predicate Less(a: string, b: string) {
    Compare(a, b) < 0
  }

  /** The textbook lexicographic order, stated without recursion: either `a`
      is a proper prefix of `b`, or they agree up to a position where `a` has
      the smaller unit. */
  ghost predicate Lexicographic(a: seq<int>, b: seq<int>) {
    (|a| < |b| && a == b[..|a|])
    || exists k :: 0 <= k < |a| && k < |b| && a[..k] == b[..k] && a[k] < b[k]
  }

  lemma {:induction false} CompareUnitsZeroIffEqual(a: seq<int>, b: seq<int>)
    ensures CompareUnits(a, b) == 0 <==> a == b
    decreases |a|
  {
    if |a| == 0 || |b| == 0 {
    } else if a[0] != b[0] {
    } else {
      CompareUnitsZeroIffEqual(a[1..], b[1..]);
      assert a == [a[0]] + a[1..] && b == [b[0]] + b[1..];
    }
  }

  lemma {:induction false} CompareUnitsAntisymmetric(a: seq<int>, b: seq<int>)
    ensures CompareUnits(b, a) == -CompareUnits(a, b)
    decreases |a|
  {
    if |a| == 0 || |b| == 0 {
    } else if a[0] != b[0] {
    } else {
      CompareUnitsAntisymmetric(a[1..], b[1..]);
    }
  }

  lemma {:induction false} CompareUnitsTransitive(a: seq<int>, b: seq<int>, c: seq<int>)
    requires CompareUnits(a, b) < 0 && CompareUnits(b, c) < 0
    ensures CompareUnits(a, c) < 0
    decreases |a|
  {
    if |a| == 0 || |b| == 0 || |c| == 0 {
    } else if a[0] != b[0] || b[0] != c[0] {
    } else {
      CompareUnitsTransitive(a[1..], b[1..], c[1..]);
    }
  }

  /** A negative comparison is exactly the lexicographic order. */
  lemma {:induction false} CompareUnitsIsLexicographic(a: seq<int>, b: seq<int>)
    ensures CompareUnits(a, b) < 0 <==> Lexicographic(a, b)
    decreases |a|
  {
    if |a| == 0 || |b| == 0 {
      if |a| == 0 && |b| > 0 {
        assert a == b[..|a|];
      }
    } else if a[0] != b[0] {
      if a[0] < b[0] {
        assert a[..0] == b[..0];
      } else {
        forall k | 0 <= k < |a| && k < |b| && a[..k] == b[..k]
          ensures !(a[k] < b[k])
        {
        }
        if |a| < |b| {
          assert a[0] == a[..|a|][0];
        }
      }
    } else {
      var a', b' := a[1..], b[1..];
      CompareUnitsIsLexicographic(a', b');
      if Lexicographic(a', b') {
        if |a'| < |b'| && a' == b'[..|a'|] {
          assert a == [a[0]] + a' && b[..|a|] == [b[0]] + b'[..|a'|];
        } else {
          var k :| 0 <= k < |a'| && k < |b'| && a'[..k] == b'[..k] && a'[k] < b'[k];
          assert a[..k + 1] == [a[0]] + a'[..k] && b[..k + 1] == [b[0]] + b'[..k];
        }
      }
      if Lexicographic(a, b) {
        if |a| < |b| && a == b[..|a|] {
          assert a' == b'[..|a'|];
        } else {
          var k :| 0 <= k < |a| && k < |b| && a[..k] == b[..k] && a[k] < b[k];
          assert k > 0;
          assert a'[..k - 1] == a[1..k] == b[1..k] == b'[..k - 1];
        }
      }
    }
  }

  lemma CompareZeroIffEqual(a: string, b: string)
    ensures Compare(a, b) == 0 <==> a == b
  {
    CompareUnitsZeroIffEqual(Utf16(a), Utf16(b));
    Utf16Injective(a, b);
  }

  lemma CompareAntisymmetric(a: string, b: string)
    ensures Compare(b, a) == -Compare(a, b)
  {
    CompareUnitsAntisymmetric(Utf16(a), Utf16(b));
  }

  lemma LessIrreflexive(a: string)
    ensures !Less(a, a)
  {
    CompareZeroIffEqual(a, a);
  }

  lemma LessAsymmetric(a: string, b: string)
    ensures Less(a, b) ==> !Less(b, a)
  {
    CompareAntisymmetric(a, b);
  }

  /** Distinct strings are always ordered one way or the other. */
  lemma LessTotal(a: string, b: string)
    ensures a != b ==> Less(a, b) || Less(b, a)
  {
    CompareZeroIffEqual(a, b);
    CompareAntisymmetric(a, b);
  }

  lemma LessTransitive(a: string, b: string, c: string)
    requires Less(a, b) && Less(b, c)
    ensures Less(a, c)
  {
    CompareUnitsTransitive(Utf16(a), Utf16(b), Utf16(c));
  }

  /** `Less` is exactly the lexicographic order of the UTF-16 code units. */
  lemma LessIsLexicographic(a: string, b: string)
    ensures Less(a, b) <==> Lexicographic(Utf16(a), Utf16(b))
  {
    CompareUnitsIsLexicographic(Utf16(a), Utf16(b));
  }

  /** Code-unit order is not code-point order: U+10000 is encoded as
      surrogates, which sort below U+FDF0. */
  lemma SupplementarySortsBelowHighBmp()
    ensures Less("\U{10000}", "\U{FDF0}")
    ensures "\U{FDF0}"[0] < "\U{10000}"[0]
  {
    assert Utf16("\U{10000}") == [0xD800, 0xDC00];
    assert Utf16("\U{FDF0}") == [0xFDF0];
  }

  const TwoTo31: int := 0x8000_0000
  const TwoTo32: int := 0x1_0000_0000

  /** Two's-complement wrap-around of Java `int` arithmetic. */
  function WrapInt32(x: int): (r: int)
    ensures -TwoTo31 <= r < TwoTo31
    ensures (r - x) % TwoTo32 == 0
  {
    (x + TwoTo31) % TwoTo32 - TwoTo31
  }

  /** `h = 31 * h + u` over the code units, in 32-bit arithmetic. */
  function HashUnits(u: seq<int>): (h: int)
    ensures -TwoTo31 <= h < TwoTo31
    decreases |u|
  {
    if |u| == 0 then 0 else WrapInt32(31 * HashUnits(u[..|u| - 1]) + u[|u| - 1])
  }

  /** `s.hashCode()` */
  function Hash(s: string): (h: int)
    ensures -TwoTo31 <= h < TwoTo31
  {
    HashUnits(Utf16(s))
  }
}
