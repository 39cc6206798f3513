/**
 * The parts of java.lang.String that the record merger relies on: the natural
 * order `compareTo` (used to sort record identifiers), ASCII lower-casing and
 * `endsWith` (used to pick input files by extension), and sorting a set of
 * strings into ascending order.
 *
 * A Java String is a sequence of UTF-16 code units, and `compareTo` compares
 * the first differing code unit, or the lengths when one string is a prefix of
 * the other. A Dafny `string` is a sequence of Unicode scalar values, so the
 * order is stated on characters through `UnitRank` and then proved equal to the
 * code-unit comparison of the UTF-16 encodings (`LessIsUtf16Order`).
 */
module JavaStrings {

  /** Position of a character in Java's UTF-16 code-unit order: characters below
      the surrogate block come first, then every supplementary character (its
      leading unit is a high surrogate, 0xD800-0xDBFF), then U+E000-U+FFFF. */
  function UnitRank(c: char): int
  {
    if c as int < 0xD800 then c as int
    else if c as int < 0x1_0000 then c as int + 0x11_0000
    else c as int
  }

  lemma UnitRankInjective(c: char, d: char)
    requires UnitRank(c) == UnitRank(d)
    ensures c == d
  {
  }

  /** `a.compareTo(b) < 0` */
  predicate Less(a: string, b: string)
  {
    if a == [] then b != []
    else if b == [] then false
    else if a[0] != b[0] then UnitRank(a[0]) < UnitRank(b[0])
    else Less(a[1..], b[1..])
  }

  lemma {:induction false} LessIrreflexive(a: string)
    ensures !Less(a, a)
  {
    if a != [] {
      LessIrreflexive(a[1..]);
    }
  }

  lemma {:induction false} LessAsymmetric(a: string, b: string)
    requires Less(a, b)
    ensures !Less(b, a)
  {
    if a != [] && b != [] && a[0] == b[0] {
      LessAsymmetric(a[1..], b[1..]);
    }
  }

  lemma {:induction false} LessTransitive(a: string, b: string, c: string)
    requires Less(a, b) && Less(b, c)
    ensures Less(a, c)
  {
    if a != [] && a[0] == b[0] && b[0] == c[0] {
      LessTransitive(a[1..], b[1..], c[1..]);
    }
  }

  lemma {:induction false} LessTotal(a: string, b: string)
    requires a != b
    ensures Less(a, b) || Less(b, a)
  {
    if a != [] && b != [] {
      if a[0] == b[0] {
        assert a[1..] != b[1..];
        LessTotal(a[1..], b[1..]);
      } else if UnitRank(a[0]) == UnitRank(b[0]) {
        UnitRankInjective(a[0], b[0]);
      }
    }
  }

  /** `Less` is a strict total order on strings. */
  lemma LessIsStrictTotalOrder()
    ensures forall a :: !Less(a, a)
    ensures forall a, b :: Less(a, b) ==> !Less(b, a)
    ensures forall a, b, c :: Less(a, b) && Less(b, c) ==> Less(a, c)
    ensures forall a, b :: a != b ==> Less(a, b) || Less(b, a)
  {
    forall a { LessIrreflexive(a); }
    forall a, b | Less(a, b) { LessAsymmetric(a, b); }
    forall a, b, c | Less(a, b) && Less(b, c) { LessTransitive(a, b, c); }
    forall a, b | a != b { LessTotal(a, b); }
  }

  // ---------------------------------------------------------------------------
  // The same order on UTF-16 code units, as String.compareTo computes it.

  /** The UTF-16 encoding of one character: one unit, or a surrogate pair. */
  function Utf16(c: char): (units: seq<int>)
    ensures 1 <= |units| <= 2
  {
    var v := c as int;
    if v < 0x1_0000 then [v]
    else [0xD800 + (v - 0x1_0000) / 0x400, 0xDC00 + (v - 0x1_0000) % 0x400]
  }

  function Encode(s: string): (units: seq<int>)
    ensures |units| >= |s|
  {
    if s == [] then [] else Utf16(s[0]) + Encode(s[1..])
  }

  /** The loop of String.compareTo: the first differing unit decides, and
      otherwise the shorter sequence is the smaller. */
  predicate UnitsLess(u: seq<int>, v: seq<int>)
  {
    if u == [] then v != []
    else if v == [] then false
    else if u[0] != v[0] then u[0] < v[0]
    else UnitsLess(u[1..], v[1..])
  }

  lemma {:induction false} UnitsLessCommonPrefix(p: seq<int>, u: seq<int>, v: seq<int>)
    ensures UnitsLess(p + u, p + v) == UnitsLess(u, v)
  {
    if p != [] {
      assert (p + u)[0] == (p + v)[0] == p[0];
      assert (p + u)[1..] == p[1..] + u;
      assert (p + v)[1..] == p[1..] + v;
      UnitsLessCommonPrefix(p[1..], u, v);
    } else {
      assert p + u == u && p + v == v;
    }
  }

  /** Two different characters: their encodings' first differing unit gives
      the order that UnitRank gives. */
  lemma FirstCharDecides(c: char, d: char, u: seq<int>, v: seq<int>)
    requires c != d
    ensures UnitsLess(Utf16(c) + u, Utf16(d) + v) == (UnitRank(c) < UnitRank(d))
  {
    var x, y := c as int, d as int;
    var cu, du := Utf16(c) + u, Utf16(d) + v;
    if x < 0x1_0000 && y < 0x1_0000 {
      assert cu[0] == x && du[0] == y;
    } else if x < 0x1_0000 {
      assert cu[0] == x && du[0] == 0xD800 + (y - 0x1_0000) / 0x400;
    } else if y < 0x1_0000 {
      assert cu[0] == 0xD800 + (x - 0x1_0000) / 0x400 && du[0] == y;
    } else {
      var hx, hy := (x - 0x1_0000) / 0x400, (y - 0x1_0000) / 0x400;
      var lx, ly := (x - 0x1_0000) % 0x400, (y - 0x1_0000) % 0x400;
      assert x == 0x1_0000 + 0x400 * hx + lx && y == 0x1_0000 + 0x400 * hy + ly;
      assert cu[0] == 0xD800 + hx && du[0] == 0xD800 + hy;
      if hx == hy {
        assert cu[1..] == [0xDC00 + lx] + u;
        assert du[1..] == [0xDC00 + ly] + v;
        assert lx != ly;
      }
    }
  }

  /** Less is Java's String.compareTo order: the code-unit order of the
      UTF-16 encodings. */
  lemma {:induction false} LessIsUtf16Order(a: string, b: string)
    ensures Less(a, b) == UnitsLess(Encode(a), Encode(b))
  {
    if a != [] && b != [] {
      if a[0] == b[0] {
        UnitsLessCommonPrefix(Utf16(a[0]), Encode(a[1..]), Encode(b[1..]));
        LessIsUtf16Order(a[1..], b[1..]);
      } else {
        FirstCharDecides(a[0], b[0], Encode(a[1..]), Encode(b[1..]));
      }
    }
  }

  /** The order is not code-point order: U+10000 sorts before U+E000, because
      its leading unit is a surrogate (0xD800) and 0xD800 < 0xE000. */
  lemma SupplementaryBeforeUpperBmp()
    ensures Less("\U{10000}", "\U{E000}")
    ensures UnitsLess(Encode("\U{10000}"), Encode("\U{E000}"))
    ensures '\U{10000}' as int > '\U{E000}' as int
  {
    LessIsUtf16Order("\U{10000}", "\U{E000}");
  }

  // ---------------------------------------------------------------------------
  // Sorting a set of strings.

  predicate StrictlyAscending(s: seq<string>)
  {
    forall i, j :: 0 <= i < j < |s| ==> Less(s[i], s[j])
  }

  predicate IsMinimum(m: string, keys: set<string>)
  {
    m in keys && forall y :: y in keys && y != m ==> Less(m, y)
  }

  lemma {:induction false} MinimumExists(keys: set<string>)
    requires keys != {}
    ensures exists m :: IsMinimum(m, keys)
    decreases |keys|
  {
    var x :| x in keys;
    var rest := keys - {x};
    if rest == {} {
      assert keys == {x};
      assert IsMinimum(x, keys);
    } else {
      MinimumExists(rest);
      var m :| IsMinimum(m, rest);
      if Less(x, m) {
        forall y | y in keys && y != x ensures Less(x, y) {
          if y != m {
            LessTransitive(x, m, y);
          }
        }
        assert IsMinimum(x, keys);
      } else {
        LessTotal(x, m);
        assert IsMinimum(m, keys);
      }
    }
  }

  /** A string below every element of an ascending list extends it at the front. */
  lemma AscendingCons(m: string, rest: seq<string>)
    requires StrictlyAscending(rest)
    requires forall j :: 0 <= j < |rest| ==> Less(m, rest[j])
    ensures StrictlyAscending([m] + rest)
  {
    var s := [m] + rest;
    forall i, j | 0 <= i < j < |s| ensures Less(s[i], s[j]) {
      assert s[j] == rest[j - 1];
      if i > 0 {
        assert s[i] == rest[i - 1];
      }
    }
  }

  lemma MinimumIsUnique(keys: set<string>)
    ensures forall a, b :: IsMinimum(a, keys) && IsMinimum(b, keys) ==> a == b
  {
    forall a, b | IsMinimum(a, keys) && IsMinimum(b, keys) ensures a == b {
      if a != b {
        LessAsymmetric(a, b);
      }
    }
  }

  /** The keys of a set in ascending `compareTo` order, each exactly once. */
  function SortedKeys(keys: set<string>): (r: seq<string>)
    ensures |r| == |keys|
    ensures forall x :: x in r <==> x in keys
    ensures StrictlyAscending(r)
    decreases |keys|
  {
    if keys == {} then []
    else
      MinimumExists(keys);
      MinimumIsUnique(keys);
      var m :| IsMinimum(m, keys);
      var rest := SortedKeys(keys - {m});
      assert forall j :: 0 <= j < |rest| ==> rest[j] in rest && rest[j] in keys - {m};
      AscendingCons(m, rest);
      [m] + rest
  }

  // ---------------------------------------------------------------------------
  // Lower-casing and suffixes.

  /** String.toLowerCase restricted to ASCII letters. */
  function AsciiLower(s: string): (r: string)
    ensures |r| == |s|
  {
    seq(|s|, i requires 0 <= i < |s| =>
      if 'A' <= s[i] <= 'Z' then (s[i] as int + 32) as char else s[i])
  }

  /** String.endsWith */
  predicate EndsWith(s: string, suffix: string)
  {
    |suffix| <= |s| && s[|s| - |suffix|..] == suffix
  }
}
