/**
 * The parts of `java.lang.String` and `java.lang.Integer` that the core
 * relies on: `compareTo` (the natural order of lines), the ordering
 * facts `Collections.sort` needs from it, `Integer.toHexString`, and the
 * comma-separated fields of an output row.
 *
 * Characters are compared by their code value. On text without
 * supplementary characters this is Java's order of UTF-16 code units.
 */
module Strings {

  type Line = string

  /** `String.compareTo`: the difference of the first differing characters,
      or else the difference of the lengths. It is zero exactly on equal strings. */
  function CompareTo(a: string, b: string): (r: int)
    ensures r == 0 <==> a == b
    decreases |a|
  {
    if a == [] || b == [] then |a| - |b|
    else if a[0] != b[0] then a[0] as int - b[0] as int
    else
      var r := CompareTo(a[1..], b[1..]);
      assert a == [a[0]] + a[1..] && b == [b[0]] + b[1..];
      r
  }

  /** `a.compareTo(b) <= 0` */
  predicate LessEq(a: string, b: string) {
    CompareTo(a, b) <= 0
  }

  lemma {:induction false} CompareToAntisymmetric(a: string, b: string)
    ensures CompareTo(a, b) == -CompareTo(b, a)
    decreases |a|
  {
    if a != [] && b != [] && a[0] == b[0] {
      CompareToAntisymmetric(a[1..], b[1..]);
    }
  }

  lemma LessEqTotal(a: string, b: string)
    ensures LessEq(a, b) || LessEq(b, a)
    ensures LessEq(a, b) && LessEq(b, a) ==> a == b
  {
    CompareToAntisymmetric(a, b);
  }

  lemma {:induction false} LessEqTransitive(a: string, b: string, c: string)
    requires LessEq(a, b) && LessEq(b, c)
    ensures LessEq(a, c)
    decreases |a|
  {
    if a == [] || b == [] || c == [] {
    } else if a[0] == b[0] && b[0] == c[0] {
      LessEqTransitive(a[1..], b[1..], c[1..]);
    }
  }

  /** Ascending in the natural order of lines, as `Collections.sort` leaves a list. */
  predicate Sorted(s: seq<Line>) {
    forall i, j :: 0 <= i < j < |s| ==> LessEq(s[i], s[j])
  }

  /** Inserts `x` before the first element that is not below it. */
  function Insert(x: Line, s: seq<Line>): (r: seq<Line>)
    ensures |r| == |s| + 1
  {
    if s == [] then [x]
    else if LessEq(x, s[0]) then [x] + s
    else [s[0]] + Insert(x, s[1..])
  }

  /** The ascending arrangement of `s` (insertion sort). */
  function SortedCopy(s: seq<Line>): (r: seq<Line>)
    ensures |r| == |s|
  {
    if s == [] then [] else Insert(s[0], SortedCopy(s[1..]))
  }

  lemma {:induction false} InsertKeepsOrder(x: Line, s: seq<Line>)
    requires Sorted(s)
    ensures Sorted(Insert(x, s))
    ensures multiset(Insert(x, s)) == multiset(s) + multiset{x}
  {
    if s == [] {
    } else if LessEq(x, s[0]) {
      var r := [x] + s;
      forall i, j | 0 <= i < j < |r| ensures LessEq(r[i], r[j]) {
        if i == 0 && j > 1 { LessEqTransitive(x, s[0], s[j - 1]); }
      }
    } else {
      InsertKeepsOrder(x, s[1..]);
      var t := Insert(x, s[1..]);
      var r := [s[0]] + t;
      LessEqTotal(x, s[0]);
      assert s == [s[0]] + s[1..];
      forall k | 0 <= k < |t| ensures LessEq(s[0], t[k]) {
        assert t[k] in multiset(s[1..]) + multiset{x};
        if t[k] != x {
          assert t[k] in s[1..];
          var m :| 0 <= m < |s[1..]| && s[1..][m] == t[k];
          assert s[m + 1] == t[k];
        }
      }
      forall i, j | 0 <= i < j < |r| ensures LessEq(r[i], r[j]) {
        if i > 0 { assert r[i] == t[i - 1] && r[j] == t[j - 1]; }
      }
    }
  }

  /** What `Collections.sort` promises: the result is ascending and a permutation. */
  lemma {:induction false} SortedCopyIsSortedPermutation(s: seq<Line>)
    ensures Sorted(SortedCopy(s))
    ensures multiset(SortedCopy(s)) == multiset(s)
  {
    if s != [] {
      SortedCopyIsSortedPermutation(s[1..]);
      InsertKeepsOrder(s[0], SortedCopy(s[1..]));
      assert s == [s[0]] + s[1..];
    }
  }

  /** Any two ascending permutations of one list are equal, so `SortedCopy`
      is exactly the list `Collections.sort` produces. */
  lemma {:induction false} SortedPermutationUnique(a: seq<Line>, b: seq<Line>)
    requires Sorted(a) && Sorted(b)
    requires multiset(a) == multiset(b)
    ensures a == b
    decreases |a|
  {
    if a != [] {
      assert |b| == |multiset(b)| == |a|;
      assert a[0] in multiset(b) && b[0] in multiset(a);
      HeadIsLeast(b, a[0]);
      HeadIsLeast(a, b[0]);
      LessEqTotal(a[0], b[0]);
      var x := a[0];
      assert a == [x] + a[1..] && b == [x] + b[1..];
      assert multiset(a[1..]) == multiset(a) - multiset{x};
      assert multiset(b[1..]) == multiset(b) - multiset{x};
      SortedTail(a);
      SortedTail(b);
      SortedPermutationUnique(a[1..], b[1..]);
    }
  }

  lemma HeadIsLeast(s: seq<Line>, x: Line)
    requires Sorted(s) && x in s
    ensures LessEq(s[0], x)
  {
    var i :| 0 <= i < |s| && s[i] == x;
    if i > 0 { assert LessEq(s[0], s[i]); }
  }

  lemma SortedTail(s: seq<Line>)
    requires Sorted(s) && s != []
    ensures Sorted(s[1..])
  {
    forall i, j | 0 <= i < j < |s| - 1 ensures LessEq(s[1..][i], s[1..][j]) {
      assert LessEq(s[i + 1], s[j + 1]);
    }
  }

  /** The digit for `d` in Java's lower-case hexadecimal. */
  function HexDigit(d: nat): char
    requires d < 16
  {
    "0123456789abcdef"[d]
  }

  /** `Integer.toHexString` of a 32-bit value read as unsigned: no leading zeros, "0" for zero. */
  function ToHexString(n: nat): (s: string)
    ensures |s| >= 1 && (n > 0 ==> s[0] != '0')
    decreases n
  {
    if n < 16 then [HexDigit(n)] else ToHexString(n / 16) + [HexDigit(n % 16)]
  }

  function Pow16(k: nat): (r: nat)
    ensures r >= 1
  {
    if k == 0 then 1 else 16 * Pow16(k - 1)
  }

  /** The `w` lowest hexadecimal digits of `n`, zero-padded. */
  function FixedHex(n: nat, w: nat): (s: string)
    ensures |s| == w
  {
    if w == 0 then "" else FixedHex(n / 16, w - 1) + [HexDigit(n % 16)]
  }

  /** The value of a string of lower-case hexadecimal digits. */
  function HexValue(s: string): nat
  {
    if s == [] then 0
    else 16 * HexValue(s[..|s| - 1]) + DigitValue(s[|s| - 1])
  }

  function DigitValue(c: char): (d: nat)
    ensures d < 16
  {
    if '0' <= c <= '9' then c as nat - '0' as nat
    else if 'a' <= c <= 'f' then c as nat - 'a' as nat + 10
    else 0
  }

  /** `toHexString(n)` has more than `k` digits exactly when `n >= 16^k` (for `k >= 1`). */
  lemma {:induction false} HexLength(n: nat, k: nat)
    requires k >= 1
    ensures |ToHexString(n)| > k <==> n >= Pow16(k)
    decreases n
  {
    if n >= 16 && k > 1 {
      HexLength(n / 16, k - 1);
    }
    if n < 16 {
      assert Pow16(k) >= 16 by { PowMonotone(1, k); }
    }
  }

  lemma {:induction false} PowMonotone(j: nat, k: nat)
    requires j <= k
    ensures Pow16(j) <= Pow16(k)
    decreases k
  {
    if j < k { PowMonotone(j, k - 1); }
  }

  /** The last `w` digits of `toHexString(n)` are the `w` lowest digits of `n`. */
  lemma {:induction false} HexSuffix(n: nat, w: nat)
    requires |ToHexString(n)| >= w
    ensures ToHexString(n)[|ToHexString(n)| - w..] == FixedHex(n, w)
    decreases n
  {
    var s := ToHexString(n);
    if w == 0 {
    } else if n < 16 {
      assert FixedHex(n / 16, 0) == "";
    } else {
      HexSuffix(n / 16, w - 1);
      var p := ToHexString(n / 16);
      assert s == p + [HexDigit(n % 16)];
      assert s[|s| - w..] == p[|p| - (w - 1)..] + [HexDigit(n % 16)];
    }
  }

  /** The `w` lowest digits of `n` depend only on `n` modulo `16^w`. */
  lemma {:induction false} FixedHexMod(n: nat, w: nat)
    ensures FixedHex(n, w) == FixedHex(n % Pow16(w), w)
  {
    if w > 0 {
      var p := Pow16(w - 1);
      var a, r := (n / 16) % p, n % 16;
      ModSplit(n, p);
      var m := n % Pow16(w);
      assert m == 16 * a + r;
      DivMod16(m, a, r);
      FixedHexMod(n / 16, w - 1);
    }
  }

  lemma DivMod16(m: nat, a: nat, r: nat)
    requires r < 16 && m == 16 * a + r
    ensures m / 16 == a && m % 16 == r
  {
  }

  lemma DigitRoundTrip(d: nat)
    requires d < 16
    ensures DigitValue(HexDigit(d)) == d
  {
  }

  /** Reading the `w` lowest digits back gives `n` modulo `16^w`. */
  lemma {:induction false} FixedHexValue(n: nat, w: nat)
    ensures HexValue(FixedHex(n, w)) == n % Pow16(w)
  {
    if w > 0 {
      FixedHexValue(n / 16, w - 1);
      var s := FixedHex(n, w);
      assert s[..|s| - 1] == FixedHex(n / 16, w - 1);
      DigitRoundTrip(n % 16);
      ModSplit(n, Pow16(w - 1));
    }
  }

  /** `n mod 16m` from `n / 16 mod m` and `n mod 16`. */
  lemma ModSplit(n: nat, m: nat)
    requires m >= 1
    ensures 16 * ((n / 16) % m) + n % 16 == n % (16 * m)
  {
    var q, r := n / 16, n % 16;
    var a, b := q / m, q % m;
    assert n == 16 * q + r;
    assert q == m * a + b;
    assert n == (16 * m) * a + (16 * b + r);
    assert 0 <= 16 * b + r < 16 * m;
    ModUnique(n, 16 * m, a, 16 * b + r);
  }

  lemma ModUnique(n: nat, m: nat, a: nat, t: nat)
    requires m >= 1 && t < m && n == m * a + t
    ensures n % m == t
  {
    var q, r := n / m, n % m;
    assert n == m * q + r;
    assert m * (a - q) == r - t;
    if a > q {
      MulAtLeast(m, a - q);
    } else if a < q {
      MulAtLeast(m, q - a);
    }
  }

  lemma MulAtLeast(m: nat, k: int)
    requires k >= 1
    ensures m * k >= m
  {
  }

  /** Decimal digits of a natural number, as `Long.toString` prints a non-negative long. */
  function DecimalString(n: nat): (s: string)
    ensures |s| >= 1
    ensures forall i :: 0 <= i < |s| ==> '0' <= s[i] <= '9'
  {
    if n < 10 then ["0123456789"[n]] else DecimalString(n / 10) + ["0123456789"[n % 10]]
  }

  /** The fields joined by `sep`; no fields give the empty string. */
  function Join(fields: seq<string>, sep: char): (r: string)
    ensures fields != [] ==> fields[0] <= r
    ensures |fields| > 1 ==> fields[0] + [sep] <= r
  {
    if |fields| == 0 then ""
    else if |fields| == 1 then fields[0]
    else fields[0] + [sep] + Join(fields[1..], sep)
  }

  /** The fields of `s` between occurrences of `sep`, empty fields kept. */
  function Split(s: string, sep: char): (r: seq<string>)
    ensures |r| >= 1
    decreases |s|
  {
    if s == [] then [""]
    else
      var rest := Split(s[1..], sep);
      if s[0] == sep then [""] + rest else [[s[0]] + rest[0]] + rest[1..]
  }

  lemma {:induction false} SplitPlain(a: string, sep: char)
    requires sep !in a
    ensures Split(a, sep) == [a]
    decreases |a|
  {
    if a != [] {
      SplitPlain(a[1..], sep);
      assert a == [a[0]] + a[1..];
    }
  }

  lemma {:induction false} SplitAt(a: string, sep: char, b: string)
    requires sep !in a
    ensures Split(a + [sep] + b, sep) == [a] + Split(b, sep)
    decreases |a|
  {
    var s := a + [sep] + b;
    if a == [] {
      assert s[1..] == b;
    } else {
      assert s[1..] == a[1..] + [sep] + b;
      SplitAt(a[1..], sep, b);
      assert a == [a[0]] + a[1..];
    }
  }

  /** Splitting undoes joining when no field holds the separator. */
  lemma {:induction false} SplitJoin(fields: seq<string>, sep: char)
    requires |fields| >= 1
    requires forall i :: 0 <= i < |fields| ==> sep !in fields[i]
    ensures Split(Join(fields, sep), sep) == fields
    decreases |fields|
  {
    if |fields| == 1 {
      SplitPlain(fields[0], sep);
    } else {
      SplitJoin(fields[1..], sep);
      SplitAt(fields[0], sep, Join(fields[1..], sep));
      assert fields == [fields[0]] + fields[1..];
    }
  }
}
