/**
 * `CountPair`: a colour key and the number of pixels counted for it, with
 * Java's `equals`/`hashCode` contract. Arithmetic in `hashCode` is 32-bit and
 * wraps around; it is written out below.
 */
module CountPairs {
  const TwoTo32: int := 0x1_0000_0000
  const TwoTo64: int := 0x1_0000_0000_0000_0000

  /** A pair as a value: the list holding pairs only ever replaces them. */
  datatype CountPair = CountPair(hexColor: string, count: int)
  {
    function GetHexColor(): string { hexColor }

    function GetCount(): int { count }

    /** `setHexColor`: the colour changes and the count does not. */
    function SetHexColor(h: string): (r: CountPair)
      ensures r.GetHexColor() == h && r.GetCount() == GetCount()
    {
      this.(hexColor := h)
    }

    /** `setCount`: the count changes and the colour does not. */
    function SetCount(c: int): (r: CountPair)
      ensures r.GetCount() == c && r.GetHexColor() == GetHexColor()
    {
      this.(count := c)
    }

    /** `equals`: null and objects of another class are never equal; a pair is
        equal exactly to a pair with the same colour and the same count. */
    function Equals(obj: JavaObject): (r: bool)
      ensures r <==> obj == APair(this)
    {
      match obj
      case NullRef => false
      case OtherClass => false
      case APair(other) => hexColor == other.hexColor && count == other.count
    }

    /** `hashCode`: `83 * (83 * 5 + hash(hexColor)) + hash(count)` in 32-bit
        arithmetic. */
    function HashCode(): (h: int)
      ensures IsInt(h)
    {
      WrapInt(83 * WrapInt(83 * 5 + StringHash(hexColor)) + LongHash(count))
    }
  }

  /** What `equals` can be handed. */
  datatype JavaObject = NullRef | OtherClass | APair(pair: CountPair)

  predicate IsInt(x: int) {
    -0x8000_0000 <= x < 0x8000_0000
  }

  /** A mathematical integer reduced to a Java `int`: the value in int range
      that agrees with `x` modulo 2^32. */
  function WrapInt(x: int): (r: int)
    ensures IsInt(r)
    ensures (x - r) % TwoTo32 == 0
  {
    ModSplit(x + 0x8000_0000, TwoTo32);
    (x + 0x8000_0000) % TwoTo32 - 0x8000_0000
  }

  /** `String.hashCode`: `h = 31 * h + c` over the characters, in `int`. */
  function StringHash(s: string): (h: int)
    ensures IsInt(h)
  {
    if s == [] then 0 else WrapInt(31 * StringHash(s[..|s| - 1]) + s[|s| - 1] as int)
  }

  /** The same polynomial without wrap-around. */
  function Polynomial(s: string): int
  {
    if s == [] then 0 else 31 * Polynomial(s[..|s| - 1]) + s[|s| - 1] as int
  }

  /** `Long.hashCode`: the low 32 bits of `v ^ (v >>> 32)` read as an `int`. */
  function LongHash(v: int): (h: int)
    ensures IsInt(h)
  {
    var bits := v % TwoTo64;
    var low, high := bits % TwoTo32, bits / TwoTo32;
    assert high < TwoTo32 by { DivBound(bits, TwoTo32, TwoTo32); }
    WrapInt(((low as bv32) ^ (high as bv32)) as int)
  }

  lemma DivBound(n: nat, d: nat, q: nat)
    requires d > 0 && n < d * q
    ensures n / d < q
  {
  }

  /** `x` is `m * (x / m) + x % m` with a remainder in `[0, m)`. */
  lemma ModSplit(x: int, m: int)
    requires m > 0
    ensures 0 <= x % m < m && x == m * (x / m) + x % m
  {
  }

  /** A remainder is determined by any decomposition `x == m * a + r`. */
  lemma ModOfMultiple(x: int, m: int, a: int, r: int)
    requires m > 0 && 0 <= r < m && x == m * a + r
    ensures x % m == r
  {
    var q := x / m;
    assert x == m * q + x % m;
    assert m * (a - q) == x % m - r;
    if a - q >= 1 {
      assert false;
    } else if a - q <= -1 {
      assert false;
    }
  }

  /** Values that agree modulo 2^32 wrap to the same `int`. */
  lemma WrapCongruent(x: int, y: int)
    requires (x - y) % TwoTo32 == 0
    ensures WrapInt(x) == WrapInt(y)
  {
    var m := TwoTo32;
    var k := (x - y) / m;
    assert x - y == m * k;
    var r := (y + 0x8000_0000) % m;
    var a := (y + 0x8000_0000) / m;
    assert y + 0x8000_0000 == m * a + r;
    assert x + 0x8000_0000 == m * (a + k) + r;
    ModOfMultiple(x + 0x8000_0000, m, a + k, r);
  }

  /** One step of `h = 31 * h + c` keeps two values congruent modulo 2^32. */
  lemma StepCongruent(p: int, h: int, c: int)
    requires (p - h) % TwoTo32 == 0
    ensures WrapInt(31 * p + c) == WrapInt(31 * h + c)
  {
    var k := (p - h) / TwoTo32;
    assert p - h == TwoTo32 * k;
    assert (31 * p + c) - (31 * h + c) == TwoTo32 * (31 * k);
    ModOfMultiple((31 * p + c) - (31 * h + c), TwoTo32, 31 * k, 0);
    WrapCongruent(31 * p + c, 31 * h + c);
  }

  /** Wrapping after every step of `String.hashCode` gives the wrap of the
      exact polynomial: `s[0]*31^(n-1) + ... + s[n-1]` reduced to an `int`. */
  lemma {:induction false} StringHashIsWrappedPolynomial(s: string)
    ensures StringHash(s) == WrapInt(Polynomial(s))
  {
    if s != [] {
      var init := s[..|s| - 1];
      StringHashIsWrappedPolynomial(init);
      StepCongruent(Polynomial(init), StringHash(init), s[|s| - 1] as int);
    }
  }

  /** Equal pairs have equal hash codes. */
  lemma EqualPairsHashAlike(a: CountPair, b: CountPair)
    requires a.Equals(APair(b))
    ensures a.HashCode() == b.HashCode()
  {
  }

  /** `equals` is reflexive and symmetric. */
  lemma EqualsIsEquivalence(a: CountPair, b: CountPair)
    ensures a.Equals(APair(a))
    ensures a.Equals(APair(b)) <==> b.Equals(APair(a))
  {
  }

  /** The getters return what the constructor was given. */
  lemma GettersReturnFields(h: string, c: int)
    ensures CountPair(h, c).GetHexColor() == h && CountPair(h, c).GetCount() == c
  {
  }
}
