/**
 * The top-3 colour tracker of `TopRgbTask` as values: the colour key of a
 * pixel, the positional insertion `checkChangeTopRgb` performs on the list of
 * at most three `CountPair`s, and the scan of `findTopRgb` that counts every
 * pixel's key and offers the new count to the list.
 */
module TopRgb {
  import opened Strings
  import opened Optional
  import opened CountPairs

  /** `TOP_COUNT`: the list never holds more entries. */
  const TopCount: nat := 3

  /** A pixel as `getRGB` returns it, its 32 bits read as an unsigned number, as
      `Integer.toHexString` reads them. */
  type Argb = v: nat | v < 0x1_0000_0000

  /** `"#"` followed by the last six digits of `toHexString`; `None` where
      `substring` throws because the hex string is shorter than six digits. */
  function ColorKey(argb: Argb): (r: Option<string>)
    ensures r.Some? ==> |r.value| == 7 && r.value[0] == '#'
  {
    var buf := ToHexString(argb);
    if |buf| < 6 then None else Some("#" + buf[|buf| - 6..])
  }

  /** The key exists exactly when the value needs six or more hex digits (alpha
      zero and red below 0x10 is the only way to fall short); it is `#` and six
      digits that spell the red, green and blue bytes. */
  lemma ColorKeyShape(argb: Argb)
    ensures ColorKey(argb).None? <==> argb < 0x10_0000
    ensures ColorKey(argb).Some? ==>
      var k := ColorKey(argb).value;
      |k| == 7 && k[0] == '#' && k[1..] == FixedHex(argb, 6) && HexValue(k[1..]) == argb % 0x100_0000
  {
    assert Pow16(5) == 0x10_0000 && Pow16(6) == 0x100_0000;
    HexLength(argb, 5);
    var buf := ToHexString(argb);
    if |buf| >= 6 {
      HexSuffix(argb, 6);
      FixedHexValue(argb, 6);
      assert ColorKey(argb).value[1..] == buf[|buf| - 6..];
    }
  }

  /** Two pixels with keys share a key exactly when they have the same red,
      green and blue bytes: alpha does not enter the key. */
  lemma ColorKeyIsRgb(a: Argb, b: Argb)
    requires ColorKey(a).Some? && ColorKey(b).Some?
    ensures ColorKey(a) == ColorKey(b) <==> a % 0x100_0000 == b % 0x100_0000
  {
    ColorKeyShape(a);
    ColorKeyShape(b);
    assert Pow16(6) == 0x100_0000;
    FixedHexMod(a, 6);
    FixedHexMod(b, 6);
    var ka, kb := ColorKey(a).value, ColorKey(b).value;
    if a % 0x100_0000 == b % 0x100_0000 {
      assert ka == "#" + ka[1..] && kb == "#" + kb[1..];
    }
    if ka == kb {
      assert HexValue(ka[1..]) == HexValue(kb[1..]);
    }
  }

  /** The first index at or after `from` holding `color` with a count below
      `count`: the search before `remove`. */
  function FirstStale(top: seq<CountPair>, color: string, count: int, from: nat): (r: Option<nat>)
    requires from <= |top|
    ensures r.Some? ==> from <= r.value < |top| && top[r.value].hexColor == color && top[r.value].count < count
    ensures r.Some? ==> forall j :: from <= j < r.value ==> !(top[j].hexColor == color && top[j].count < count)
    ensures r.None? ==> forall j :: from <= j < |top| ==> !(top[j].hexColor == color && top[j].count < count)
    decreases |top| - from
  {
    if from == |top| then None
    else if top[from].hexColor == color && top[from].count < count then Some(from)
    else FirstStale(top, color, count, from + 1)
  }

  /** `ArrayList.remove(index)`. */
  function RemoveAt<T>(s: seq<T>, i: nat): (r: seq<T>)
    requires i < |s|
    ensures |r| == |s| - 1
    ensures forall j :: 0 <= j < i ==> r[j] == s[j]
    ensures forall j :: i <= j < |r| ==> r[j] == s[j + 1]
  {
    s[..i] + s[i + 1..]
  }

  /** The index of the stale copy of `p`'s colour once `p` is set at `pos`. */
  function StaleAfterSet(top: seq<CountPair>, pos: nat, p: CountPair): Option<nat>
    requires pos < |top|
  {
    FirstStale(top[pos := p], p.hexColor, p.count, 0)
  }

  /** `set(pos, p)` followed by the removal of the first stale copy of `p`. */
  function Displaced(top: seq<CountPair>, pos: nat, p: CountPair): (r: seq<CountPair>)
    requires pos < |top|
    ensures |top| - 1 <= |r| <= |top|
  {
    var placed := top[pos := p];
    match StaleAfterSet(top, pos, p)
    case None => placed
    case Some(i) => RemoveAt(placed, i)
  }

  /** `checkChangeTopRgb(topCounts, pos, p)`; `None` where `ArrayList.add` is
      handed an index past the end and throws. */
  function Update(top: seq<CountPair>, pos: nat, p: CountPair): (r: Option<seq<CountPair>>)
    ensures |top| <= TopCount && r.Some? ==> |r.value| <= TopCount
    decreases if pos < TopCount then TopCount - pos else 0
  {
    if |top| == 0 || |top| - 1 < pos then
      if pos < TopCount then
        if pos == |top| then Some(top + [p]) else None
      else Some(top)
    else if top[pos].hexColor == p.hexColor then Some(top[pos := p])
    else if p.count > top[pos].count then
      if pos < TopCount then
        Update(Displaced(top, pos, p), pos + 1, top[pos])
      else Some(top)
    else if pos + 1 < TopCount then Update(top, pos + 1, p)
    else Some(top)
  }

  /** Every colour at most once. */
  predicate DistinctColors(top: seq<CountPair>) {
    forall i, j :: 0 <= i < j < |top| ==> top[i].hexColor != top[j].hexColor
  }

  /** The highest count at position 0, the lowest at the last position. */
  predicate NonIncreasing(top: seq<CountPair>) {
    forall i, j :: 0 <= i < j < |top| ==> top[i].count >= top[j].count
  }

  predicate Absent(top: seq<CountPair>, color: string) {
    forall i :: 0 <= i < |top| ==> top[i].hexColor != color
  }

  /** `top` is a top-3 list of the pixel counts: at most three distinct colours
      with their current counts, highest first, and every colour left out has a
      count no higher than the third entry's, which exists. */
  predicate IsTopOf(top: seq<CountPair>, counts: map<string, int>) {
    && |top| <= TopCount
    && DistinctColors(top)
    && NonIncreasing(top)
    && (forall i :: 0 <= i < |top| ==> top[i].hexColor in counts && top[i].count == counts[top[i].hexColor])
    && (forall k :: k in counts && Absent(top, k) ==> |top| == TopCount && counts[k] <= top[TopCount - 1].count)
  }

  /** In a top-3 list the first entry is a most frequent colour. */
  lemma TopFirstIsMost(top: seq<CountPair>, counts: map<string, int>)
    requires IsTopOf(top, counts) && top != []
    ensures forall k :: k in counts ==> counts[k] <= top[0].count
  {
    forall k | k in counts ensures counts[k] <= top[0].count {
      if !Absent(top, k) {
        var i :| 0 <= i < |top| && top[i].hexColor == k;
        assert i == 0 || top[0].count >= top[i].count;
      }
    }
  }

  /** The entries whose colour is not `color`. */
  function Others(top: seq<CountPair>, color: string): nat
  {
    if Absent(top, color) then |top| else |top| - 1
  }

  /** The state in which `checkChangeTopRgb(top, pos, q)` is called while one
      pixel is absorbed, for the new counts `c`: the entries before `pos` rank
      above `q` with other colours, a copy of `q`'s colour further on is a stale,
      lower count, every other entry is current, and every colour left out ranks
      below the entries and, unless three other entries remain, below `q`. */
  predicate Pending(top: seq<CountPair>, pos: nat, q: CountPair, c: map<string, int>) {
    && pos <= |top| <= TopCount
    && DistinctColors(top)
    && NonIncreasing(top)
    && (forall i :: 0 <= i < pos ==> top[i].count >= q.count && top[i].hexColor != q.hexColor)
    && (forall j :: pos <= j < |top| && top[j].hexColor == q.hexColor ==> top[j].count < q.count)
    && q.hexColor in c && c[q.hexColor] == q.count
    && (forall i :: 0 <= i < |top| && top[i].hexColor != q.hexColor ==>
          top[i].hexColor in c && top[i].count == c[top[i].hexColor])
    && (forall k :: k in c && k != q.hexColor && Absent(top, k) ==>
          && (forall i :: 0 <= i < |top| && top[i].hexColor != q.hexColor ==> c[k] <= top[i].count)
          && (Others(top, q.hexColor) >= TopCount || (c[k] <= q.count && Others(top, q.hexColor) + 1 >= TopCount)))
  }

  /** The list gets a free slot at `pos`. */
  lemma PendingAppend(top: seq<CountPair>, pos: nat, q: CountPair, c: map<string, int>)
    requires Pending(top, pos, q, c) && |top| <= pos < TopCount
    ensures Update(top, pos, q) == Some(top + [q]) && IsTopOf(top + [q], c)
  {
    var f := top + [q];
    assert Absent(top, q.hexColor);
    forall k | k in c && Absent(f, k) ensures |f| == TopCount && c[k] <= f[TopCount - 1].count {
      assert f[|top|] == q;
      assert Absent(top, k) by {
        forall i | 0 <= i < |top| ensures top[i].hexColor != k { assert f[i] == top[i]; }
      }
    }
  }

  /** Past the last position the list is full and `q` ranks last. */
  lemma PendingPastEnd(top: seq<CountPair>, pos: nat, q: CountPair, c: map<string, int>)
    requires Pending(top, pos, q, c) && |top| <= pos && pos >= TopCount
    ensures Update(top, pos, q) == Some(top) && IsTopOf(top, c)
  {
    assert Absent(top, q.hexColor);
  }

  /** The entry at `pos` has `q`'s colour and is overwritten. */
  lemma PendingSame(top: seq<CountPair>, pos: nat, q: CountPair, c: map<string, int>)
    requires Pending(top, pos, q, c) && pos < |top| && top[pos].hexColor == q.hexColor
    ensures Update(top, pos, q) == Some(top[pos := q]) && IsTopOf(top[pos := q], c)
  {
    var f := top[pos := q];
    assert Others(top, q.hexColor) == |top| - 1 by { assert !Absent(top, q.hexColor); }
    assert NonIncreasing(f) by {
      forall i, j | 0 <= i < j < |f| ensures f[i].count >= f[j].count {
        if j == pos {
        } else if i == pos {
          assert top[pos].count >= top[j].count;
        }
      }
    }
    assert DistinctColors(f) by {
      forall i, j | 0 <= i < j < |f| ensures f[i].hexColor != f[j].hexColor {
        assert top[i].hexColor != top[j].hexColor;
      }
    }
    forall i | 0 <= i < |f| ensures f[i].hexColor in c && f[i].count == c[f[i].hexColor] {
      if i != pos { assert top[i].hexColor != top[pos].hexColor; }
    }
    forall k | k in c && Absent(f, k) ensures |f| == TopCount && c[k] <= f[TopCount - 1].count {
      assert f[pos].hexColor != k;
      assert Absent(top, k) by {
        forall i | 0 <= i < |top| ensures top[i].hexColor != k {
          if i != pos { assert f[i] == top[i]; }
        }
      }
      if TopCount - 1 != pos { assert top[TopCount - 1].hexColor != top[pos].hexColor; }
    }
  }

  /** `q` ranks no higher than the entry at the last position: it is dropped. */
  lemma PendingLast(top: seq<CountPair>, pos: nat, q: CountPair, c: map<string, int>)
    requires Pending(top, pos, q, c) && pos < |top| && top[pos].hexColor != q.hexColor
    requires q.count <= top[pos].count && pos + 1 >= TopCount
    ensures Update(top, pos, q) == Some(top) && IsTopOf(top, c)
  {
    assert Absent(top, q.hexColor) by {
      forall i | 0 <= i < |top| ensures top[i].hexColor != q.hexColor {
        if i >= pos { assert i == pos; }
      }
    }
  }

  /** `q` ranks no higher than the entry at `pos`: the walk goes on at `pos + 1`. */
  lemma PendingPass(top: seq<CountPair>, pos: nat, q: CountPair, c: map<string, int>)
    requires Pending(top, pos, q, c) && pos < |top| && top[pos].hexColor != q.hexColor
    requires q.count <= top[pos].count
    ensures Pending(top, pos + 1, q, c)
  {
  }

  /** Where entry `j` of the list after the removal at `r` came from. */
  function Source(r: Option<nat>, j: nat): nat {
    if r.Some? && j >= r.value then j + 1 else j
  }

  /** The list after `q` takes slot `pos` and its stale copy is removed: every
      entry but the one at `pos` is an entry of `top` with another colour than
      `q`'s, taken in order, and the entry at `pos` itself is gone. */
  lemma DisplacedEntries(top: seq<CountPair>, pos: nat, q: CountPair)
    requires pos < |top| && DistinctColors(top) && top[pos].hexColor != q.hexColor
    requires forall i :: 0 <= i < pos ==> top[i].hexColor != q.hexColor
    requires forall j :: pos <= j < |top| && top[j].hexColor == q.hexColor ==> top[j].count < q.count
    ensures var rest, r := Displaced(top, pos, q), StaleAfterSet(top, pos, q);
      && |rest| == Others(top, q.hexColor) > pos
      && rest[pos] == q
      && (forall j :: 0 <= j < |rest| && j != pos ==>
            && Source(r, j) < |top| && Source(r, j) != pos
            && (j < pos <==> Source(r, j) < pos)
            && rest[j] == top[Source(r, j)] && top[Source(r, j)].hexColor != q.hexColor)
      && (forall i, j :: 0 <= i < j < |rest| ==> Source(r, i) < Source(r, j))
  {
    var placed := top[pos := q];
    var r := StaleAfterSet(top, pos, q);
    var rest := Displaced(top, pos, q);
    if r.Some? {
      var st := r.value;
      assert st != pos;
      assert placed[st] == top[st];
      assert !Absent(top, q.hexColor);
      forall j | 0 <= j < |rest| && j != pos
        ensures top[Source(r, j)].hexColor != q.hexColor && rest[j] == top[Source(r, j)]
      {
        assert Source(r, j) != st;
        assert top[Source(r, j)].hexColor != top[st].hexColor;
      }
    } else {
      assert Absent(top, q.hexColor) by {
        forall i | 0 <= i < |top| ensures top[i].hexColor != q.hexColor {
          if i > pos { assert placed[i] == top[i]; }
        }
      }
    }
  }

  /** After the displacement the list is still of distinct colours, highest
      count first, and the displaced colour is no longer in it. */
  lemma DisplacedOrdered(top: seq<CountPair>, pos: nat, q: CountPair, c: map<string, int>)
    requires Pending(top, pos, q, c) && pos < |top| && top[pos].hexColor != q.hexColor
    requires q.count > top[pos].count
    ensures var rest := Displaced(top, pos, q);
      DistinctColors(rest) && NonIncreasing(rest) && Absent(rest, top[pos].hexColor)
  {
    var rest, r := Displaced(top, pos, q), StaleAfterSet(top, pos, q);
    DisplacedEntries(top, pos, q);
    assert DistinctColors(rest) by {
      forall i, j | 0 <= i < j < |rest| ensures rest[i].hexColor != rest[j].hexColor {
        if i != pos && j != pos {
          assert top[Source(r, i)].hexColor != top[Source(r, j)].hexColor;
        }
      }
    }
    assert NonIncreasing(rest) by {
      forall i, j | 0 <= i < j < |rest| ensures rest[i].count >= rest[j].count {
        if i == pos {
          assert top[pos].count >= top[Source(r, j)].count;
        } else if j != pos {
          assert top[Source(r, i)].count >= top[Source(r, j)].count;
        }
      }
    }
    forall j | 0 <= j < |rest| ensures rest[j].hexColor != top[pos].hexColor {
      if j != pos { assert top[Source(r, j)].hexColor != top[pos].hexColor; }
    }
  }

  /** Every entry of `top` with neither `q`'s colour nor the slot `pos` is kept. */
  lemma DisplacedKeeps(top: seq<CountPair>, pos: nat, q: CountPair, c: map<string, int>, m: nat)
    requires Pending(top, pos, q, c) && pos < |top| && top[pos].hexColor != q.hexColor
    requires q.count > top[pos].count
    requires m < |top| && m != pos && top[m].hexColor != q.hexColor
    ensures exists j :: 0 <= j < |Displaced(top, pos, q)| && Displaced(top, pos, q)[j] == top[m]
  {
    var placed := top[pos := q];
    var r := StaleAfterSet(top, pos, q);
    var rest := Displaced(top, pos, q);
    if r.Some? {
      assert placed[r.value] == top[r.value];
      if m < r.value {
        assert rest[m] == top[m];
      } else {
        assert rest[m - 1] == top[m];
      }
    } else {
      assert rest[m] == top[m];
    }
  }

  /** A colour left out of the list after the displacement was left out before
      and is not `q`'s: it ranks at most as high as the displaced entry. */
  lemma DisplacedOutside(top: seq<CountPair>, pos: nat, q: CountPair, c: map<string, int>, k: string)
    requires Pending(top, pos, q, c) && pos < |top| && top[pos].hexColor != q.hexColor
    requires q.count > top[pos].count
    requires k in c && k != top[pos].hexColor && Absent(Displaced(top, pos, q), k)
    ensures k != q.hexColor && Absent(top, k)
    ensures c[k] <= top[pos].count
  {
    var rest := Displaced(top, pos, q);
    DisplacedEntries(top, pos, q);
    assert rest[pos].hexColor == q.hexColor;
    forall m | 0 <= m < |top| ensures top[m].hexColor != k {
      if m != pos && top[m].hexColor != q.hexColor {
        DisplacedKeeps(top, pos, q, c, m);
      }
    }
  }

  /** `q` ranks above the entry at `pos`: it takes the slot, its stale copy goes,
      and the displaced entry is offered from `pos + 1`. */
  lemma PendingDisplace(top: seq<CountPair>, pos: nat, q: CountPair, c: map<string, int>)
    requires Pending(top, pos, q, c) && pos < |top| && top[pos].hexColor != q.hexColor
    requires q.count > top[pos].count
    ensures Pending(Displaced(top, pos, q), pos + 1, top[pos], c)
  {
    var temp := top[pos];
    var rest, r := Displaced(top, pos, q), StaleAfterSet(top, pos, q);
    DisplacedEntries(top, pos, q);
    DisplacedOrdered(top, pos, q, c);
    forall i | 0 <= i < pos + 1 ensures rest[i].count >= temp.count && rest[i].hexColor != temp.hexColor {
      if i < pos { assert top[i].count >= top[pos].count; }
    }
    forall i | 0 <= i < |rest| && rest[i].hexColor != temp.hexColor
      ensures rest[i].hexColor in c && rest[i].count == c[rest[i].hexColor]
    {
      if i != pos { assert top[Source(r, i)].hexColor != q.hexColor; }
    }
    forall k | k in c && k != temp.hexColor && Absent(rest, k)
      ensures forall i :: 0 <= i < |rest| && rest[i].hexColor != temp.hexColor ==> c[k] <= rest[i].count
      ensures Others(rest, temp.hexColor) >= TopCount
        || (c[k] <= temp.count && Others(rest, temp.hexColor) + 1 >= TopCount)
    {
      DisplacedOutside(top, pos, q, c, k);
      forall i | 0 <= i < |rest| && rest[i].hexColor != temp.hexColor ensures c[k] <= rest[i].count {
        if i != pos { assert top[Source(r, i)].hexColor != q.hexColor; }
      }
    }
  }

  /** Walking the list from a pending state always ends without an exception,
      in a top-3 list of the new counts. */
  lemma {:induction false} UpdateRestores(top: seq<CountPair>, pos: nat, q: CountPair, c: map<string, int>)
    requires Pending(top, pos, q, c)
    ensures Update(top, pos, q).Some? && IsTopOf(Update(top, pos, q).value, c)
    decreases if pos < TopCount then TopCount - pos else 0
  {
    if |top| == 0 || |top| - 1 < pos {
      if pos < TopCount {
        PendingAppend(top, pos, q, c);
      } else {
        PendingPastEnd(top, pos, q, c);
      }
    } else if top[pos].hexColor == q.hexColor {
      PendingSame(top, pos, q, c);
    } else if q.count > top[pos].count {
      if pos < TopCount {
        PendingDisplace(top, pos, q, c);
        UpdateRestores(Displaced(top, pos, q), pos + 1, top[pos], c);
      } else {
        assert false;
      }
    } else if pos + 1 < TopCount {
      PendingPass(top, pos, q, c);
      UpdateRestores(top, pos + 1, q, c);
    } else {
      PendingLast(top, pos, q, c);
    }
  }

  /** The count of `key` after one more pixel with that key. */
  function Bump(counts: map<string, int>, key: string): int {
    if key in counts then counts[key] + 1 else 1
  }

  /** Counting one more pixel of colour `key` and offering its new count from
      position 0 turns a top-3 list of the old counts into one of the new. */
  lemma UpdateKeepsTop(top: seq<CountPair>, counts: map<string, int>, key: string)
    requires IsTopOf(top, counts)
    ensures var n := Bump(counts, key);
      var r := Update(top, 0, CountPair(key, n));
      r.Some? && IsTopOf(r.value, counts[key := n])
  {
    var n := Bump(counts, key);
    var q := CountPair(key, n);
    var c := counts[key := n];
    forall k | k in c && k != key && Absent(top, k)
      ensures forall i :: 0 <= i < |top| && top[i].hexColor != key ==> c[k] <= top[i].count
      ensures Others(top, key) >= TopCount || (c[k] <= q.count && Others(top, key) + 1 >= TopCount)
    {
      if !Absent(top, key) {
        var j :| 0 <= j < |top| && top[j].hexColor == key;
        assert c[k] <= top[j].count;
      }
    }
    assert Pending(top, 0, q, c);
    UpdateRestores(top, 0, q, c);
  }

  /** What the scan has built: the count of every colour key so far, the top
      list, and whether an exception has ended it. */
  datatype Scan = Scan(counts: map<string, int>, top: seq<CountPair>, thrown: bool)

  /** One pixel of the scan in `findTopRgb`: its key's count goes up by one and
      the new count is offered to the list from position 0. A pixel without a key
      throws before the count changes, an insertion past the end after it. */
  function Absorb(s: Scan, argb: Argb): (r: Scan)
    ensures s.thrown ==> r == s
    ensures ColorKey(argb).None? ==> r.thrown
    ensures |s.top| <= TopCount ==> |r.top| <= TopCount
  {
    if s.thrown then s
    else match ColorKey(argb)
      case None => s.(thrown := true)
      case Some(key) =>
        var n := Bump(s.counts, key);
        var counts := s.counts[key := n];
        match Update(s.top, 0, CountPair(key, n))
        case None => Scan(counts, s.top, true)
        case Some(top) => Scan(counts, top, false)
  }

  /** The scan of `pixels`, in order, from `s`. */
  function FeedFrom(s: Scan, pixels: seq<Argb>): (r: Scan)
    ensures s.thrown ==> r.thrown
    ensures |s.top| <= TopCount ==> |r.top| <= TopCount
  {
    if pixels == [] then s else Absorb(FeedFrom(s, pixels[..|pixels| - 1]), pixels[|pixels| - 1])
  }

  /** The scan from an empty map and an empty list. */
  function Feed(pixels: seq<Argb>): (r: Scan)
    ensures |r.top| <= TopCount
  {
    FeedFrom(Scan(map[], [], false), pixels)
  }

  /** Scanning one more pixel is absorbing it. */
  lemma FeedFromSnoc(s: Scan, pixels: seq<Argb>, argb: Argb)
    ensures FeedFrom(s, pixels + [argb]) == Absorb(FeedFrom(s, pixels), argb)
  {
    assert (pixels + [argb])[..|pixels|] == pixels;
  }

  /** Once the scan has thrown, further pixels change nothing. */
  lemma {:induction false} FeedFromThrown(s: Scan, pixels: seq<Argb>)
    requires s.thrown
    ensures FeedFrom(s, pixels) == s
  {
    if pixels != [] {
      FeedFromThrown(s, pixels[..|pixels| - 1]);
    }
  }

  /** Scanning `a` and then `b` is scanning `a + b`. */
  lemma {:induction false} FeedFromAppend(s: Scan, a: seq<Argb>, b: seq<Argb>)
    ensures FeedFrom(s, a + b) == FeedFrom(FeedFrom(s, a), b)
  {
    if b == [] {
      assert a + b == a;
    } else {
      var init := b[..|b| - 1];
      assert (a + b)[..|a + b| - 1] == a + init;
      assert (a + b)[|a + b| - 1] == b[|b| - 1];
      FeedFromAppend(s, a, init);
    }
  }

  /** The pixel grid: `columns[x][y]` is `getRGB(x, y)`. */
  datatype Image = Image(width: nat, height: nat, columns: seq<seq<Argb>>)
  {
    predicate WellFormed() {
      |columns| == width && forall x :: 0 <= x < width ==> |columns[x]| == height
    }
  }

  /** The pixels of the first columns, column by column, top to bottom. */
  function ColumnMajor(columns: seq<seq<Argb>>): seq<Argb>
  {
    if columns == [] then [] else ColumnMajor(columns[..|columns| - 1]) + columns[|columns| - 1]
  }

  /** A grid of columns of height `h` has `|columns| * h` pixels. */
  lemma {:induction false} ColumnMajorLength(columns: seq<seq<Argb>>, h: nat)
    requires forall x :: 0 <= x < |columns| ==> |columns[x]| == h
    ensures |ColumnMajor(columns)| == |columns| * h
  {
    if columns != [] {
      var n := |columns| - 1;
      ColumnMajorLength(columns[..n], h);
      MulSucc(n, h);
    }
  }

  /** In a grid of columns of height `h`, pixel `(x, y)` is visited in place
      `x * h + y`: with the length above, every pixel once, column after
      column. */
  lemma {:induction false} ColumnMajorAt(columns: seq<seq<Argb>>, h: nat, x: nat, y: nat)
    requires forall x :: 0 <= x < |columns| ==> |columns[x]| == h
    requires x < |columns| && y < h
    ensures x * h + y < |ColumnMajor(columns)| && ColumnMajor(columns)[x * h + y] == columns[x][y]
  {
    var n := |columns| - 1;
    var init := columns[..n];
    ColumnMajorLength(init, h);
    assert ColumnMajor(columns) == ColumnMajor(init) + columns[n];
    if x < n {
      MulBelow(x, n, h, y);
      ColumnMajorAt(init, h, x, y);
    }
  }

  lemma MulSucc(n: nat, h: nat)
    ensures (n + 1) * h == n * h + h
  {
  }

  lemma MulBelow(x: nat, n: nat, h: nat, y: nat)
    requires x < n && y < h
    ensures x * h + y < n * h
  {
    assert (x + 1) * h <= n * h by {
      assert n * h - (x + 1) * h == (n - x - 1) * h;
    }
  }

  /** How many of `pixels` have colour key `key`. */
  function Occurrences(pixels: seq<Argb>, key: string): nat {
    if pixels == [] then 0
    else Occurrences(pixels[..|pixels| - 1], key) + (if ColorKey(pixels[|pixels| - 1]) == Some(key) then 1 else 0)
  }

  /** Some pixel has no colour key: alpha 0 and red below 0x10. */
  predicate Keyless(pixels: seq<Argb>) {
    exists i :: 0 <= i < |pixels| && pixels[i] < 0x10_0000
  }

  lemma KeylessStep(pixels: seq<Argb>)
    requires pixels != []
    ensures Keyless(pixels) <==> Keyless(pixels[..|pixels| - 1]) || pixels[|pixels| - 1] < 0x10_0000
  {
    var init := pixels[..|pixels| - 1];
    if Keyless(init) {
      var i :| 0 <= i < |init| && init[i] < 0x10_0000;
      assert pixels[i] == init[i];
    }
    if Keyless(pixels) {
      var i :| 0 <= i < |pixels| && pixels[i] < 0x10_0000;
      if i < |init| { assert init[i] == pixels[i]; }
    }
  }

  /** The scan throws exactly when some pixel has no key: one with alpha 0 and
      red below 0x10. */
  lemma {:induction false} FeedThrows(pixels: seq<Argb>)
    ensures Feed(pixels).thrown <==> Keyless(pixels)
  {
    if pixels != [] {
      var init, last := pixels[..|pixels| - 1], pixels[|pixels| - 1];
      FeedThrows(init);
      KeylessStep(pixels);
      ColorKeyShape(last);
      var s := Feed(init);
      if !s.thrown && ColorKey(last).Some? {
        FeedTop(init);
        UpdateKeepsTop(s.top, s.counts, ColorKey(last).value);
      }
    }
  }

  /** Until the scan throws, the list is a top-3 list of the counts. */
  lemma {:induction false} FeedTop(pixels: seq<Argb>)
    ensures !Feed(pixels).thrown ==> IsTopOf(Feed(pixels).top, Feed(pixels).counts)
  {
    if pixels != [] {
      var init, last := pixels[..|pixels| - 1], pixels[|pixels| - 1];
      FeedTop(init);
      var s := Feed(init);
      if !s.thrown && ColorKey(last).Some? {
        UpdateKeepsTop(s.top, s.counts, ColorKey(last).value);
      }
    }
  }

  /** Until the scan throws, every key's count is the number of pixels with that
      key, and the map holds exactly the keys that occur. */
  lemma {:induction false} FeedCounts(pixels: seq<Argb>)
    ensures !Feed(pixels).thrown ==> forall key ::
      (key in Feed(pixels).counts <==> Occurrences(pixels, key) > 0)
      && (key in Feed(pixels).counts ==> Feed(pixels).counts[key] == Occurrences(pixels, key))
  {
    if pixels != [] {
      var init := pixels[..|pixels| - 1];
      FeedCounts(init);
    }
  }

  /** A scan that has not thrown lists at most three distinct colours that
      occur, each with its number of pixels, highest first; a colour that occurs
      and is not listed occurs no more often than the third listed one. */
  lemma FeedRanks(pixels: seq<Argb>)
    requires !Feed(pixels).thrown
    ensures var top := Feed(pixels).top;
      && |top| <= TopCount && DistinctColors(top) && NonIncreasing(top)
      && (forall i :: 0 <= i < |top| ==> top[i].count == Occurrences(pixels, top[i].hexColor) > 0)
      && (forall key :: Occurrences(pixels, key) > 0 && Absent(top, key) ==>
            |top| == TopCount && Occurrences(pixels, key) <= top[TopCount - 1].count)
  {
    FeedTop(pixels);
    FeedCounts(pixels);
  }

  /** With room left in the list, every colour that occurs is listed. */
  lemma AllListedWhenShort(pixels: seq<Argb>, key: string)
    requires !Feed(pixels).thrown && |Feed(pixels).top| < TopCount
    requires Occurrences(pixels, key) > 0
    ensures exists i :: 0 <= i < |Feed(pixels).top| && Feed(pixels).top[i].hexColor == key
  {
    FeedRanks(pixels);
  }

  /** The colours of the list, in order. */
  function Colors(top: seq<CountPair>): (r: seq<string>)
    ensures |r| == |top| && forall i :: 0 <= i < |top| ==> r[i] == top[i].hexColor
  {
    if top == [] then [] else [top[0].hexColor] + Colors(top[1..])
  }

  /** When three colours occur strictly more often than every other colour and
      in strictly decreasing numbers, the list names exactly those three, most
      frequent first, whatever order the pixels come in. */
  lemma StrictTopDetermined(pixels: seq<Argb>, a: string, b: string, c: string)
    requires !Feed(pixels).thrown
    requires Occurrences(pixels, a) > Occurrences(pixels, b) > Occurrences(pixels, c) > 0
    requires forall k :: k != a && k != b && k != c ==> Occurrences(pixels, k) < Occurrences(pixels, c)
    ensures Colors(Feed(pixels).top) == [a, b, c]
  {
    var s := Feed(pixels);
    FeedTop(pixels);
    FeedCounts(pixels);
    forall k | k in s.counts && k != a && k != b && k != c ensures s.counts[k] < s.counts[c] {
      assert Occurrences(pixels, k) < Occurrences(pixels, c);
    }
    StrictTopOf(s.top, s.counts, a, b, c);
    var cs := Colors(s.top);
    assert |cs| == 3 && cs[0] == a && cs[1] == b && cs[2] == c;
  }

  /** A top-3 list of counts in which three colours rank strictly above all
      others, and strictly among themselves, lists exactly those three. */
  lemma StrictTopOf(top: seq<CountPair>, counts: map<string, int>, a: string, b: string, c: string)
    requires IsTopOf(top, counts)
    requires a in counts && b in counts && c in counts
    requires counts[a] > counts[b] > counts[c]
    requires forall k :: k in counts && k != a && k != b && k != c ==> counts[k] < counts[c]
    ensures |top| == 3 && top[0].hexColor == a && top[1].hexColor == b && top[2].hexColor == c
  {
    ListedIfFrequent(top, counts, a, b, c, a);
    ListedIfFrequent(top, counts, a, b, c, b);
    ListedIfFrequent(top, counts, a, b, c, c);
    var ia :| 0 <= ia < |top| && top[ia].hexColor == a;
    var ib :| 0 <= ib < |top| && top[ib].hexColor == b;
    var ic :| 0 <= ic < |top| && top[ic].hexColor == c;
    assert top[ia].count > top[ib].count > top[ic].count;
    ThreeInOrder(top, ia, ib, ic);
  }

  /** Three entries with strictly falling counts in a list of at most three,
      highest first, are the whole list in that order. */
  lemma ThreeInOrder(top: seq<CountPair>, ia: nat, ib: nat, ic: nat)
    requires |top| <= TopCount && NonIncreasing(top)
    requires ia < |top| && ib < |top| && ic < |top|
    requires top[ia].count > top[ib].count > top[ic].count
    ensures |top| == 3 && ia == 0 && ib == 1 && ic == 2
  {
    if ib <= ia { assert false; }
    if ic <= ib { assert false; }
  }

  /** Each of the three most frequent colours is listed: leaving one out would
      need three listed colours at least as frequent, and only two remain. */
  lemma ListedIfFrequent(top: seq<CountPair>, counts: map<string, int>, a: string, b: string, c: string, x: string)
    requires IsTopOf(top, counts)
    requires a in counts && b in counts && c in counts
    requires counts[a] > counts[b] > counts[c]
    requires forall k :: k in counts && k != a && k != b && k != c ==> counts[k] < counts[c]
    requires x == a || x == b || x == c
    ensures exists i :: 0 <= i < |top| && top[i].hexColor == x
  {
    if Absent(top, x) {
      var y, z := if x == a then b else a, if x == c then b else c;
      forall i | 0 <= i < TopCount ensures top[i].hexColor == y || top[i].hexColor == z {
        assert top[i].count >= top[TopCount - 1].count >= counts[x];
      }
      ThreeAmongTwo(top[0].hexColor, top[1].hexColor, top[2].hexColor, y, z);
      assert false;
    }
  }

  lemma ThreeAmongTwo(u: string, v: string, w: string, y: string, z: string)
    requires (u == y || u == z) && (v == y || v == z) && (w == y || w == z)
    ensures u == v || v == w || u == w
  {
  }

  /** The row `writeTopRgb` writes: the URL, a comma, the listed colours joined
      by commas, and a newline. */
  function Row(url: string, top: seq<CountPair>): (r: string)
    ensures url + "," <= r && r[|r| - 1] == '\n'
  {
    url + "," + Join(Colors(top), ',') + "\n"
  }

  /** The row reads back, field by field, as the URL followed by the listed
      colours; an empty list leaves one empty field after the URL. */
  lemma RowFields(url: string, top: seq<CountPair>)
    requires ',' !in url && forall i :: 0 <= i < |top| ==> ',' !in top[i].hexColor
    ensures var row := Row(url, top);
      |row| >= 1 && row[|row| - 1] == '\n'
      && Split(row[..|row| - 1], ',') == [url] + (if top == [] then [""] else Colors(top))
  {
    var row := Row(url, top);
    var joined := Join(Colors(top), ',');
    assert row[..|row| - 1] == url + [','] + joined;
    SplitAt(url, ',', joined);
    if top != [] {
      SplitJoin(Colors(top), ',');
    }
  }
}
