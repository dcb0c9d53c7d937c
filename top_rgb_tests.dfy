/**
 * The scans of `TopRgbServiceTest` and single steps of `checkChangeTopRgb`,
 * checked against the model. The test images themselves are not available,
 * so each image is described by what the tests rely on: every pixel white, or
 * three colours ranked strictly above the rest.
 */
module TopRgbTests {
  import opened Strings
  import opened Optional
  import opened CountPairs
  import opened TopRgb

  const White: string := "#ffffff"

  /** An opaque white pixel has key `#ffffff`. */
  lemma WhiteKey()
    ensures ColorKey(0xFFFF_FFFF) == Some(White)
  {
    WhiteHex();
    var buf := ToHexString(0xFFFF_FFFF);
    assert buf[|buf| - 6..] == "ffffff";
    assert ColorKey(0xFFFF_FFFF) == Some("#" + buf[|buf| - 6..]);
    assert "#" + "ffffff" == White;
  }

  /** `Integer.toHexString(0xFFFFFFFF)` is eight `f`s. */
  lemma WhiteHex()
    ensures ToHexString(0xFFFF_FFFF) == "ffffffff"
  {
    assert ToHexString(0xF) == "f";
    HexF(0xF);
    assert ToHexString(0xFF) == "ff";
    HexF(0xFF);
    assert ToHexString(0xFFF) == "fff";
    HexF(0xFFF);
    assert ToHexString(0xFFFF) == "ffff";
    HexF(0xFFFF);
    assert ToHexString(0xF_FFFF) == "fffff";
    HexF(0xF_FFFF);
    assert ToHexString(0xFF_FFFF) == "ffffff";
    HexF(0xFF_FFFF);
    assert ToHexString(0xFFF_FFFF) == "fffffff";
    HexF(0xFFF_FFFF);
  }

  /** One more hex digit `f` at the end. */
  lemma HexF(n: nat)
    requires n >= 1
    ensures ToHexString(16 * n + 15) == ToHexString(n) + "f"
  {
    assert (16 * n + 15) / 16 == n && (16 * n + 15) % 16 == 15;
  }

  lemma {:induction false} WhiteOccurrences(pixels: seq<Argb>)
    requires forall i :: 0 <= i < |pixels| ==> pixels[i] == 0xFFFF_FFFF
    ensures Occurrences(pixels, White) == |pixels|
    ensures forall k :: k != White ==> Occurrences(pixels, k) == 0
  {
    if pixels != [] {
      WhiteKey();
      WhiteOccurrences(pixels[..|pixels| - 1]);
    }
  }

  /** `testFindTopRgbOneColor`: an all-white image of P pixels (691200 in the
      test) lists exactly `#ffffff` with count P. */
  lemma OneColorImage(pixels: seq<Argb>)
    requires |pixels| > 0
    requires forall i :: 0 <= i < |pixels| ==> pixels[i] == 0xFFFF_FFFF
    ensures !Feed(pixels).thrown
    ensures Feed(pixels).top == [CountPair(White, |pixels|)]
  {
    FeedThrows(pixels);
    WhiteOccurrences(pixels);
    FeedTop(pixels);
    FeedCounts(pixels);
    var s := Feed(pixels);
    assert s.counts.Keys == {White};
    SingleColorTop(s.top, s.counts, White);
  }

  /** With one colour counted, the list holds just that colour. */
  lemma SingleColorTop(top: seq<CountPair>, counts: map<string, int>, w: string)
    requires IsTopOf(top, counts) && counts.Keys == {w}
    ensures top == [CountPair(w, counts[w])]
  {
    forall i | 0 <= i < |top| ensures top[i].hexColor == w {
      assert top[i].hexColor in counts;
    }
    if |top| >= 2 {
      FirstTwoDiffer(top);
    }
    assert top == [] ==> Absent(top, w);
  }

  lemma FirstTwoDiffer(top: seq<CountPair>)
    requires DistinctColors(top) && |top| >= 2
    ensures top[0].hexColor != top[1].hexColor
  {
  }

  /** `testFindTopRgbProminentLast4Color` and `testFindTopRgbProminentFirst4Color`:
      whichever way the pixels are laid out, when `#69a84f`, `#ffff00` and
      `#fe0000` occur in that strictly decreasing order and more often than any
      other colour, the list names those three. */
  lemma FourColorImage(pixels: seq<Argb>)
    requires forall i :: 0 <= i < |pixels| ==> ColorKey(pixels[i]).Some?
    requires Occurrences(pixels, "#69a84f") > Occurrences(pixels, "#ffff00") > Occurrences(pixels, "#fe0000") > 0
    requires forall k :: k != "#69a84f" && k != "#ffff00" && k != "#fe0000" ==>
      Occurrences(pixels, k) < Occurrences(pixels, "#fe0000")
    ensures Colors(Feed(pixels).top) == ["#69a84f", "#ffff00", "#fe0000"]
  {
    FeedThrows(pixels);
    if Keyless(pixels) {
      var i :| 0 <= i < |pixels| && pixels[i] < 0x10_0000;
      ColorKeyShape(pixels[i]);
    }
    StrictTopDetermined(pixels, "#69a84f", "#ffff00", "#fe0000");
  }

  /** `testFindTopRgbProminentFirst2Color`: white, black and `#fefefe` ranked
      strictly in that order above every other colour fill the list in that
      order. */
  lemma ProminentFirst2Image(pixels: seq<Argb>)
    requires forall i :: 0 <= i < |pixels| ==> ColorKey(pixels[i]).Some?
    requires Occurrences(pixels, White) > Occurrences(pixels, "#000000") > Occurrences(pixels, "#fefefe") > 0
    requires forall k :: k != White && k != "#000000" && k != "#fefefe" ==>
      Occurrences(pixels, k) < Occurrences(pixels, "#fefefe")
    ensures Colors(Feed(pixels).top) == [White, "#000000", "#fefefe"]
  {
    FeedThrows(pixels);
    if Keyless(pixels) {
      var i :| 0 <= i < |pixels| && pixels[i] < 0x10_0000;
      ColorKeyShape(pixels[i]);
    }
    StrictTopDetermined(pixels, White, "#000000", "#fefefe");
  }

  /** A higher count for the colour in the last slot moves it to the front; its
      old entry is removed and the other two shift down. */
  lemma StaleCopyRemoved()
    ensures Update([CountPair("#a", 3), CountPair("#b", 2), CountPair("#c", 1)], 0, CountPair("#c", 4))
      == Some([CountPair("#c", 4), CountPair("#a", 3), CountPair("#b", 2)])
  {
    var top := [CountPair("#a", 3), CountPair("#b", 2), CountPair("#c", 1)];
    var d0 := [CountPair("#c", 4), CountPair("#b", 2)];
    var placed := top[0 := CountPair("#c", 4)];
    assert FirstStale(placed, "#c", 4, 2) == Some(2);
    assert FirstStale(placed, "#c", 4, 1) == Some(2);
    assert FirstStale(placed, "#c", 4, 0) == Some(2);
    assert Displaced(top, 0, CountPair("#c", 4)) == d0;
    var d1 := [CountPair("#c", 4), CountPair("#a", 3)];
    assert StaleAfterSet(d0, 1, CountPair("#a", 3)) == None;
    assert Displaced(d0, 1, CountPair("#a", 3)) == d1;
    assert Update(d1, 2, CountPair("#b", 2)) == Some(d1 + [CountPair("#b", 2)]);
    assert Update(d0, 1, CountPair("#a", 3)) == Update(d1, 2, CountPair("#b", 2));
    assert Update(top, 0, CountPair("#c", 4)) == Update(d0, 1, CountPair("#a", 3));
    assert d1 + [CountPair("#b", 2)] == [CountPair("#c", 4), CountPair("#a", 3), CountPair("#b", 2)];
  }

  /** A count no higher than the third entry's leaves a full list unchanged. */
  lemma LowCountDropped()
    ensures Update([CountPair("#a", 3), CountPair("#b", 2), CountPair("#c", 1)], 0, CountPair("#d", 1))
      == Some([CountPair("#a", 3), CountPair("#b", 2), CountPair("#c", 1)])
  {
  }

  /** `ArrayList.add` past the end of the list throws. */
  lemma InsertPastEndThrows()
    ensures Update([], 1, CountPair("#a", 1)).None?
  {
  }
}
