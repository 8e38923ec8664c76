/** The arithmetic inside a frame send: the destination rectangle that the
    Wire To Surface 1 PDU covers, and the split of the frame's millisecond
    timestamp into the fields of a Start Frame PDU. */
module FrameLayout {
  import opened MachineInts
  import opened EgfxPdu

  // ---------------------------------------------------------------------
  // Destination rectangle

  function RegionRect(g: Avc420Region): InclusiveRectangle
  {
    InclusiveRectangle(g.left, g.top, g.right, g.bottom)
  }

  function MinU16(a: u16, b: u16): u16 { if a <= b then a else b }
  function MaxU16(a: u16, b: u16): u16 { if a >= b then a else b }

  /** One step of the loop over the regions: widen `r` so that it also
      covers `g`. */
  function Extend(r: InclusiveRectangle, g: Avc420Region): InclusiveRectangle
  {
    InclusiveRectangle(MinU16(r.left, g.left), MinU16(r.top, g.top),
                       MaxU16(r.right, g.right), MaxU16(r.bottom, g.bottom))
  }

  /** The rectangle the loop has built after reading all of `s`, first
      region first. */
  function Hull(s: seq<Avc420Region>): InclusiveRectangle
    requires |s| > 0
  {
    if |s| == 1 then RegionRect(s[0]) else Extend(Hull(s[..|s| - 1]), s[|s| - 1])
  }

  /** `r` is the bounding box of the regions `s`: it contains every region,
      and each of its four edges is the edge of some region. */
  ghost predicate IsBoundingBox(r: InclusiveRectangle, s: seq<Avc420Region>)
  {
    && (forall i :: 0 <= i < |s| ==>
          r.left <= s[i].left && r.top <= s[i].top && s[i].right <= r.right && s[i].bottom <= r.bottom)
    && (exists i :: 0 <= i < |s| && r.left == s[i].left)
    && (exists i :: 0 <= i < |s| && r.top == s[i].top)
    && (exists i :: 0 <= i < |s| && r.right == s[i].right)
    && (exists i :: 0 <= i < |s| && r.bottom == s[i].bottom)
  }

  /** One step of the loop keeps the bounding box: widening the bounding
      box of all but the last region by the last one gives the bounding box
      of all of them. */
  lemma ExtendKeepsBoundingBox(h: InclusiveRectangle, s: seq<Avc420Region>)
    requires |s| > 1 && IsBoundingBox(h, s[..|s| - 1])
    ensures IsBoundingBox(Extend(h, s[|s| - 1]), s)
  {
  }

  lemma {:induction false} HullIsBoundingBox(s: seq<Avc420Region>)
    requires |s| > 0
    ensures IsBoundingBox(Hull(s), s)
  {
    if |s| > 1 {
      HullIsBoundingBox(s[..|s| - 1]);
      ExtendKeepsBoundingBox(Hull(s[..|s| - 1]), s);
    }
  }

  /** A rectangle is well formed when its left edge is not right of its
      right edge and its top edge is not below its bottom edge. */
  predicate WellFormed(r: InclusiveRectangle)
  {
    r.left <= r.right && r.top <= r.bottom
  }

  /** The destination rectangle of a frame: the bounding box of its regions,
      or the whole desktop when there are none, with `width - 1` and
      `height - 1` computed by saturating subtraction. */
  function DestinationRect(regions: seq<Avc420Region>, width: u16, height: u16): (r: InclusiveRectangle)
    ensures |regions| > 0 ==> IsBoundingBox(r, regions)
    ensures |regions| == 0 ==> r.left == 0 && r.top == 0
    ensures |regions| == 0 && width > 0 ==> r.right as int == width as int - 1
    ensures |regions| == 0 && height > 0 ==> r.bottom as int == height as int - 1
    ensures |regions| == 0 && width == 0 ==> r.right == 0
    ensures |regions| == 0 && height == 0 ==> r.bottom == 0
    ensures (forall i :: 0 <= i < |regions| ==> WellFormed(RegionRect(regions[i]))) ==> WellFormed(r)
  {
    if |regions| > 0 then
      HullIsBoundingBox(regions);
      assert WellFormed(RegionRect(regions[0])) ==> WellFormed(Hull(regions));
      Hull(regions)
    else
      InclusiveRectangle(0, 0, SaturatingSubU16(width, 1), SaturatingSubU16(height, 1))
  }

  /** The loop of the frame send: start from the first region and widen
      the rectangle by each later one. */
  method ComputeDestinationRect(regions: seq<Avc420Region>, width: u16, height: u16) returns (r: InclusiveRectangle)
    ensures r == DestinationRect(regions, width, height)
  {
    if |regions| == 0 {
      return InclusiveRectangle(0, 0, SaturatingSubU16(width, 1), SaturatingSubU16(height, 1));
    }
    var first := regions[0];
    var left, top, right, bottom := first.left, first.top, first.right, first.bottom;
    var i := 1;
    while i < |regions|
      invariant 1 <= i <= |regions|
      invariant InclusiveRectangle(left, top, right, bottom) == Hull(regions[..i])
    {
      var g := regions[i];
      left := MinU16(left, g.left);
      top := MinU16(top, g.top);
      right := MaxU16(right, g.right);
      bottom := MaxU16(bottom, g.bottom);
      assert regions[..i + 1][..i] == regions[..i];
      i := i + 1;
    }
    assert regions[..i] == regions;
    r := InclusiveRectangle(left, top, right, bottom);
  }

  // ---------------------------------------------------------------------
  // Timestamp

  const MS_PER_DAY: int := 86_400_000

  /** The split of a millisecond count into the Start Frame fields, each
      computed with a truncating cast exactly as the server does. */
  function SplitTimestamp(timestampMs: u32): (t: Timestamp)
    ensures t.milliseconds as int == timestampMs as int % 1000
    ensures t.seconds as int == (timestampMs as int / 1000) % 60
    ensures t.minutes as int == (timestampMs as int / 60_000) % 60
    ensures t.hours as int == (timestampMs as int / 3_600_000) % 24
    ensures ValidTimestamp(t)
  {
    var ms := timestampMs as int;
    Timestamp(TruncateU16(ms % 1000), TruncateU8((ms / 1000) % 60),
              TruncateU8((ms / 60_000) % 60), TruncateU16((ms / 3_600_000) % 24))
  }

  /** Every field is within its clock range. */
  predicate ValidTimestamp(t: Timestamp)
  {
    t.milliseconds < 1000 && t.seconds < 60 && t.minutes < 60 && t.hours < 24
  }

  /** The time of day a timestamp denotes, in milliseconds. */
  function TimeOfDayMs(t: Timestamp): int
  {
    t.milliseconds as int + 1000 * t.seconds as int + 60_000 * t.minutes as int + 3_600_000 * t.hours as int
  }

  /** Splitting loses exactly the whole days: joining the fields again gives
      the timestamp modulo one day. */
  lemma SplitKeepsTimeOfDay(timestampMs: u32)
    ensures TimeOfDayMs(SplitTimestamp(timestampMs)) == timestampMs as int % MS_PER_DAY
  {
    var x := timestampMs as int;
    var t := SplitTimestamp(timestampMs);
    var a := x / 1000;
    var b := x / 60_000;
    var c := x / 3_600_000;
    assert a / 60 == b;
    assert b / 60 == c;
    assert x == t.milliseconds as int + 1000 * a;
    assert a == t.seconds as int + 60 * b;
    assert b == t.minutes as int + 60 * c;
    assert c == t.hours as int + 24 * (c / 24);
    assert x == TimeOfDayMs(t) + MS_PER_DAY * (c / 24);
  }

  /** Conversely, every valid timestamp is the split of its own time of day,
      so the split is a bijection between one day of milliseconds and the
      valid timestamps. */
  lemma SplitOfTimeOfDay(t: Timestamp)
    requires ValidTimestamp(t)
    ensures 0 <= TimeOfDayMs(t) < MS_PER_DAY
    ensures SplitTimestamp(TimeOfDayMs(t) as u32) == t
  {
    var x := TimeOfDayMs(t);
    var s := SplitTimestamp(x as u32);
    SplitKeepsTimeOfDay(x as u32);
    assert x / 1000 == t.seconds as int + 60 * t.minutes as int + 3600 * t.hours as int;
    assert x / 60_000 == t.minutes as int + 60 * t.hours as int;
    assert x / 3_600_000 == t.hours as int;
  }
}
