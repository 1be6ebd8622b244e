/** The prize wheel: its fixed catalogue of ten segments, the per-role weight
    tables, the weighted choice of the winning segment, the colour shading used
    to paint the segments, and the `spinning` flag that keeps one spin at a time. */
module Wheel {
  import opened Util

  /** One slice of the wheel (`shortLabel` is the source's `label`). `color` is the number the `#rrggbb` text denotes;
      `fullLabel` is the longer caption only the last slice has. */
  datatype Segment = Segment(shortLabel: string, fullLabel: Option<string>, color: int, value: string)

  const SEGMENTS: seq<Segment> := [
    Segment("1k", None, 0xe63946, "1k"),
    Segment("2k", None, 0xf77f00, "2k"),
    Segment("5k", None, 0xfcbf49, "5k"),
    Segment("10k", None, 0x06d6a0, "10k"),
    Segment("20k", None, 0x118ab2, "20k"),
    Segment("50k", None, 0x7209b7, "50k"),
    Segment("100k", None, 0xf72585, "100k"),
    Segment("200k", None, 0x4cc9f0, "200k"),
    Segment("500k", None, 0xffd700, "500k"),
    Segment("CMNM", Some("Ch\U{FA}c m\U{1EEB}ng\nn\U{103}m m\U{1EDB}i"), 0xef476f,
            "Ch\U{FA}c m\U{1EEB}ng n\U{103}m m\U{1EDB}i")
  ]

  /** The weights of the admin role, one per segment. */
  const ADMIN_WEIGHTS: seq<real> := [1.0, 1.0, 1.0, 10.0, 10.0, 21.0, 20.0, 20.0, 10.0, 6.0]
  /** The weights of every other role: the three largest prizes are all but unreachable. */
  const USER_WEIGHTS: seq<real> := [10.0, 20.0, 20.0, 21.0, 10.0, 10.0, 0.0001, 0.0001, 0.0001, 8.9997]

  /** `PROBS[role] || PROBS.user`: the admin table for the admin role, the user
      table for any other role. */
  function WeightsFor(role: string): (w: seq<real>)
    ensures |w| == |SEGMENTS|
    ensures role == "admin" ==> w == ADMIN_WEIGHTS
    ensures role != "admin" ==> w == USER_WEIGHTS
  {
    if role == "admin" then ADMIN_WEIGHTS else USER_WEIGHTS
  }

  /** The sum of the first `n` weights. */
  function Prefix(p: seq<real>, n: nat): real
    requires n <= |p|
  {
    if n == 0 then 0.0 else Prefix(p, n - 1) + p[n - 1]
  }

  function Total(p: seq<real>): real {
    Prefix(p, |p|)
  }

  predicate AllPositive(p: seq<real>) {
    forall i :: 0 <= i < |p| ==> p[i] > 0.0
  }

  /** `i` is the index the cumulative scan settles on for draw `d`: the sums
      through each earlier index (Prefix(p, 1) .. Prefix(p, i)) are below `d`, and either `d` is within the sum
      through `i` or `i` is the last index (the fall-through). */
  ghost predicate IsPick(p: seq<real>, d: real, i: nat) {
    && i < |p|
    && (forall j :: 1 <= j <= i ==> Prefix(p, j) < d)
    && (d <= Prefix(p, i + 1) || i == |p| - 1)
  }

  /** `weightedRandom(role)` with the draw `Math.random() * total` passed in:
      subtract the weights one by one and stop at the first that takes the
      rest to zero or below; the last index when none does. */
  method WeightedRandom(role: string, draw: real) returns (i: nat)
    ensures i < |SEGMENTS|
    ensures IsPick(WeightsFor(role), draw, i)
  {
    var probs := WeightsFor(role);
    var rand := draw;
    var k := 0;
    while k < |probs|
      invariant 0 <= k <= |probs|
      invariant rand == draw - Prefix(probs, k)
      invariant forall j :: 1 <= j <= k ==> Prefix(probs, j) < draw
    {
      rand := rand - probs[k];
      if rand <= 0.0 {
        return k;
      }
      k := k + 1;
    }
    return |probs| - 1;
  }

  /** The same weights and the same draw always select the same segment. */
  lemma PickUnique(p: seq<real>, d: real, i: nat, j: nat)
    requires IsPick(p, d, i) && IsPick(p, d, j)
    ensures i == j
  {
  }

  /** With positive weights the cumulative sums strictly increase. */
  lemma {:induction false} PrefixIncreasing(p: seq<real>, i: nat, j: nat)
    requires AllPositive(p) && i < j <= |p|
    ensures Prefix(p, i) < Prefix(p, j)
    decreases j
  {
    if i < j - 1 {
      PrefixIncreasing(p, i, j - 1);
    }
  }

  lemma {:induction false} PrefixNonNegative(p: seq<real>, n: nat)
    requires AllPositive(p) && n <= |p|
    ensures Prefix(p, n) >= 0.0
  {
    if n > 0 {
      PrefixNonNegative(p, n - 1);
    }
  }

  /** A draw in the interval (Prefix(k), Prefix(k + 1)] selects segment `k`. */
  lemma PickInInterval(p: seq<real>, d: real, k: nat)
    requires AllPositive(p) && k < |p|
    requires Prefix(p, k) < d <= Prefix(p, k + 1)
    ensures IsPick(p, d, k)
  {
    forall j | 1 <= j <= k ensures Prefix(p, j) < d {
      if j < k {
        PrefixIncreasing(p, j, k);
      }
    }
  }

  /** Conversely, the selected segment's interval holds the draw, apart from
      draws beyond the total, which fall through to the last segment, and
      draws at or below zero, which select the first. */
  lemma PickLiesInInterval(p: seq<real>, d: real, k: nat)
    requires IsPick(p, d, k)
    ensures k == 0 || Prefix(p, k) < d
    ensures d <= Prefix(p, k + 1) || (k == |p| - 1 && d > Total(p))
  {
    if k > 0 {
      assert Prefix(p, k) < d;
    }
  }

  /** Both tables have one strictly positive weight per segment and sum to 100. */
  lemma WeightTables()
    ensures |ADMIN_WEIGHTS| == |SEGMENTS| && AllPositive(ADMIN_WEIGHTS) && Total(ADMIN_WEIGHTS) == 100.0
    ensures |USER_WEIGHTS| == |SEGMENTS| && AllPositive(USER_WEIGHTS) && Total(USER_WEIGHTS) == 100.0
  {
    var a, u := ADMIN_WEIGHTS, USER_WEIGHTS;
    assert Prefix(a, 1) == 1.0 && Prefix(u, 1) == 10.0;
    assert Prefix(a, 2) == 2.0 && Prefix(u, 2) == 30.0;
    assert Prefix(a, 3) == 3.0 && Prefix(u, 3) == 50.0;
    assert Prefix(a, 4) == 13.0 && Prefix(u, 4) == 71.0;
    assert Prefix(a, 5) == 23.0 && Prefix(u, 5) == 81.0;
    assert Prefix(a, 6) == 44.0 && Prefix(u, 6) == 91.0;
    assert Prefix(a, 7) == 64.0 && Prefix(u, 7) == 91.0001;
    assert Prefix(a, 8) == 84.0 && Prefix(u, 8) == 91.0002;
    assert Prefix(a, 9) == 94.0 && Prefix(u, 9) == 91.0003;
    assert Prefix(a, 10) == 100.0 && Prefix(u, 10) == 100.0;
  }

  /** Every segment, for either table, has a non-empty range of draws in
      [0, total) that selects it: even the 0.0001 weights can win. */
  lemma EverySegmentReachable(role: string, k: nat)
    requires k < |SEGMENTS|
    ensures exists d :: 0.0 <= d < Total(WeightsFor(role)) && IsPick(WeightsFor(role), d, k)
  {
    var p := WeightsFor(role);
    WeightTables();
    var d := Prefix(p, k) + p[k] / 2.0;
    PrefixNonNegative(p, k);
    if k + 1 < |p| {
      PrefixIncreasing(p, k + 1, |p|);
    }
    PickInInterval(p, d, k);
  }

  // ---- Colours ----

  /** The three channels of a colour, each an integer. */
  datatype Rgb = Rgb(r: int, g: int, b: int)

  /** `num >> 16`, `(num >> 8) & 0xFF` and `num & 0xFF` of a 24-bit colour. */
  function Red(num: int): int requires 0 <= num < 0x100_0000 { num / 0x1_0000 }
  function Green(num: int): int requires 0 <= num < 0x100_0000 { (num / 0x100) % 0x100 }
  function Blue(num: int): int requires 0 <= num < 0x100_0000 { num % 0x100 }

  /** The channel split is exact: each channel is a byte and they recompose the colour. */
  lemma ChannelsRecompose(num: int)
    requires 0 <= num < 0x100_0000
    ensures 0 <= Red(num) < 0x100 && 0 <= Green(num) < 0x100 && 0 <= Blue(num) < 0x100
    ensures Red(num) * 0x1_0000 + Green(num) * 0x100 + Blue(num) == num
  {
    assert num / 0x100 == Red(num) * 0x100 + Green(num);
  }

  function Min(a: int, b: int): int { if a <= b then a else b }
  function Max(a: int, b: int): int { if a >= b then a else b }

  /** `lightenColor(hex, percent)` with `step == Math.round(2.55 * percent)`:
      every channel raised by `step`, capped at 255. */
  function Lighten(num: int, step: int): (c: Rgb)
    requires 0 <= num < 0x100_0000
    ensures c.r <= 255 && c.g <= 255 && c.b <= 255
    ensures step >= 0 ==> c.r >= Red(num) && c.g >= Green(num) && c.b >= Blue(num)
    ensures step >= 0 ==> 0 <= c.r && 0 <= c.g && 0 <= c.b
    ensures c.r <= Red(num) + step && c.g <= Green(num) + step && c.b <= Blue(num) + step
    ensures c.r == 255 || c.r == Red(num) + step
    ensures c.g == 255 || c.g == Green(num) + step
    ensures c.b == 255 || c.b == Blue(num) + step
  {
    ChannelsRecompose(num);
    Rgb(Min(255, Red(num) + step), Min(255, Green(num) + step), Min(255, Blue(num) + step))
  }

  /** `darkenColor(hex, percent)` with `step == Math.round(2.55 * percent)`:
      every channel lowered by `step`, floored at 0. */
  function Darken(num: int, step: int): (c: Rgb)
    requires 0 <= num < 0x100_0000
    ensures 0 <= c.r && 0 <= c.g && 0 <= c.b
    ensures step >= 0 ==> c.r <= Red(num) && c.g <= Green(num) && c.b <= Blue(num)
    ensures step >= 0 ==> c.r <= 255 && c.g <= 255 && c.b <= 255
    ensures c.r >= Red(num) - step && c.g >= Green(num) - step && c.b >= Blue(num) - step
    ensures c.r == 0 || c.r == Red(num) - step
    ensures c.g == 0 || c.g == Green(num) - step
    ensures c.b == 0 || c.b == Blue(num) - step
  {
    ChannelsRecompose(num);
    Rgb(Max(0, Red(num) - step), Max(0, Green(num) - step), Max(0, Blue(num) - step))
  }

  /** A step of zero leaves the colour as it is; a full step of 255 or more
      turns it white (lighten) or black (darken). */
  lemma ShadeExtremes(num: int, step: int)
    requires 0 <= num < 0x100_0000
    ensures Lighten(num, 0) == Rgb(Red(num), Green(num), Blue(num))
    ensures Darken(num, 0) == Rgb(Red(num), Green(num), Blue(num))
    ensures step >= 255 ==> Lighten(num, step) == Rgb(255, 255, 255) && Darken(num, step) == Rgb(0, 0, 0)
  {
    ChannelsRecompose(num);
  }

  /** Every catalogue colour is a 24-bit number, so both shadings apply to it. */
  lemma CatalogueColours()
    ensures forall k :: 0 <= k < |SEGMENTS| ==> 0 <= SEGMENTS[k].color < 0x100_0000
  {
  }

  /** The wheel's spin state: whether a spin is under way and the segment it
      will stop on. */
  class WheelState {
    var spinning: bool
    var winIndex: nat

    ghost predicate Valid()
      reads this
    {
      winIndex < |SEGMENTS|
    }

    constructor ()
      ensures Valid() && !spinning
    {
      spinning := false;
      winIndex := 0;
    }

    /** `isSpinning`: true from the start of a spin until its last frame. */
    function IsSpinning(): (b: bool)
      reads this
      ensures b <==> spinning
    {
      spinning
    }

    /** `spin(role, callback)` up to the start of the animation: ignored while a
        spin is under way; otherwise the wheel is marked spinning and the
        winning index is chosen from the role's weights. */
    method Spin(role: string, draw: real) returns (started: bool)
      requires Valid()
      modifies this
      ensures Valid()
      ensures old(IsSpinning()) ==> !started && unchanged(this)
      ensures !old(IsSpinning()) ==> started && IsSpinning() && IsPick(WeightsFor(role), draw, winIndex)
    {
      if spinning {
        return false;
      }
      spinning := true;
      winIndex := WeightedRandom(role, draw);
      started := true;
    }

    /** The last animation frame: the wheel stops and the chosen segment is
        handed over. Only a spin under way completes, so a spin yields its
        segment once. */
    method Complete() returns (result: Option<Segment>)
      requires Valid()
      modifies this
      ensures Valid() && !IsSpinning() && winIndex == old(winIndex)
      ensures old(IsSpinning()) ==> result == Some(SEGMENTS[winIndex])
      ensures !old(IsSpinning()) ==> result.None?
    {
      if !spinning {
        return None;
      }
      spinning := false;
      result := Some(SEGMENTS[winIndex]);
    }
  }
}
