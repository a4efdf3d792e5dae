/**
  The reveal choreography: a paused timeline of tweens, each scheduled at a
  start offset. Only what is scheduled, on which target, at which offset,
  for how long and towards which value is modelled; easing curves and the
  interpolation itself are not.
*/
module Reveal {
  import opened Wrappers
  import Mesh

  /** The scanner bar sweeps the stage during [0, 3). */
  const SweepDuration: real := 3.0
  /** Rows are spread over [0, RevealSpan). */
  const RevealSpan: real := 2.5
  /** `Math.random() * 0.05` lies in [0, MaxJitter). */
  const MaxJitter: real := 0.05
  const RevealDuration: real := 0.2
  const RevealOpacity: real := 0.8
  const FlashAt: real := 2.8
  const FlashStagger: real := 0.001
  const FlashDuration: real := 0.2
  const AvatarAt: real := 3.0
  const AvatarDuration: real := 1.5
  const FadeAt: real := 3.2
  const FadeStagger: real := 0.002
  const FadeDuration: real := 1.2

  /** What a tween animates: the scanner's y, the i-th line's opacity, the photo's opacity. */
  datatype Target = Scanner | EdgeMaterial(index: nat) | Avatar

  /** A tween starting at `start`; `from` is set for `fromTo` tweens. */
  datatype Tween = Tween(target: Target, start: real, duration: real, from: Option<real>, to: real)

  datatype Timeline = Timeline(tweens: seq<Tween>)

  function End(t: Tween): real
  {
    t.start + t.duration
  }

  /** The row's share of the reveal window: `row / gridRows * 2.5`. */
  function RevealTime(row: int): (t: real)
    ensures 0 <= row < Mesh.GridRows ==> 0.0 <= t < RevealSpan
  {
    row as real / Mesh.GridRows as real * RevealSpan
  }

  /** When a line starts to appear: its row's time plus its jitter. */
  function RevealStart(row: int, jitter: real): (t: real)
    requires 0.0 <= jitter < MaxJitter
    ensures RevealTime(row) <= t < RevealTime(row) + MaxJitter
  {
    RevealTime(row) + jitter
  }

  /**
    Jitter never breaks row order: a line of an earlier row always starts
    before a line of a later row, by at least (r2 - r1 - 1) row steps.
  */
  lemma JitterKeepsRowOrder(r1: int, j1: real, r2: int, j2: real)
    requires r1 < r2
    requires 0.0 <= j1 < MaxJitter && 0.0 <= j2 < MaxJitter
    ensures RevealStart(r1, j1) < RevealStart(r2, j2)
    ensures RevealStart(r2, j2) - RevealStart(r1, j1) > (r2 - r1 - 1) as real * (RevealSpan / Mesh.GridRows as real)
  {
  }

  predicate JitterInRange(jitter: seq<real>)
  {
    forall i :: 0 <= i < |jitter| ==> 0.0 <= jitter[i] < MaxJitter
  }

  /** One `fromTo` 0 -> 0.8 tween per line, in `wireframes` order. */
  function EdgeReveals(rows: seq<int>, jitter: seq<real>): (ts: seq<Tween>)
    requires |rows| == |jitter| && JitterInRange(jitter)
    ensures |ts| == |rows|
  {
    seq(|rows|, i requires 0 <= i < |rows| =>
      Tween(EdgeMaterial(i), RevealStart(rows[i], jitter[i]), RevealDuration, Some(0.0), RevealOpacity))
  }

  /** A staggered `to` tween over all `n` lines: line i starts at `at + i * step`. */
  function Staggered(n: nat, at: real, step: real, duration: real, to: real): (ts: seq<Tween>)
    ensures |ts| == n
  {
    seq(n, i requires 0 <= i < n => Tween(EdgeMaterial(i), at + i as real * step, duration, None, to))
  }

  /** The timeline `createSequence` builds for lines with the given rows. */
  function BuildTimeline(rows: seq<int>, jitter: seq<real>, scannerHeight: real, stageHeight: real): (tl: Timeline)
    requires |rows| == |jitter| && JitterInRange(jitter)
    ensures |tl.tweens| == 3 * |rows| + 2
  {
    var n := |rows|;
    Timeline([Tween(Scanner, 0.0, SweepDuration, Some(-scannerHeight), stageHeight)]
             + EdgeReveals(rows, jitter)
             + Staggered(n, FlashAt, FlashStagger, FlashDuration, 1.0)
             + [Tween(Avatar, AvatarAt, AvatarDuration, None, 1.0)]
             + Staggered(n, FadeAt, FadeStagger, FadeDuration, 0.0))
  }

  // Positions of the phases inside the tween list.
  function RevealSlot(i: nat): nat { 1 + i }
  function FlashSlot(n: nat, i: nat): nat { 1 + n + i }
  function AvatarSlot(n: nat): nat { 1 + 2 * n }
  function FadeSlot(n: nat, i: nat): nat { 2 + 2 * n + i }

  lemma BuildTimelineAt(rows: seq<int>, jitter: seq<real>, scannerHeight: real, stageHeight: real)
    requires |rows| == |jitter| && JitterInRange(jitter)
    ensures var ts := BuildTimeline(rows, jitter, scannerHeight, stageHeight).tweens;
            var n := |rows|;
            && ts[0] == Tween(Scanner, 0.0, SweepDuration, Some(-scannerHeight), stageHeight)
            && (forall i :: 0 <= i < n ==> ts[RevealSlot(i)] == EdgeReveals(rows, jitter)[i])
            && (forall i :: 0 <= i < n ==> ts[FlashSlot(n, i)] == Staggered(n, FlashAt, FlashStagger, FlashDuration, 1.0)[i])
            && ts[AvatarSlot(n)] == Tween(Avatar, AvatarAt, AvatarDuration, None, 1.0)
            && (forall i :: 0 <= i < n ==> ts[FadeSlot(n, i)] == Staggered(n, FadeAt, FadeStagger, FadeDuration, 0.0)[i])
  {
  }

  /**
    Within a built timeline, the reveal tween of a line of an earlier row
    starts before that of a line of a later row, whatever the jitter.
  */
  lemma RevealFollowsRows(rows: seq<int>, jitter: seq<real>, scannerHeight: real, stageHeight: real, i: nat, j: nat)
    requires |rows| == |jitter| && JitterInRange(jitter)
    requires i < |rows| && j < |rows| && rows[i] < rows[j]
    ensures var ts := BuildTimeline(rows, jitter, scannerHeight, stageHeight).tweens;
            ts[RevealSlot(i)].target == EdgeMaterial(i) && ts[RevealSlot(j)].target == EdgeMaterial(j)
            && ts[RevealSlot(i)].start < ts[RevealSlot(j)].start
  {
    BuildTimelineAt(rows, jitter, scannerHeight, stageHeight);
    JitterKeepsRowOrder(rows[i], jitter[i], rows[j], jitter[j]);
  }

  predicate RowsInGrid(rows: seq<int>)
  {
    forall i :: 0 <= i < |rows| ==> 0 <= rows[i] < Mesh.GridRows
  }

  /**
    For rows inside the grid, every line has finished its reveal before the
    staggered full-opacity phase begins at 2.8: all reveals start in [0, 2.5).
  */
  lemma RevealsBeforeFlash(rows: seq<int>, jitter: seq<real>, i: nat)
    requires |rows| == |jitter| && JitterInRange(jitter) && RowsInGrid(rows)
    requires i < |rows|
    ensures 0.0 <= EdgeReveals(rows, jitter)[i].start < RevealSpan
    ensures End(EdgeReveals(rows, jitter)[i]) < FlashAt
  {
    assert rows[i] as real <= 49.0;
  }

  /**
    Each line has exactly three tweens: its reveal, its flash to full opacity
    and its fade-out; the fade-out, towards 0, ends last. Once the timeline
    has run, the mesh is invisible.
  */
  lemma LineEndsInvisible(rows: seq<int>, jitter: seq<real>, scannerHeight: real, stageHeight: real, i: nat)
    requires |rows| == |jitter| && JitterInRange(jitter) && RowsInGrid(rows)
    requires i < |rows|
    ensures var ts := BuildTimeline(rows, jitter, scannerHeight, stageHeight).tweens;
            var n := |rows|;
            && ts[FadeSlot(n, i)].target == EdgeMaterial(i) && ts[FadeSlot(n, i)].to == 0.0
            && (forall k :: 0 <= k < |ts| && ts[k].target == EdgeMaterial(i) ==>
                  (k == RevealSlot(i) || k == FlashSlot(n, i) || k == FadeSlot(n, i))
                  && End(ts[k]) <= End(ts[FadeSlot(n, i)]))
  {
    var ts := BuildTimeline(rows, jitter, scannerHeight, stageHeight).tweens;
    var n := |rows|;
    BuildTimelineAt(rows, jitter, scannerHeight, stageHeight);
    var fadeEnd := End(ts[FadeSlot(n, i)]);
    assert fadeEnd == FadeAt + FadeDuration + i as real * FadeStagger;
    forall k | 0 <= k < |ts| && ts[k].target == EdgeMaterial(i)
      ensures (k == RevealSlot(i) || k == FlashSlot(n, i) || k == FadeSlot(n, i)) && End(ts[k]) <= fadeEnd
    {
      if k == 0 || k == AvatarSlot(n) {
      } else if k <= n {
        assert ts[RevealSlot(k - 1)].target == EdgeMaterial(k - 1);
        RevealsBeforeFlash(rows, jitter, i);
      } else if k <= 2 * n {
        assert ts[FlashSlot(n, k - 1 - n)].target == EdgeMaterial(k - 1 - n);
        assert End(ts[k]) == FlashAt + FlashDuration + i as real * FlashStagger;
      } else {
        assert ts[FadeSlot(n, k - 2 - 2 * n)].target == EdgeMaterial(k - 2 - 2 * n);
      }
    }
  }

  /** The photo has a single tween, the fade to full opacity: it ends visible. */
  lemma PhotoEndsVisible(rows: seq<int>, jitter: seq<real>, scannerHeight: real, stageHeight: real)
    requires |rows| == |jitter| && JitterInRange(jitter)
    ensures var ts := BuildTimeline(rows, jitter, scannerHeight, stageHeight).tweens;
            var n := |rows|;
            && ts[AvatarSlot(n)].target == Avatar && ts[AvatarSlot(n)].to == 1.0
            && (forall k :: 0 <= k < |ts| && ts[k].target == Avatar ==> k == AvatarSlot(n))
  {
    var ts := BuildTimeline(rows, jitter, scannerHeight, stageHeight).tweens;
    var n := |rows|;
    BuildTimelineAt(rows, jitter, scannerHeight, stageHeight);
    forall k | 0 <= k < |ts| && ts[k].target == Avatar ensures k == AvatarSlot(n) {
    }
  }

  // ---------------------------------------------------------------------------
  // Total duration

  function Max(a: real, b: real): real
  {
    if a < b then b else a
  }

  /** The timeline's duration: the latest end of its tweens. */
  function EndTime(ts: seq<Tween>): (d: real)
    ensures d >= 0.0
  {
    if ts == [] then 0.0 else Max(EndTime(ts[..|ts| - 1]), End(ts[|ts| - 1]))
  }

  /** No tween ends after the timeline's end. */
  lemma {:induction false} EndTimeIsLatest(ts: seq<Tween>, k: nat)
    requires k < |ts|
    ensures End(ts[k]) <= EndTime(ts)
  {
    if k < |ts| - 1 {
      EndTimeIsLatest(ts[..|ts| - 1], k);
    }
  }

  lemma {:induction false} EndTimeAppend(a: seq<Tween>, b: seq<Tween>)
    ensures EndTime(a + b) == Max(EndTime(a), EndTime(b))
  {
    if b == [] {
      assert a + b == a;
    } else {
      assert (a + b)[..|a + b| - 1] == a + b[..|b| - 1];
      EndTimeAppend(a, b[..|b| - 1]);
    }
  }

  lemma {:induction false} EndTimeBelow(ts: seq<Tween>, bound: real)
    requires bound > 0.0
    requires forall k :: 0 <= k < |ts| ==> End(ts[k]) < bound
    ensures EndTime(ts) < bound
  {
    if ts != [] {
      EndTimeBelow(ts[..|ts| - 1], bound);
    }
  }

  lemma EndTimeSingle(t: Tween)
    requires End(t) >= 0.0
    ensures EndTime([t]) == End(t)
  {
    assert [t][..0] == [];
  }

  lemma {:induction false} StaggeredEnd(n: nat, at: real, step: real, duration: real, to: real)
    requires n > 0 && step >= 0.0 && at + duration >= 0.0
    ensures EndTime(Staggered(n, at, step, duration, to)) == at + (n - 1) as real * step + duration
  {
    var s := Staggered(n, at, step, duration, to);
    if n > 1 {
      assert s[..n - 1] == Staggered(n - 1, at, step, duration, to);
      StaggeredEnd(n - 1, at, step, duration, to);
      assert (n - 1) as real * step == (n - 2) as real * step + step;
    } else {
      assert s[..0] == [];
    }
  }

  lemma RevealsEnd(rows: seq<int>, jitter: seq<real>)
    requires |rows| == |jitter| && JitterInRange(jitter) && RowsInGrid(rows)
    ensures EndTime(EdgeReveals(rows, jitter)) < FlashAt
  {
    var ts := EdgeReveals(rows, jitter);
    forall k | 0 <= k < |ts| ensures End(ts[k]) < FlashAt {
      RevealsBeforeFlash(rows, jitter, k);
    }
    EndTimeBelow(ts, FlashAt);
  }

  lemma EndTimeOfFive(a: seq<Tween>, b: seq<Tween>, c: seq<Tween>, d: seq<Tween>, e: seq<Tween>)
    ensures EndTime(a + b + c + d + e) == Max(Max(Max(Max(EndTime(a), EndTime(b)), EndTime(c)), EndTime(d)), EndTime(e))
  {
    EndTimeAppend(a, b);
    EndTimeAppend(a + b, c);
    EndTimeAppend(a + b + c, d);
    EndTimeAppend(a + b + c + d, e);
  }

  /**
    The duration of a built timeline is max(4.5, 4.4 + (n - 1) * 0.002) for
    n >= 1 lines: the photo's fade ends at 4.5 and the last line's fade-out
    at 3.2 + (n - 1) * 0.002 + 1.2.
  */
  lemma TimelineDuration(rows: seq<int>, jitter: seq<real>, scannerHeight: real, stageHeight: real)
    requires |rows| == |jitter| && JitterInRange(jitter) && RowsInGrid(rows) && |rows| > 0
    ensures EndTime(BuildTimeline(rows, jitter, scannerHeight, stageHeight).tweens)
            == Max(AvatarAt + AvatarDuration, FadeAt + FadeDuration + (|rows| - 1) as real * FadeStagger)
  {
    var n := |rows|;
    var scan := [Tween(Scanner, 0.0, SweepDuration, Some(-scannerHeight), stageHeight)];
    var rev := EdgeReveals(rows, jitter);
    var flash := Staggered(n, FlashAt, FlashStagger, FlashDuration, 1.0);
    var av := [Tween(Avatar, AvatarAt, AvatarDuration, None, 1.0)];
    var fade := Staggered(n, FadeAt, FadeStagger, FadeDuration, 0.0);
    var k := (n - 1) as real;
    var tl := BuildTimeline(rows, jitter, scannerHeight, stageHeight).tweens;
    assert tl == scan + rev + flash + av + fade;
    assert EndTime(tl) == Max(Max(Max(Max(EndTime(scan), EndTime(rev)), EndTime(flash)), EndTime(av)), EndTime(fade)) by {
      EndTimeOfFive(scan, rev, flash, av, fade);
    }
    EndTimeSingle(scan[0]);
    EndTimeSingle(av[0]);
    RevealsEnd(rows, jitter);
    StaggeredEnd(n, FlashAt, FlashStagger, FlashDuration, 1.0);
    StaggeredEnd(n, FadeAt, FadeStagger, FadeDuration, 0.0);
    MaxOfPhases(EndTime(scan), EndTime(rev), EndTime(flash), EndTime(av), EndTime(fade), k);
  }

  /** Of the five phase ends, only the photo's fade-in and the last fade-out can be the latest. */
  lemma MaxOfPhases(scanEnd: real, revealEnd: real, flashEnd: real, avatarEnd: real, fadeEnd: real, k: real)
    requires k >= 0.0 && scanEnd == SweepDuration && 0.0 <= revealEnd < FlashAt
    requires flashEnd == FlashAt + FlashDuration + k * FlashStagger
    requires avatarEnd == AvatarAt + AvatarDuration
    requires fadeEnd == FadeAt + FadeDuration + k * FadeStagger
    ensures Max(Max(Max(Max(scanEnd, revealEnd), flashEnd), avatarEnd), fadeEnd) == Max(avatarEnd, fadeEnd)
  {
  }

  /** Every opacity a built timeline moves towards, or starts from, lies in [0, 1]. */
  lemma OpacitiesInRange(rows: seq<int>, jitter: seq<real>, scannerHeight: real, stageHeight: real)
    requires |rows| == |jitter| && JitterInRange(jitter)
    ensures forall t :: t in BuildTimeline(rows, jitter, scannerHeight, stageHeight).tweens && t.target != Scanner ==>
              0.0 <= t.to <= 1.0 && (t.from.Some? ==> 0.0 <= t.from.value <= 1.0)
  {
    var ts := BuildTimeline(rows, jitter, scannerHeight, stageHeight).tweens;
    BuildTimelineAt(rows, jitter, scannerHeight, stageHeight);
    forall t | t in ts && t.target != Scanner
      ensures 0.0 <= t.to <= 1.0 && (t.from.Some? ==> 0.0 <= t.from.value <= 1.0)
    {
      var k :| 0 <= k < |ts| && ts[k] == t;
    }
  }
}
