/**
  The state of one hologram stage: the group of lines on screen, the
  `wireframes` list, the master timeline and the photo's opacity, with the
  operations that rebuild the mesh, build its timeline and replay it, and
  the one-shot visibility observer that starts the first playback.
*/
module Hologram {
  import opened Wrappers
  import opened Mesh
  import opened Reveal

  /** A line of the scene: its endpoints and row are fixed, its material's opacity is not. */
  class Line {
    const p1: Point
    const p2: Point
    /** `line.userData.row` */
    const row: int
    /** `line.material.opacity` */
    var opacity: real

    constructor (p1: Point, p2: Point, row: int)
      ensures this.p1 == p1 && this.p2 == p2 && this.row == row && opacity == 0.0
    {
      this.p1, this.p2, this.row := p1, p2, row;
      opacity := 0.0;
    }

    function Shape(): Edge
    {
      Edge(p1, p2, row)
    }
  }

  /** The edge each line draws, in order. */
  function Shapes(ls: seq<Line>): (es: seq<Edge>)
    ensures |es| == |ls|
  {
    if ls == [] then [] else Shapes(ls[..|ls| - 1]) + [ls[|ls| - 1].Shape()]
  }

  /** The row tag of each line, in order. */
  function Rows(ls: seq<Line>): (rows: seq<int>)
    ensures |rows| == |ls|
  {
    seq(|ls|, i requires 0 <= i < |ls| => ls[i].row)
  }

  lemma {:induction false} ShapesAt(ls: seq<Line>, i: nat)
    requires i < |ls|
    ensures Shapes(ls)[i] == ls[i].Shape()
  {
    if i < |ls| - 1 {
      ShapesAt(ls[..|ls| - 1], i);
    }
  }

  /**
    The lines built from the photo carry the rows of the mesh's edges, so
    they lie in [0, GridRows) and never decrease along `wireframes`.
  */
  lemma LineRows(ls: seq<Line>, g: Samples, rect: Rect)
    requires WellFormed(g) && Shapes(ls) == Wireframe(g, rect)
    ensures RowsInGrid(Rows(ls))
    ensures forall i, j :: 0 <= i <= j < |ls| ==> Rows(ls)[i] <= Rows(ls)[j]
  {
    WireframeRows(g, rect);
    forall i | 0 <= i < |ls| ensures Rows(ls)[i] == Wireframe(g, rect)[i].row {
      ShapesAt(ls, i);
    }
  }

  /** The first position of `l` in `s`, or -1. */
  function IndexOf(s: seq<Line>, l: Line): (i: int)
    ensures -1 <= i < |s|
    ensures i >= 0 ==> s[i] == l && forall j :: 0 <= j < i ==> s[j] != l
    ensures i == -1 ==> l !in s
  {
    if s == [] then -1
    else if s[0] == l then 0
    else var j := IndexOf(s[1..], l); if j < 0 then -1 else j + 1
  }

  datatype Rotation = Rotation(x: real, y: real, z: real)

  const NoRotation := Rotation(0.0, 0.0, 0.0)

  /** The scene group holding the lines (`meshGroup`). */
  class MeshGroup {
    var children: seq<Line>
    var rotation: Rotation

    constructor ()
      ensures children == [] && rotation == NoRotation
    {
      children := [];
      rotation := NoRotation;
    }

    method Add(l: Line)
      modifies this`children
      ensures children == old(children) + [l]
    {
      children := children + [l];
    }

    /** Removes the first occurrence of `l`, if any. */
    method Remove(l: Line)
      modifies this`children
      ensures var i := IndexOf(old(children), l);
              children == if i < 0 then old(children) else old(children)[..i] + old(children)[i + 1..]
    {
      var i := IndexOf(children, l);
      if i >= 0 {
        children := children[..i] + children[i + 1..];
      }
    }
  }

  /** The photo element's load state. */
  datatype Image = Image(complete: bool, naturalHeight: int)

  datatype PlaybackState = NoTimeline | Idle | Active

  ghost predicate JitterStream(jitter: nat -> real)
  {
    forall i: nat :: 0.0 <= jitter(i) < MaxJitter
  }

  /** The first `n` random draws, one per line in `wireframes` order. */
  function Draws(jitter: nat -> real, n: nat): (js: seq<real>)
    requires JitterStream(jitter)
    ensures |js| == n && JitterInRange(js)
  {
    seq(n, i requires 0 <= i < n => jitter(i))
  }

  class Stage {
    const group: MeshGroup
    /** Whether the hidden 2D context was obtained (`hiddenCtx`). */
    const hasContext: bool
    var wireframes: seq<Line>
    /** Whether the loading indicator is still shown. */
    var loadingShown: bool
    var masterTimeline: Option<Timeline>
    /** The lines the current timeline animates (the timeline holds their materials). */
    var timelineLines: seq<Line>
    /** `masterTimeline.isActive()` */
    var timelineActive: bool
    var avatarOpacity: real

    ghost predicate Valid()
      reads this, group
    {
      group.children == wireframes && (timelineActive ==> masterTimeline.Some?)
    }

    /** No timeline yet, a built timeline that is not running, or a running one. */
    function State(): (st: PlaybackState)
      reads this
      ensures st == NoTimeline <==> masterTimeline.None?
      ensures st == Active <==> masterTimeline.Some? && timelineActive
    {
      if masterTimeline.None? then NoTimeline else if timelineActive then Active else Idle
    }

    /** The photo can be sampled: a 2D context exists and the image has loaded with a height. */
    predicate Ready(image: Image)
    {
      hasContext && image.complete && image.naturalHeight != 0
    }

    /** The stage right after the scene is set up: no lines, no timeline. */
    constructor (hasContext: bool, avatarOpacity: real)
      ensures Valid() && fresh(group)
      ensures this.hasContext == hasContext && this.avatarOpacity == avatarOpacity
      ensures wireframes == [] && loadingShown && State() == NoTimeline
      ensures group.rotation == NoRotation
    {
      group := new MeshGroup();
      this.hasContext := hasContext;
      wireframes := [];
      loadingShown := true;
      masterTimeline := None;
      timelineLines := [];
      timelineActive := false;
      this.avatarOpacity := avatarOpacity;
    }

    /** Creates one line, adds it to the group and appends it to `wireframes`. */
    method CreateLine(p1: Point, p2: Point, row: int) returns (line: Line)
      modifies this`wireframes, group`children
      ensures fresh(line) && line.Shape() == Edge(p1, p2, row) && line.opacity == 0.0
      ensures wireframes == old(wireframes) + [line]
      ensures group.children == old(group.children) + [line]
    {
      line := new Line(p1, p2, row);
      group.Add(line);
      wireframes := wireframes + [line];
    }

    /**
      Rebuilds the mesh from the sampled pixels. Without a context, or before
      the photo has loaded, nothing changes; otherwise the old lines leave the
      group and `wireframes` becomes exactly the new mesh, every line fresh
      and transparent.
    */
    method CreateBodyMesh(image: Image, samples: Samples, rect: Rect)
      requires Valid() && WellFormed(samples)
      modifies this`wireframes, this`loadingShown, group`children
      ensures Valid()
      ensures !Ready(image) ==> wireframes == old(wireframes) && loadingShown == old(loadingShown)
      ensures Ready(image) ==>
                && Shapes(wireframes) == Wireframe(samples, rect)
                && (forall l :: l in wireframes ==> fresh(l) && l.opacity == 0.0)
                && !loadingShown
    {
      if !Ready(image) {
        return;
      }
      ClearWireframes();
      var validPoints, pointsMap := SampleGrid(samples, rect);
      ConnectAll(validPoints, pointsMap);
      loadingShown := false;
    }

    /** Creates, point by point, the lines of every point of `validPoints` into the emptied scene. */
    method ConnectAll(validPoints: seq<Point>, pointsMap: map<Cell, Point>)
      requires Valid() && wireframes == []
      modifies this`wireframes, group`children
      ensures Valid()
      ensures Shapes(wireframes) == EdgesOf(validPoints, pointsMap)
      ensures forall l :: l in wireframes ==> fresh(l) && l.opacity == 0.0
    {
      for i := 0 to |validPoints|
        invariant Valid()
        invariant Shapes(wireframes) == EdgesOf(validPoints[..i], pointsMap)
        invariant forall l :: l in wireframes ==> fresh(l) && l.opacity == 0.0
      {
        ConnectPoint(validPoints[i], pointsMap);
        assert validPoints[..i + 1][..i] == validPoints[..i];
        EdgesOfSplit(validPoints[..i + 1], pointsMap);
      }
      assert validPoints[..|validPoints|] == validPoints;
    }

    /** Removes every previous line from the group and empties `wireframes`. */
    method ClearWireframes()
      requires Valid()
      modifies this`wireframes, group`children
      ensures Valid() && wireframes == [] && group.children == []
    {
      var k := 0;
      while k < |wireframes|
        invariant 0 <= k <= |wireframes|
        invariant group.children == wireframes[k..]
        modifies group`children
      {
        group.Remove(wireframes[k]);
        k := k + 1;
      }
      wireframes := [];
    }

    /** Creates the lines from `point` to each of its four neighbours present in the map. */
    method ConnectPoint(point: Point, pointsMap: map<Cell, Point>)
      requires Valid()
      modifies this`wireframes, group`children
      ensures Valid()
      ensures |wireframes| >= |old(wireframes)| && wireframes[..|old(wireframes)|] == old(wireframes)
      ensures Shapes(wireframes) == old(Shapes(wireframes)) + NeighbourEdges(point, pointsMap)
      ensures forall l :: l in wireframes ==> l in old(wireframes) || (fresh(l) && l.opacity == 0.0)
    {
      ghost var s0, w0 := Shapes(wireframes), wireframes;
      ConnectTo(point, pointsMap, Cell(point.r, point.c + 1));
      ghost var s1, w1 := Shapes(wireframes), wireframes;
      ConnectTo(point, pointsMap, Cell(point.r + 1, point.c));
      ghost var s2, w2 := Shapes(wireframes), wireframes;
      assert w2[..|w0|] == w2[..|w1|][..|w0|];
      ConnectTo(point, pointsMap, Cell(point.r + 1, point.c + 1));
      ghost var s3, w3 := Shapes(wireframes), wireframes;
      assert w3[..|w0|] == w3[..|w2|][..|w0|];
      ConnectTo(point, pointsMap, Cell(point.r + 1, point.c - 1));
      assert wireframes[..|w0|] == wireframes[..|w3|][..|w0|];
      NeighbourSteps(point, pointsMap, s0, s1, s2, s3, Shapes(wireframes));
    }

    /** Creates the line from `point` to the point under `key` when the map has one. */
    method ConnectTo(point: Point, pointsMap: map<Cell, Point>, key: Cell)
      requires Valid()
      modifies this`wireframes, group`children
      ensures Valid()
      ensures |wireframes| >= |old(wireframes)| && wireframes[..|old(wireframes)|] == old(wireframes)
      ensures Shapes(wireframes) == old(Shapes(wireframes)) + MaybeEdge(point, pointsMap, key)
      ensures forall l :: l in wireframes ==> l in old(wireframes) || (fresh(l) && l.opacity == 0.0)
    {
      if key in pointsMap {
        ghost var before := wireframes;
        var line := CreateLine(point, pointsMap[key], point.r);
        assert wireframes[..|wireframes| - 1] == before;
      }
    }

    /**
      Builds the paused master timeline over the current lines, drawing one
      jitter per line in `wireframes` order. With no lines nothing is built
      and the previous timeline, if any, stays in place. A replaced timeline
      that was still running is simply forgotten: its remaining tweens are
      not modelled.
    */
    method CreateSequence(jitter: nat -> real, scannerHeight: real, stageHeight: real)
      requires Valid() && JitterStream(jitter)
      modifies this`masterTimeline, this`timelineLines, this`timelineActive
      ensures Valid()
      ensures wireframes == [] ==>
                masterTimeline == old(masterTimeline) && timelineLines == old(timelineLines)
                && timelineActive == old(timelineActive)
      ensures wireframes != [] ==>
                && masterTimeline == Some(BuildTimeline(Rows(wireframes), Draws(jitter, |wireframes|), scannerHeight, stageHeight))
                && timelineLines == wireframes
                && State() == Idle
    {
      if |wireframes| == 0 {
        return;
      }
      var draws := Draws(jitter, |wireframes|);
      masterTimeline := Some(BuildTimeline(Rows(wireframes), draws, scannerHeight, stageHeight));
      timelineLines := wireframes;
      timelineActive := false;
    }

    /**
      Replays the reveal. Without a timeline, or while it runs, nothing
      happens; otherwise the photo is hidden, the group's rotation reset,
      every line made transparent, and the timeline restarted.
    */
    method PlaySequence()
      requires Valid()
      modifies this`avatarOpacity, this`timelineActive, group`rotation, wireframes
      ensures Valid()
      ensures old(State()) != Idle ==>
                && avatarOpacity == old(avatarOpacity) && timelineActive == old(timelineActive)
                && group.rotation == old(group.rotation)
                && forall l :: l in wireframes ==> l.opacity == old(l.opacity)
      ensures old(State()) == Idle ==>
                && avatarOpacity == 0.0 && group.rotation == NoRotation
                && (forall l :: l in wireframes ==> l.opacity == 0.0)
                && State() == Active
    {
      if masterTimeline.None? {
        return;
      }
      if timelineActive {
        return;
      }
      avatarOpacity := 0.0;
      group.rotation := NoRotation;
      var k := 0;
      while k < |wireframes|
        invariant 0 <= k <= |wireframes|
        invariant forall j :: 0 <= j < k ==> wireframes[j].opacity == 0.0
        modifies wireframes
      {
        wireframes[k].opacity := 0.0;
        k := k + 1;
      }
      timelineActive := true;
    }

    /**
      The running timeline reaches its end: each animated line is left at
      the value of its last tween (0, the fade-out) and the photo at 1.
    */
    method Complete()
      requires Valid() && State() == Active
      modifies this`timelineActive, this`avatarOpacity, timelineLines
      ensures Valid() && State() == Idle
      ensures avatarOpacity == 1.0 && forall l :: l in timelineLines ==> l.opacity == 0.0
    {
      var k := 0;
      while k < |timelineLines|
        invariant 0 <= k <= |timelineLines|
        invariant forall j :: 0 <= j < k ==> timelineLines[j].opacity == 0.0
        modifies timelineLines
      {
        timelineLines[k].opacity := 0.0;
        k := k + 1;
      }
      avatarOpacity := 1.0;
      timelineActive := false;
    }

    /**
      The photo has loaded: the mesh is rebuilt, its timeline built, and a
      fresh, connected visibility observer set up to start the first replay.
    */
    method OnImageReady(image: Image, samples: Samples, rect: Rect, jitter: nat -> real,
                        scannerHeight: real, stageHeight: real)
        returns (observer: VisibilityObserver)
      requires Valid() && WellFormed(samples) && JitterStream(jitter)
      modifies this`wireframes, this`loadingShown, group`children
      modifies this`masterTimeline, this`timelineLines, this`timelineActive
      ensures Valid() && fresh(observer) && observer.connected
      ensures Ready(image) ==>
                && Shapes(wireframes) == Wireframe(samples, rect)
                && (forall l :: l in wireframes ==> fresh(l) && l.opacity == 0.0)
                && !loadingShown
      ensures !Ready(image) ==> wireframes == old(wireframes) && loadingShown == old(loadingShown)
      ensures wireframes == [] ==>
                masterTimeline == old(masterTimeline) && timelineLines == old(timelineLines)
                && timelineActive == old(timelineActive)
      ensures wireframes != [] ==>
                && masterTimeline == Some(BuildTimeline(Rows(wireframes), Draws(jitter, |wireframes|), scannerHeight, stageHeight))
                && timelineLines == wireframes
                && State() == Idle
    {
      CreateBodyMesh(image, samples, rect);
      CreateSequence(jitter, scannerHeight, stageHeight);
      observer := new VisibilityObserver();
    }

    /** A window resize rebuilds the mesh and its timeline from the current photo. */
    method OnResize(image: Image, samples: Samples, rect: Rect, jitter: nat -> real,
                    scannerHeight: real, stageHeight: real)
      requires Valid() && WellFormed(samples) && JitterStream(jitter)
      modifies this`wireframes, this`loadingShown, group`children
      modifies this`masterTimeline, this`timelineLines, this`timelineActive
      ensures Valid()
      ensures Ready(image) ==>
                && Shapes(wireframes) == Wireframe(samples, rect)
                && (forall l :: l in wireframes ==> fresh(l) && l.opacity == 0.0)
                && !loadingShown
      ensures !Ready(image) ==> wireframes == old(wireframes) && loadingShown == old(loadingShown)
      ensures wireframes == [] ==>
                masterTimeline == old(masterTimeline) && timelineLines == old(timelineLines)
                && timelineActive == old(timelineActive)
      ensures wireframes != [] ==>
                && masterTimeline == Some(BuildTimeline(Rows(wireframes), Draws(jitter, |wireframes|), scannerHeight, stageHeight))
                && timelineLines == wireframes
                && State() == Idle
    {
      CreateBodyMesh(image, samples, rect);
      CreateSequence(jitter, scannerHeight, stageHeight);
    }
  }

  /** Appending the four neighbour tests one after the other appends `NeighbourEdges`. */
  lemma NeighbourSteps(p: Point, m: map<Cell, Point>, s0: seq<Edge>, s1: seq<Edge>, s2: seq<Edge>, s3: seq<Edge>, s4: seq<Edge>)
    requires s1 == s0 + MaybeEdge(p, m, Cell(p.r, p.c + 1))
    requires s2 == s1 + MaybeEdge(p, m, Cell(p.r + 1, p.c))
    requires s3 == s2 + MaybeEdge(p, m, Cell(p.r + 1, p.c + 1))
    requires s4 == s3 + MaybeEdge(p, m, Cell(p.r + 1, p.c - 1))
    ensures s4 == s0 + NeighbourEdges(p, m)
  {
  }

  /** The number of intersecting entries in one observer callback. */
  function Intersecting(entries: seq<bool>): nat
  {
    if entries == [] then 0
    else Intersecting(entries[..|entries| - 1]) + if entries[|entries| - 1] then 1 else 0
  }

  /** The one-shot visibility observer: armed while connected, fired once disconnected. */
  class VisibilityObserver {
    var connected: bool

    constructor ()
      ensures connected
    {
      connected := true;
    }

    /**
      One callback with the given entries (each says whether it intersects).
      Each intersecting entry schedules one delayed replay and disconnects
      the observer; a disconnected observer receives no callbacks.
    */
    method Notify(entries: seq<bool>) returns (scheduled: nat)
      modifies this
      ensures scheduled == if old(connected) then Intersecting(entries) else 0
      ensures connected == (old(connected) && Intersecting(entries) == 0)
    {
      scheduled := 0;
      if !connected {
        return;
      }
      for k := 0 to |entries|
        invariant scheduled == Intersecting(entries[..k])
        invariant connected == (scheduled == 0)
      {
        assert entries[..k + 1][..k] == entries[..k];
        if entries[k] {
          scheduled := scheduled + 1;
          connected := false;
        }
      }
      assert entries[..|entries|] == entries;
    }
  }
}
