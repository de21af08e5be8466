/** The 2-D demonstration ray (src/ray.rs): a point moving in a straight line
    at the speed of light, remembering its most recent positions as a trail
    of bounded length. */
module Rays {
  import opened Vec2D

  /** The ray's own speed constant, `SPEED_OF_LIGHT` in src/ray.rs. */
  const RAY_SPEED: real := 300000000.0

  /** The trail holds at most this many positions. */
  const MEMORY_LENGTH: nat := 256

  /** A position is remembered every this many steps. */
  const MEMORY_INTERVAL: nat := 1

  /** `memory` is oldest first: the back of the queue is the latest
      remembered position. */
  datatype Ray = Ray(position: Vec2, direction: Vec2, memory: seq<Vec2>, counter: nat)

  /** `Ray::new`: at (x, y), heading (dx, dy), nothing remembered yet. */
  function New(x: real, y: real, dx: real, dy: real): (r: Ray)
    ensures r.position == Vec2(x, y) && r.direction == Vec2(dx, dy)
    ensures r.memory == [] && r.counter == 0
  {
    Ray(Vec2(x, y), Vec2(dx, dy), [], 0)
  }

  /** The last MEMORY_LENGTH entries of a sequence (all of it when shorter). */
  function Window(s: seq<Vec2>): (w: seq<Vec2>)
    ensures |w| <= MEMORY_LENGTH
    ensures |w| == if |s| < MEMORY_LENGTH then |s| else MEMORY_LENGTH
    ensures w == s[|s| - |w|..]
  {
    if |s| > MEMORY_LENGTH then s[|s| - MEMORY_LENGTH..] else s
  }

  /** `Ray::step`: move by direction × speed, count the step, remember the
      new position every MEMORY_INTERVAL steps and drop the oldest entry once
      the trail is longer than MEMORY_LENGTH. */
  function Step(r: Ray): (next: Ray)
    ensures next.direction == r.direction && next.counter == r.counter + 1
    ensures next.position == Add(r.position, Scale(r.direction, RAY_SPEED))
    ensures |r.memory| <= MEMORY_LENGTH ==> next.memory == Window(r.memory + [next.position])
  {
    var position := Add(r.position, Scale(r.direction, RAY_SPEED));
    var counter := r.counter + 1;
    var pushed := r.memory + [position];
    var memory :=
      if counter % MEMORY_INTERVAL != 0 then r.memory
      else if |pushed| > MEMORY_LENGTH then pushed[1..]
      else pushed;
    Ray(position, r.direction, memory, counter)
  }

  /** n steps in a row. */
  function Steps(r: Ray, n: nat): Ray
    decreases n
  {
    if n == 0 then r else Steps(Step(r), n - 1)
  }

  /** Where the ray is after k steps from r: the step direction × speed
      added to its position k times. */
  function PositionAfter(r: Ray, k: nat): Vec2
  {
    if k == 0 then r.position else Add(PositionAfter(r, k - 1), Scale(r.direction, RAY_SPEED))
  }

  /** The positions visited by the first n steps from r, first to last. */
  function Path(r: Ray, n: nat): (path: seq<Vec2>)
    ensures |path| == n
    ensures forall k :: 0 <= k < n ==> path[k] == PositionAfter(r, k + 1)
  {
    seq(n, k requires 0 <= k => PositionAfter(r, k + 1))
  }

  // ---------------------------------------------------------------------
  // Properties

  /** One step keeps the trail within MEMORY_LENGTH and ends it with the new
      position. */
  lemma StepTrailBounded(r: Ray)
    requires |r.memory| <= MEMORY_LENGTH
    ensures |Step(r).memory| <= MEMORY_LENGTH
    ensures |Step(r).memory| > 0 && Step(r).memory[|Step(r).memory| - 1] == Step(r).position
  {
  }

  /** Steps compose: the (k+1)-th position from r is one step on from the
      k-th. */
  lemma {:induction false} PositionAfterStep(r: Ray, k: nat)
    ensures PositionAfter(Step(r), k) == PositionAfter(r, k + 1)
  {
    if k > 0 {
      PositionAfterStep(r, k - 1);
    }
  }

  /** The path of n + 1 steps is the first step's position followed by the
      path of n steps from there. */
  lemma PathStep(r: Ray, n: nat)
    ensures Path(r, n + 1) == [Step(r).position] + Path(Step(r), n)
  {
    forall k: nat
      ensures PositionAfter(Step(r), k) == PositionAfter(r, k + 1)
    {
      PositionAfterStep(r, k);
    }
    assert PositionAfter(r, 0) == r.position;
    assert Path(r, n + 1)[0] == PositionAfter(r, 1) == Step(r).position;
  }

  /** After n steps the ray has moved n times along its unchanged
      direction. */
  lemma {:induction false} StepsMotion(r: Ray, n: nat)
    ensures Steps(r, n).counter == r.counter + n
    ensures Steps(r, n).direction == r.direction
    ensures Steps(r, n).position == PositionAfter(r, n)
    decreases n
  {
    if n > 0 {
      StepsMotion(Step(r), n - 1);
      PositionAfterStep(r, n - 1);
    }
  }

  /** After n steps the trail is the last MEMORY_LENGTH entries of the old
      trail followed by every position visited: oldest dropped first. */
  lemma {:induction false} StepsTrail(r: Ray, n: nat)
    requires |r.memory| <= MEMORY_LENGTH
    ensures Steps(r, n).memory == Window(r.memory + Path(r, n))
    decreases n
  {
    if n == 0 {
      assert r.memory + Path(r, 0) == r.memory;
    } else {
      var s := Step(r);
      var rest := Path(s, n - 1);
      StepsTrail(s, n - 1);
      assert s.memory == Window(r.memory + [s.position]);
      PathStep(r, n - 1);
      WindowConcat(r.memory, s.position, rest);
    }
  }

  /** Windowing is insensitive to windowing a prefix first. */
  lemma WindowConcat(s: seq<Vec2>, v: Vec2, rest: seq<Vec2>)
    ensures Window(Window(s + [v]) + rest) == Window(s + ([v] + rest))
  {
    var w := Window(s + [v]);
    var t := s + [v];
    assert w + rest == (t + rest)[|t| - |w|..];
    assert t + rest == s + ([v] + rest);
  }

  /** `trail` holds the latest min(n, MEMORY_LENGTH) of the n positions
      visited from r, in order, the newest last. */
  ghost predicate Latest(trail: seq<Vec2>, r: Ray, n: nat)
  {
    |trail| == (if n < MEMORY_LENGTH then n else MEMORY_LENGTH) &&
    forall i :: 0 <= i < |trail| ==> n - |trail| + i + 1 >= 0 && trail[i] == PositionAfter(r, n - |trail| + i + 1)
  }

  /** The window of the path of n steps holds its latest positions. */
  lemma WindowOfPath(r: Ray, n: nat)
    ensures Latest(Window(Path(r, n)), r, n)
  {
    var path := Path(r, n);
    var w := Window(path);
    forall i | 0 <= i < |w|
      ensures w[i] == PositionAfter(r, n - |w| + i + 1)
    {
      assert w[i] == path[n - |w| + i];
    }
  }

  /** Starting from `new`, after n steps the trail holds min(n, 256)
      entries: the latest positions, in order, the newest last. */
  lemma TrailFromNew(x: real, y: real, dx: real, dy: real, n: nat)
    ensures Latest(Steps(New(x, y, dx, dy), n).memory, New(x, y, dx, dy), n)
  {
    var r0 := New(x, y, dx, dy);
    StepsTrail(r0, n);
    assert r0.memory + Path(r0, n) == Path(r0, n);
    WindowOfPath(r0, n);
  }

  // ---------------------------------------------------------------------
  // The trail's segments, as `draw` walks them

  /** One trail segment: its older and newer end and its opacity. */
  datatype Segment = Segment(first: Vec2, second: Vec2, alpha: real)

  /** The segments `draw` strokes, in loop order: for index in 1..len the
      segment from entry len−1−index to entry len−index, with alpha
      1 − index/MEMORY_LENGTH. An empty trail draws none. */
  function Segments(memory: seq<Vec2>): (segs: seq<Segment>)
    ensures |segs| == if |memory| == 0 then 0 else |memory| - 1
    ensures forall k :: 0 <= k < |segs| ==>
              segs[k].first == memory[|memory| - 2 - k] && segs[k].second == memory[|memory| - 1 - k]
  {
    if |memory| == 0 then []
    else seq(|memory| - 1, k requires 0 <= k < |memory| - 1 =>
           var index := k + 1;
           Segment(memory[|memory| - 1 - index], memory[|memory| - index], 1.0 - index as real / MEMORY_LENGTH as real))
  }

  /** On a trail of at most MEMORY_LENGTH entries every segment is partly
      transparent and partly visible, and older segments are fainter. */
  lemma SegmentAlphas(memory: seq<Vec2>)
    requires |memory| <= MEMORY_LENGTH
    ensures forall k :: 0 <= k < |Segments(memory)| ==> 0.0 < Segments(memory)[k].alpha < 1.0
    ensures forall j, k :: 0 <= j < k < |Segments(memory)| ==> Segments(memory)[k].alpha < Segments(memory)[j].alpha
  {
  }

  /** The segments of a ray's trail join consecutive positions it took. */
  lemma SegmentsFollowPath(x: real, y: real, dx: real, dy: real, n: nat, k: nat)
    requires k < |Segments(Steps(New(x, y, dx, dy), n).memory)|
    ensures var seg := Segments(Steps(New(x, y, dx, dy), n).memory)[k];
            k + 1 <= n &&
            seg.first == PositionAfter(New(x, y, dx, dy), n - k - 1) &&
            seg.second == PositionAfter(New(x, y, dx, dy), n - k)
  {
    TrailFromNew(x, y, dx, dy, n);
    SegmentsOfLatest(Steps(New(x, y, dx, dy), n).memory, New(x, y, dx, dy), n, k);
  }

  /** Segment k of a trail holding the latest positions joins the positions
      n − k − 1 and n − k steps on. */
  lemma SegmentsOfLatest(trail: seq<Vec2>, r: Ray, n: nat, k: nat)
    requires Latest(trail, r, n) && k < |Segments(trail)|
    ensures k + 1 <= n
    ensures Segments(trail)[k].first == PositionAfter(r, n - k - 1)
    ensures Segments(trail)[k].second == PositionAfter(r, n - k)
  {
    var len := |trail|;
    var older, newer := len - 2 - k, len - 1 - k;
    assert n - len + older + 1 == n - k - 1 && n - len + newer + 1 == n - k;
    var seg := Segments(trail)[k];
    assert seg.first == trail[older] && seg.second == trail[newer];
    assert trail[older] == PositionAfter(r, n - k - 1);
    assert trail[newer] == PositionAfter(r, n - k);
  }
}
