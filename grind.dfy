/**
 * The value-level rules of rail grinding: how the nearest node is found on
 * entry, which way a grind runs, how the node cursor moves from frame to
 * frame and when the end of the rail is reached.
 *
 * A rail is a sequence of nodes in the rail's local frame; the rail object's
 * world position is added to a node to place it in the world. A grind cursor
 * is a node index `k` together with a direction: forward grinds head for node
 * k + 1, reverse grinds for node k - 1.
 */
module Grind {
  import opened Geometry

  // ---------------------------------------------------------------------------
  // Grind entry: nearest node
  // ---------------------------------------------------------------------------

  /** Squared distance from `pos` to node `j` of a rail placed at `railPos`. */
  function NodeSqDist(nodes: seq<Vec3>, railPos: Vec3, pos: Vec3, j: int): real
    requires 0 <= j < |nodes|
  {
    SqDist(pos, Add(nodes[j], railPos))
  }

  /**
   * Node `k` is at least as close to `pos` as every node of the rail, and
   * strictly closer than every node before it: the nearest node, ties going
   * to the lowest index.
   */
  ghost predicate IsEarliestNearest(nodes: seq<Vec3>, railPos: Vec3, pos: Vec3, k: int) {
    && 0 <= k < |nodes|
    && (forall j :: 0 <= j < |nodes| ==> NodeSqDist(nodes, railPos, pos, k) <= NodeSqDist(nodes, railPos, pos, j))
    && (forall j :: 0 <= j < k ==> NodeSqDist(nodes, railPos, pos, k) < NodeSqDist(nodes, railPos, pos, j))
  }

  /** The nearest node is determined by the rail and the position alone. */
  lemma EarliestNearestUnique(nodes: seq<Vec3>, railPos: Vec3, pos: Vec3, k1: int, k2: int)
    requires IsEarliestNearest(nodes, railPos, pos, k1)
    requires IsEarliestNearest(nodes, railPos, pos, k2)
    ensures k1 == k2
  {
    // Each is no farther than the other, and strictly nearer if it came first.
    var d1, d2 := NodeSqDist(nodes, railPos, pos, k1), NodeSqDist(nodes, railPos, pos, k2);
    assert d1 <= d2 && d2 <= d1;
  }

  /**
   * List lookup by value equality: the index of the first element equal to
   * `v`, or -1 when there is none.
   */
  function IndexOf(s: seq<Vec3>, v: Vec3): (r: int)
    ensures -1 <= r < |s|
    ensures r == -1 <==> v !in s
    ensures r >= 0 ==> s[r] == v && forall j :: 0 <= j < r ==> s[j] != v
  {
    if |s| == 0 then -1
    else if s[0] == v then 0
    else
      var rest := IndexOf(s[1..], v);
      assert s == [s[0]] + s[1..];
      if rest == -1 then -1 else rest + 1
  }

  /**
   * The scan OnTriggerEnter runs over the rail's nodes: keep the running
   * smallest distance, and on every strictly smaller one record the node and
   * look its index up by value. Returns the index and the node in world space.
   */
  method FindClosestNode(nodes: seq<Vec3>, railPos: Vec3, pos: Vec3) returns (nodeNum: int, closestNode: Vec3)
    requires |nodes| >= 1
    ensures IsEarliestNearest(nodes, railPos, pos, nodeNum)
    ensures closestNode == Add(nodes[nodeNum], railPos)
  {
    var distance := SqDist(pos, Add(nodes[0], railPos));
    closestNode := Add(nodes[0], railPos);
    nodeNum := 0;
    for i := 0 to |nodes|
      invariant 0 <= nodeNum < |nodes| && nodeNum <= i
      invariant distance == NodeSqDist(nodes, railPos, pos, nodeNum)
      invariant closestNode == Add(nodes[nodeNum], railPos)
      invariant forall j :: 0 <= j < i ==> distance <= NodeSqDist(nodes, railPos, pos, j)
      invariant forall j :: 0 <= j < nodeNum ==> distance < NodeSqDist(nodes, railPos, pos, j)
    {
      var node := nodes[i];
      if SqDist(pos, Add(node, railPos)) < distance {
        distance := SqDist(pos, Add(node, railPos));
        closestNode := Add(node, railPos);
        nodeNum := IndexOf(nodes, node);
      }
    }
  }

  // ---------------------------------------------------------------------------
  // The grind cursor
  // ---------------------------------------------------------------------------

  /**
   * A cursor whose target node exists: forward from nodes 0 .. count-2,
   * reverse from nodes 1 .. count-1.
   */
  predicate CursorInRange(k: int, count: int, reverse: bool) {
    if reverse then 1 <= k <= count - 1 else 0 <= k <= count - 2
  }

  /** The node a cursor is heading for. */
  function TargetIndex(k: int, count: int, reverse: bool): (t: int)
    requires CursorInRange(k, count, reverse)
    ensures 0 <= t < count
    ensures t == k + 1 || t == k - 1
    ensures reverse <==> t < k
  {
    if reverse then k - 1 else k + 1
  }

  /** The node a grind in this direction finishes from: the start of the last segment. */
  function TerminalNode(count: int, reverse: bool): int {
    if reverse then 1 else count - 2
  }

  /** How many segments, from the cursor's node to the end of the rail in its direction, remain. */
  function SegmentsLeft(k: int, count: int, reverse: bool): int {
    if reverse then k else count - 1 - k
  }

  /**
   * The direction OnTriggerEnter gives a grind that starts at node `k` of a
   * `count`-node rail (true for reverse). `dotToward(j)` is the dot product
   * of the character's facing with the normalised direction to node j.
   * The first node forces forward, the last forces reverse, and otherwise
   * the grind runs forward unless the previous node lies strictly more
   * ahead than the next.
   */
  function EntryReverse(k: int, count: int, dotToward: int -> real): (reverse: bool)
    requires count >= 2 && 0 <= k < count
    ensures CursorInRange(k, count, reverse)
    ensures 0 < k < count - 1 ==> (reverse <==> dotToward(k + 1) < dotToward(k - 1))
  {
    if k == 0 then false
    else if k == count - 1 then true
    else if dotToward(k + 1) >= dotToward(k - 1) then false
    else true
  }

  /** What one grinding frame does to the cursor. */
  datatype CursorStep = Stay | Advance(next: int) | Finish

  /**
   * The cursor rule of a grinding frame: nothing moves until the target
   * node is reached; reaching it moves the cursor one node on, or ends the
   * grind when it was the last node in that direction.
   */
  function StepCursor(k: int, count: int, reverse: bool, atTarget: bool): (s: CursorStep)
    requires CursorInRange(k, count, reverse)
    ensures s.Stay? <==> !atTarget
    ensures s.Finish? <==> atTarget && SegmentsLeft(k, count, reverse) == 1
    ensures s.Advance? ==> s.next == TargetIndex(k, count, reverse)
    ensures s.Advance? ==> CursorInRange(s.next, count, reverse)
    ensures s.Advance? ==> SegmentsLeft(s.next, count, reverse) == SegmentsLeft(k, count, reverse) - 1 >= 1
  {
    if !atTarget then Stay
    else if k == TerminalNode(count, reverse) then Finish
    else Advance(TargetIndex(k, count, reverse))
  }

  // ---------------------------------------------------------------------------
  // A grind over many frames
  // ---------------------------------------------------------------------------

  /** Where a run of frames leaves a grind: still riding at a node, or ended at a frame from a node. */
  datatype RunOutcome = Riding(at: int) | Ended(frame: nat, at: int)

  /** The number of frames on which the target node was reached. */
  function CountTrue(frames: seq<bool>): nat {
    if frames == [] then 0 else (if frames[0] then 1 else 0) + CountTrue(frames[1..])
  }

  /** A cursor `n` nodes further along in its direction. */
  function Moved(k: int, reverse: bool, n: int): int {
    if reverse then k - n else k + n
  }

  /**
   * Applies StepCursor frame by frame; `frames[i]` says whether the target
   * node was reached on frame i. The first Finish ends the run.
   */
  function Run(k: int, count: int, reverse: bool, frames: seq<bool>): RunOutcome
    requires CursorInRange(k, count, reverse)
    decreases |frames|
  {
    if frames == [] then Riding(k)
    else
      match StepCursor(k, count, reverse, frames[0])
      case Finish => Ended(0, k)
      case Stay => Later(Run(k, count, reverse, frames[1..]))
      case Advance(n) => Later(Run(n, count, reverse, frames[1..]))
  }

  function Later(r: RunOutcome): RunOutcome {
    if r.Ended? then Ended(r.frame + 1, r.at) else r
  }

  lemma {:induction false} CountTruePrefix(frames: seq<bool>, m: nat)
    requires 0 < m <= |frames|
    ensures CountTrue(frames[..m]) == (if frames[0] then 1 else 0) + CountTrue(frames[1..][..m - 1])
  {
    assert frames[..m][1..] == frames[1..][..m - 1];
  }

  /**
   * While fewer target arrivals have happened than there are segments left,
   * the grind goes on, and the cursor has moved one node per arrival.
   */
  lemma {:induction false} RunRides(k: int, count: int, reverse: bool, frames: seq<bool>)
    requires CursorInRange(k, count, reverse)
    requires CountTrue(frames) < SegmentsLeft(k, count, reverse)
    ensures Run(k, count, reverse, frames) == Riding(Moved(k, reverse, CountTrue(frames)))
    ensures CursorInRange(Moved(k, reverse, CountTrue(frames)), count, reverse)
    decreases |frames|
  {
    if frames != [] {
      var step := StepCursor(k, count, reverse, frames[0]);
      if step.Advance? {
        RunRides(step.next, count, reverse, frames[1..]);
      } else {
        RunRides(k, count, reverse, frames[1..]);
      }
    }
  }

  /**
   * Once as many target arrivals have happened as there are segments left,
   * the grind has ended: on the frame of exactly that arrival, with the
   * cursor at the start of the last segment.
   */
  lemma {:induction false} RunEnds(k: int, count: int, reverse: bool, frames: seq<bool>)
    requires CursorInRange(k, count, reverse)
    requires CountTrue(frames) >= SegmentsLeft(k, count, reverse)
    ensures var r := Run(k, count, reverse, frames);
      && r.Ended?
      && r.frame < |frames|
      && frames[r.frame]
      && CountTrue(frames[..r.frame + 1]) == SegmentsLeft(k, count, reverse)
      && r.at == TerminalNode(count, reverse)
    decreases |frames|
  {
    assert frames != [];
    var step := StepCursor(k, count, reverse, frames[0]);
    var rest := frames[1..];
    match step
    case Finish =>
      CountTruePrefix(frames, 1);
    case Stay =>
      RunEnds(k, count, reverse, rest);
      var r := Run(k, count, reverse, rest);
      CountTruePrefix(frames, r.frame + 2);
    case Advance(n) =>
      RunEnds(n, count, reverse, rest);
      var r := Run(n, count, reverse, rest);
      CountTruePrefix(frames, r.frame + 2);
  }

  /**
   * From the start of the last segment (the only segment of a two-node
   * rail) the grind ends on the very first frame that reaches the target.
   */
  lemma {:induction false} LastSegmentEndsOnFirstArrival(k: int, count: int, reverse: bool, frames: seq<bool>, f: nat)
    requires CursorInRange(k, count, reverse) && SegmentsLeft(k, count, reverse) == 1
    requires f < |frames| && frames[f]
    requires forall i :: 0 <= i < f ==> !frames[i]
    ensures Run(k, count, reverse, frames) == Ended(f, k)
    decreases f
  {
    if f > 0 {
      LastSegmentEndsOnFirstArrival(k, count, reverse, frames[1..], f - 1);
    }
  }

  /**
   * The impulse a natural end of grind adds to the character's velocity:
   * the last segment's heading scaled by `headingScale` (the reciprocal of
   * its length, so a unit vector) plus an upward pop of 0.5.
   */
  function ExitImpulse(nodes: seq<Vec3>, k: int, reverse: bool, headingScale: real): (r: Vec3)
    requires CursorInRange(k, |nodes|, reverse)
    // Without the pop, the impulse is `headingScale` times as long as the
    // last segment: a unit vector when the scale is the reciprocal length.
    ensures SqNorm(Sub(r, HalfUp)) == headingScale * headingScale * SqDist(nodes[TargetIndex(k, |nodes|, reverse)], nodes[k])
    // The pop lifts the impulse by 0.5 above the heading's own rise.
    ensures r.y == 0.5 + headingScale * (nodes[TargetIndex(k, |nodes|, reverse)].y - nodes[k].y)
  {
    Add(Scale(Sub(nodes[TargetIndex(k, |nodes|, reverse)], nodes[k]), headingScale), HalfUp)
  }

  /** On a last segment that does not descend, the exit pop sends the character upward. */
  lemma ExitImpulseRises(nodes: seq<Vec3>, k: int, reverse: bool, headingScale: real)
    requires CursorInRange(k, |nodes|, reverse)
    requires headingScale >= 0.0
    requires nodes[TargetIndex(k, |nodes|, reverse)].y >= nodes[k].y
    ensures ExitImpulse(nodes, k, reverse, headingScale).y >= 0.5
  {
  }
}
