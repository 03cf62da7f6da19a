/**
 * The character controller's grind state machine: the fields the engine
 * component keeps between frames and the four things that change them
 * (the rail trigger, the per-frame update, the grinding frame and the
 * cooldown coroutine).
 *
 * Engine values the model does not compute are passed in: the result of a
 * free-movement frame, where the slide toward the target node leaves the
 * character, the facing's dot products with the directions to the nodes and
 * the reciprocal of the exit heading's length.
 */
module Controller {
  import opened Geometry
  import opened Grind

  /** Engine values for one grinding frame. */
  datatype GrindFrame = GrindFrame(
    movedTo: Vec3,       // position after sliding toward the target node
    headingScale: real)  // 1 / length of the last segment, for normalising the exit heading

  /** The outcome of one free-movement frame, which this model does not compute. */
  datatype FreeFrame = FreeFrame(position: Vec3, effectiveDirection: Vec3)

  /** The squared form of the "within 0.1 of the target node" test. */
  const ArrivalSqDist: real := 0.01

  /** A trigger contact starts a grind only with a rail, when not grinding and past the cooldown. */
  predicate EntryAccepted(tag: string, grinding: bool, canGrind: bool)
    ensures grinding ==> !EntryAccepted(tag, grinding, canGrind)
    ensures !canGrind ==> !EntryAccepted(tag, grinding, canGrind)
    ensures tag != "Rail" ==> !EntryAccepted(tag, grinding, canGrind)
    ensures tag == "Rail" && !grinding && canGrind ==> EntryAccepted(tag, grinding, canGrind)
  {
    tag == "Rail" && !grinding && canGrind
  }

  class CharController {
    var position: Vec3
    var effectiveDirection: Vec3
    var charIsGrounded: bool
    var grinding: bool
    var grindingReverse: bool
    var canGrind: bool
    /** The rail's nodes in the rail's own frame; `nodeOffset` places them in the world. */
    var grindingNodes: seq<Vec3>
    var nodeNum: int
    var nodeOffset: Vec3
    /** Cooldown coroutines started and not yet past their wait. */
    var pendingCooldowns: nat

    /** While grinding, the rail has a segment and the cursor's target node exists. */
    ghost predicate Valid()
      reads this
    {
      grinding ==> |grindingNodes| >= 2 && CursorInRange(nodeNum, |grindingNodes|, grindingReverse)
    }

    /** The component as the scene creates it: at rest, free, with the inspector's `canGrind`. */
    constructor (start: Vec3, canGrindAtStart: bool)
      ensures Valid()
      ensures position == start && effectiveDirection == Zero && !charIsGrounded
      ensures !grinding && !grindingReverse && canGrind == canGrindAtStart
      ensures grindingNodes == [] && nodeNum == 0 && nodeOffset == Zero && pendingCooldowns == 0
    {
      position := start;
      effectiveDirection := Zero;
      charIsGrounded := false;
      grinding := false;
      grindingReverse := false;
      canGrind := canGrindAtStart;
      grindingNodes := [];
      nodeNum := 0;
      nodeOffset := Zero;
      pendingCooldowns := 0;
    }

    /** The node the current grind is heading for, in world space. */
    function Target(): Vec3
      reads this
      requires Valid() && grinding
    {
      Add(grindingNodes[TargetIndex(nodeNum, |grindingNodes|, grindingReverse)], nodeOffset)
    }

    /**
     * The character is within 0.1 of the target node. Arrival puts every
     * coordinate within 0.1 of the target's, and being within 0.05 on every
     * coordinate is arrival.
     */
    predicate AtTarget()
      reads this
      requires Valid() && grinding
      ensures AtTarget() ==>
        && -0.1 < position.x - Target().x < 0.1
        && -0.1 < position.y - Target().y < 0.1
        && -0.1 < position.z - Target().z < 0.1
      ensures (&& -0.05 < position.x - Target().x < 0.05
               && -0.05 < position.y - Target().y < 0.05
               && -0.05 < position.z - Target().z < 0.05) ==> AtTarget()
    {
      ShortVectorBounds(Sub(position, Target()), 0.1);
      SqDist(position, Target()) < ArrivalSqDist
    }

    /** The first half of the cooldown coroutine: close the gate and start the wait. */
    method StartCooldown()
      modifies this`canGrind, this`pendingCooldowns
      ensures !canGrind
      ensures pendingCooldowns == old(pendingCooldowns) + 1
    {
      canGrind := false;
      pendingCooldowns := pendingCooldowns + 1;
    }

    /** The second half of one cooldown coroutine: its wait is over and the gate opens. */
    method CooldownElapsed()
      requires pendingCooldowns > 0
      modifies this`canGrind, this`pendingCooldowns
      ensures canGrind
      ensures pendingCooldowns == old(pendingCooldowns) - 1
    {
      canGrind := true;
      pendingCooldowns := pendingCooldowns - 1;
    }

    /**
     * Contact with a trigger collider. A rail placed at `railPos` with the
     * given nodes starts a grind at its nearest node, in the direction
     * EntryReverse picks, and snaps the character onto that node.
     */
    method OnTriggerEnter(tag: string, nodes: seq<Vec3>, railPos: Vec3, dotToward: int -> real)
      requires Valid()
      requires EntryAccepted(tag, grinding, canGrind) ==> |nodes| >= 2
      modifies this`grinding, this`grindingReverse, this`grindingNodes, this`nodeNum, this`nodeOffset, this`position
      ensures Valid()
      ensures !EntryAccepted(tag, old(grinding), old(canGrind)) ==> unchanged(this)
      ensures EntryAccepted(tag, old(grinding), old(canGrind)) ==>
        && grinding
        && grindingNodes == nodes
        && nodeOffset == Sub(railPos, HalfUp)
        && IsEarliestNearest(nodes, railPos, old(position), nodeNum)
        && grindingReverse == EntryReverse(nodeNum, |nodes|, dotToward)
        && position == Add(Add(nodes[nodeNum], railPos), Vec3(0.0, nodeOffset.y - 0.5, 0.0))
    {
      if EntryAccepted(tag, grinding, canGrind) {
        var closestNode;
        nodeOffset := Sub(railPos, HalfUp);
        nodeNum, closestNode := FindClosestNode(nodes, railPos, position);
        if nodeNum == 0 {
          grindingReverse := false;
        } else if nodeNum == |nodes| - 1 {
          grindingReverse := true;
        } else {
          var dotToNext := dotToward(nodeNum + 1);
          var dotToPrev := dotToward(nodeNum - 1);
          if dotToNext >= dotToPrev {
            grindingReverse := false;
          } else {
            grindingReverse := true;
          }
        }
        position := Add(closestNode, Vec3(0.0, nodeOffset.y - 0.5, 0.0));
        grinding := true;
        grindingNodes := nodes;
      }
    }

    /**
     * One grinding frame: on arrival at the target node, move the cursor one
     * node on, or at the end of the rail stop grinding, add the exit impulse
     * and start the cooldown; then slide toward the target.
     */
    method GrindingMovement(frame: GrindFrame)
      requires Valid() && grinding
      modifies this`nodeNum, this`grinding, this`effectiveDirection, this`canGrind, this`pendingCooldowns, this`position
      ensures Valid()
      ensures var step := StepCursor(old(nodeNum), |grindingNodes|, grindingReverse, old(AtTarget()));
        && nodeNum == (if step.Advance? then step.next else old(nodeNum))
        && grinding == !step.Finish?
        && canGrind == (old(canGrind) && !step.Finish?)
        && pendingCooldowns == old(pendingCooldowns) + (if step.Finish? then 1 else 0)
        && effectiveDirection == (if step.Finish?
                                  then Add(old(effectiveDirection), ExitImpulse(grindingNodes, nodeNum, grindingReverse, frame.headingScale))
                                  else old(effectiveDirection))
        && position == frame.movedTo
    {
      var count := |grindingNodes|;
      if !grindingReverse {
        var target := Add(grindingNodes[nodeNum + 1], nodeOffset);
        if nodeNum < count - 2 && SqDist(position, target) < ArrivalSqDist {
          nodeNum := nodeNum + 1;
        } else if nodeNum == count - 2 && SqDist(position, target) < ArrivalSqDist {
          grinding := false;
          var heading := Sub(grindingNodes[nodeNum + 1], grindingNodes[nodeNum]);
          heading := Scale(heading, frame.headingScale);
          heading := Add(heading, HalfUp);
          effectiveDirection := Add(effectiveDirection, heading);
          StartCooldown();
        }
      } else {
        var target := Add(grindingNodes[nodeNum - 1], nodeOffset);
        if nodeNum > 1 && SqDist(position, target) < ArrivalSqDist {
          nodeNum := nodeNum - 1;
        } else if nodeNum == 1 && SqDist(position, target) < ArrivalSqDist {
          grinding := false;
          var heading := Sub(grindingNodes[nodeNum - 1], grindingNodes[nodeNum]);
          heading := Scale(heading, frame.headingScale);
          heading := Add(heading, HalfUp);
          effectiveDirection := Add(effectiveDirection, heading);
          StartCooldown();
        }
      }
      position := frame.movedTo;
    }

    /**
     * The per-frame update. Without a character controller nothing happens.
     * Grinding runs a grinding frame, and a jump press then aborts the grind
     * and starts a cooldown; otherwise free movement runs. The grounded flag
     * is then refreshed.
     */
    method Update(hasController: bool, jumpPressed: bool, grounded: bool, grind: GrindFrame, free: FreeFrame)
      requires Valid()
      modifies this
      ensures Valid()
      ensures !hasController ==> unchanged(this)
      ensures hasController ==> charIsGrounded == grounded
      ensures hasController && !old(grinding) ==>
        && position == free.position
        && effectiveDirection == free.effectiveDirection
        && !grinding && grindingReverse == old(grindingReverse) && canGrind == old(canGrind)
        && grindingNodes == old(grindingNodes) && nodeNum == old(nodeNum) && nodeOffset == old(nodeOffset)
        && pendingCooldowns == old(pendingCooldowns)
      ensures hasController && old(grinding) ==>
        var step := StepCursor(old(nodeNum), |old(grindingNodes)|, old(grindingReverse), old(AtTarget()));
        && grindingNodes == old(grindingNodes) && grindingReverse == old(grindingReverse) && nodeOffset == old(nodeOffset)
        && nodeNum == (if step.Advance? then step.next else old(nodeNum))
        && grinding == (!step.Finish? && !jumpPressed)
        && canGrind == (old(canGrind) && !step.Finish? && !jumpPressed)
        && pendingCooldowns == old(pendingCooldowns) + (if step.Finish? then 1 else 0) + (if jumpPressed then 1 else 0)
        && effectiveDirection == (if step.Finish?
                                  then Add(old(effectiveDirection), ExitImpulse(grindingNodes, nodeNum, grindingReverse, grind.headingScale))
                                  else old(effectiveDirection))
        && position == grind.movedTo
    {
      if hasController {
        if grinding {
          GrindingMovement(grind);
          if jumpPressed {
            grinding := false;
            StartCooldown();
          }
        } else {
          position := free.position;
          effectiveDirection := free.effectiveDirection;
        }
        charIsGrounded := grounded;
      }
    }
  }
}
