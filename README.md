# Skateboard grind state machine, in Dafny

This project models the rail-grinding logic of the skateboard prototype's
character controller (`CharController`). The character is either moving
freely or grinding along a rail, which is a list of nodes. A trigger
contact with a rail starts a grind at the rail's nearest node and picks a
direction. Each grinding frame moves a node cursor along the rail until the
last segment is done. A jump press aborts the grind. A cooldown coroutine
closes the `canGrind` gate when a grind ends and opens it again later.

- `geometry.dfy` (module `Geometry`): 3-vectors over `real` and squared distance.
- `grind.dfy` (module `Grind`): the value-level rules. These are the nearest-node scan (with
  `List.IndexOf`), the entry direction, the cursor step, and lemmas about a
  grind over many frames.
- `controller.dfy` (module `Controller`): class `CharController` with the component's
  fields (`grinding`, `grindingReverse`, `canGrind`, `grindingNodes`,
  `nodeNum`, `nodeOffset`, `effectiveDirection`, position, grounded flag)
  and the methods that update them. `Valid()` is the invariant that every
  method keeps: while grinding, the rail has at least two nodes and the
  cursor's target node `nodeNum ± 1` exists.

Distances are compared by their squares. This orders points exactly as
`Vector3.Distance` does, so the "within 0.1" test becomes
`SqDist < 0.01`. Values the engine computes with square roots, quaternions
or its physics are inputs to the model:
- the dot products of the facing with the normalised directions to the nodes (`dotToward`);
- the reciprocal of the exit segment's length (`headingScale`);
- the position after `Vector3.MoveTowards` (`movedTo`);
- the outcome of a free-movement frame (`FreeFrame`).

Three details of the source are easy to misread. The model follows the code as written:
- `grindingNodes` keeps the rail's nodes in the rail's local frame. They are not
  converted to world space. Every position use adds `nodeOffset = railPos - (0, 0.5, 0)`.
- On entry the character is snapped to `closestNode + (0, nodeOffset.y - 0.5, 0)`,
  which is a vertical offset of `railPos.y - 1`. It is not a fixed mount
  height of 0.5.
- The direction test's dot products are taken toward `nodes[k ± 1] - position`,
  which mixes local nodes with the world position. The model takes these
  values as inputs, so it neither depends on this nor repairs it.

A jump pressed on the same frame as a natural end of grind starts a second
cooldown, and the exit impulse is kept. `Update`'s contract says both.

## Model

| member | source | states |
|---|---|---|
| Grind.FindClosestNode | Skateboard/Assets/Script/CharController.cs:139-152 | the index is the nearest node to the position (squared distance to node + rail position), strictly nearer than every earlier node so ties go to the first; the returned node is that node in world space |
| Grind.IndexOf | Skateboard/Assets/Script/CharController.cs:150 | returns -1 exactly when the value is absent; otherwise the element there equals the value and no earlier element does |
| Grind.EarliestNearestUnique | Skateboard/Assets/Script/CharController.cs:139-152 | at most one index is the earliest nearest node, so the entry node depends only on the rail and the position |
| Grind.EntryReverse | Skateboard/Assets/Script/CharController.cs:154-171 | the chosen direction always has a target node, which forces forward at node 0 and reverse at the last node; at a middle node the grind is reverse iff the dot product toward the next node is strictly below the one toward the previous |
| Grind.TargetIndex | Skateboard/Assets/Script/CharController.cs:97-128 | for a cursor in range the target `nodeNum + 1` (forward) or `nodeNum - 1` (reverse) is a valid node index, and it lies below the cursor exactly for reverse |
| Grind.StepCursor | Skateboard/Assets/Script/CharController.cs:96-124 | nothing moves unless the target is reached; reaching it ends the grind iff one segment is left, and otherwise moves the cursor to the target, keeping it in range with one segment fewer left |
| Grind.RunRides | Skateboard/Assets/Script/CharController.cs:95-130 | over any frames with fewer arrivals than segments left, the grind continues and the cursor has moved exactly one node per arrival, still in range |
| Grind.RunEnds | Skateboard/Assets/Script/CharController.cs:95-130 | over any frames with at least as many arrivals as segments left, the grind ends on the arrival frame that completes the last segment, with `nodeNum` left at the start of that segment (node Count-2 forward, node 1 reverse) |
| Grind.LastSegmentEndsOnFirstArrival | Skateboard/Assets/Script/CharController.cs:100-106 | from the start of the last segment (for example on a two-node rail) the grind ends on the first frame that reaches the target |
| Grind.ExitImpulse | Skateboard/Assets/Script/CharController.cs:102-122 | defines the natural-exit impulse, the last segment's heading scaled by the normalising factor plus the (0, 0.5, 0) pop; without the pop it is the scale times the segment's length long (a unit vector when the scale is the reciprocal length), and its vertical part is 0.5 plus the scaled rise of the segment |
| Controller.EntryAccepted | Skateboard/Assets/Script/CharController.cs:133 | defines the entry guard: a contact is rejected whenever the controller is already grinding, the cooldown gate is closed or the tag is not "Rail", and accepted otherwise |
| Controller.CharController.AtTarget | Skateboard/Assets/Script/CharController.cs:97-117 | defines the "within 0.1 of the target node" test on squared distance; arrival puts every coordinate within 0.1 of the target node's, and being within 0.05 on every coordinate is arrival |
| Grind.ExitImpulseRises | Skateboard/Assets/Script/CharController.cs:102-105 | with a non-negative normalising scale and a last segment that does not descend, the exit impulse has vertical component at least 0.5 |
| Controller.CharController.constructor | Skateboard/Assets/Script/CharController.cs:13-29 | a fresh controller is free, not reversed, with zero velocity and offset, empty node list, cursor 0, no pending cooldown and the inspector's `canGrind` |
| Controller.CharController.StartCooldown | Skateboard/Assets/Script/CharController.cs:182-184 | closes the gate and schedules one reopening; no other field changes |
| Controller.CharController.CooldownElapsed | Skateboard/Assets/Script/CharController.cs:184-186 | a scheduled reopening opens the gate; no other field changes |
| Controller.CharController.OnTriggerEnter | Skateboard/Assets/Script/CharController.cs:132-180 | without a rail tag, while grinding, or with the gate closed, nothing changes; otherwise the grind starts on the given nodes at the earliest nearest node in the EntryReverse direction, with offset rail position - (0, 0.5, 0) and the character snapped onto that node; the gate, velocity and grounded flag are untouched and the invariant holds |
| Controller.CharController.GrindingMovement | Skateboard/Assets/Script/CharController.cs:95-130 | the cursor follows StepCursor on the arrival test; a natural end clears `grinding`, closes the gate with one more pending cooldown and adds the exit impulse, leaving `nodeNum` unchanged; the rail, direction and offset never change; the invariant holds |
| Controller.CharController.Update | Skateboard/Assets/Script/CharController.cs:40-55 | with no character controller nothing changes; when free, only position, velocity and grounded flag change; when grinding, a grinding frame runs and a jump press then clears `grinding` and closes the gate with another cooldown but adds no impulse |

## Left out

- `handleMovement` (free movement) is not modelled. It uses floating-point interpolation, `Atan2`, `Sqrt` and the engine's `CharacterController.Move`/`isGrounded`. Its resulting position and velocity are an input (`FreeFrame`).
- Position and orientation during a grind: the `Vector3.MoveTowards` result is an input, and the `Quaternion.LookRotation` orientation is not modelled. The character's orientation is not modelled at all. Its effect on the entry direction comes in through `dotToward`.
- Normalisation (`Vector3.Normalize`, `.normalized`) needs a square root. The exit heading is the segment scaled by the input `headingScale`. Nothing checks that the scale is the reciprocal of the segment's length.
- Single-precision floats: the model uses exact reals. The arrival radius is exactly 0.1, not the float `0.1f`.
- Controller.CharController.OnTriggerEnter: rails with fewer than two nodes are excluded by a precondition. With one node the source starts a forward grind at node 0, and the next grinding frame reads node 1, which is out of range.
- `Start` (cursor locking and fetching the character controller), `Debug.Log`, input polling and `GetComponent<Rail>`. Input values are parameters. A missing character controller is the `hasController` flag.
- The 0.2 s wait of the cooldown coroutine: there is no clock. The coroutine is split into two events, `StartCooldown` and `CooldownElapsed`, and a count of pending coroutines.
- Controller.CharController.OnTriggerEnter: the source makes `grindingNodes` refer to the rail's own node list, so a later change to that list would change the path mid-grind. The model copies the nodes as a value, so this sharing is not modelled. Nothing in the controller changes a rail's list.
- Controller.CharController.constructor: the grind fields (`grinding`, `grindingReverse`, `grindingNodes`, `nodeNum`, `nodeOffset`) are public and could be set in the inspector. The model assumes they are left at their defaults. Only `canGrind` is taken from the inspector.
