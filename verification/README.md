# Verified models of the liquide desktop

Dafny models of the parts of the liquide desktop whose correctness rests on invariants, arithmetic or state
machines, with proofs about them.  `dafny verify dfyconfig.toml` checks the whole project.

- **Accessibility trees** (`Forest`, `ForestUpdates`, `TreeWalks`, `BridgeModel`, `BridgeTree`, `BridgeHits`,
  `BridgeEffects`, `HitDepth`, `BridgeSession`, `A11yTree`).  Two trees keep their nodes in a map with parent links
  and child lists.  A forest is well formed when links agree both ways, child lists repeat nothing and a rank falls
  along every link.
  Removal works through a worklist, walks recurse, paths climb; all of them end only because of that invariant.
  The calls check very little themselves, so the exact condition that a caller has to meet is proved for each.
- **Focus** (`Focus`, `FocusLaws`, `Navigation`).  Tab order, cyclic focus movement and the keyboard actions.
- **Animation** (`Easing`, `EasingKeywords`, `Scheduler`, `AnimationLaws`, `Keyframes`).  The cubic-bezier solver of
  section 2.2 of CSS Easing Functions Level 1, the time accounting and events of section 2 of CSS Animations
  Level 1, and the choice of the keyframes around the current progress.
- **Files** (`Ordering`, `NaturalSort`, `NaturalOrderLaws`, `Calendar`, `Decimals`, `Recent`, `RecentFormat`,
  `RecentHistory`, `Glob`).  Natural order and stable sorting of listings, the Gregorian calendar of section 5.7 and
  Appendix C of RFC 3339, the text format of the recent-files store, and the glob matcher of search folders.
- **Text** (`Utf8Text`, `TextLaws`).  Segmentation of UTF-8 (section 3 of RFC 3629) into words, lines, sentences and
  paragraphs.
- **Settings** (`Settings`, `SettingsRuntime`, `SettingsLaws`).  Coalescing of changes, undo and redo as a timeline,
  validation, policy and notifications.
- **Metrics** (`RingBuffer`).  The ring buffer and the time series on it.

Types whose methods update fields are classes; each such method is tied to a function on values, and the
properties are proved about that function.  `Arithmetic` and `Wrappers` hold shared lemmas and the option and
result types.

Where code and comment disagree the model follows the code:

- The comment at `crates/liquide-animation/src/scheduler.rs:130` wants the value of the iteration just completed
  at a boundary; the alternating directions give the opposite end (`Scheduler.BoundaryProgressIff`).
- The comment at `crates/liquide-animation/src/scheduler.rs:101` speaks of the final frame; after a fractional count
  of iterations, or none, another value is held (`Scheduler.HoldsFinalFrameIff`).
- Keyframes may list several selectors, but the search compares a keyframe by its first one only
  (`Keyframes.UsesNearestIff`).
- The doc comment at `crates/liquide-animation/src/easing.rs:76` promises an output in [0,1]; a curve may overshoot,
  and `Easing.EvaluateStaysWithinIff` says when.
- The comment at `crates/liquide-apps-files/src/recent.rs:238` speaks of truncating the tail; the code drops the
  front of the ascending order, which is the oldest (`Recent.EvictsTheOldest`).
- A choice setting keeps the empty text, not its initial value, as its default
  (`crates/liquide-apps-settings/src/entry.rs:141`), so resetting it usually fails (`SettingsModel.ChoiceResetsIff`).
- The doc comment at `crates/liquide-a11y-bridge/src/tree.rs:415` says that the deepest hit wins; that holds within
  a branch (`BridgeHits.HitIsDeepestInBranch`), across branches the later one wins (`BridgeHits.LaterBranchWins`),
  and `HitDepth.DeepestWinsIff` says for which trees the rule holds.
- Undo, redo and revert do not ask the policy (`SettingsModel.StepRespectsPolicyIff`), and revert announces nothing
  (`SettingsModel.RunKeepsInStepIff`).

## Model

| member | source | states |
|---|---|---|
| Forest.CollectSubtree | crates/liquide-a11y-bridge/src/tree.rs:246-255 | the worklist ends, repeats no node, and holds exactly the nodes reachable from `id` through child lists |
| Forest.WorklistStep | crates/liquide-a11y-bridge/src/tree.rs:249-255 | expanding one node keeps the worklist duplicate-free and closed: every entry but the top comes from an expanded parent |
| Forest.SiblingsDisjoint | crates/liquide-a11y-bridge/src/tree.rs:408-411 | the subtrees of two different children of a node share no node |
| Forest.PreorderIsSubtree | crates/liquide-a11y-bridge/src/tree.rs:393-413 | a walk visits each node reachable from its start exactly once, and no other |
| ForestUpdates.Detach | crates/liquide-a11y-bridge/src/tree.rs:246-268 | collecting, unlinking and deleting leaves the old map minus the reachable set, every other node unchanged but for `id` dropped from its parent's children |
| ForestUpdates.RemoveSubtreeKeepsForest | crates/liquide-a11y/src/tree.rs:53-88 | a removal from a well-formed forest leaves a well-formed forest, for both trees |
| ForestUpdates.AttachKeepsForestIff | crates/liquide-a11y-bridge/src/tree.rs:226-237 | `add_node`, which checks neither the id nor the children, keeps the forest well formed if and only if the node is fresh and childless, or overwrites the top of a detached tree with the same children outside which the parent lies |
| ForestUpdates.InsertKeepsForestIff | crates/liquide-a11y-bridge/src/tree.rs:206-210 | `set_root` keeps the forest well formed if and only if the node is fresh, childless and parentless, or has the links of the node it overwrites |
| TreeWalks.AddedLeafIsWalkedLast | crates/liquide-a11y-bridge/src/tree.rs:226-237 | a freshly added leaf is visited last in the walk of its parent, the rest of that walk being unchanged |
| TreeWalks.AddedLeafEndsBlock | crates/liquide-a11y-bridge/src/tree.rs:226-237 | in the walk from any node above the parent, the parent's block gains the leaf at its end and nothing else changes |
| TreeWalks.AddedLeafElsewhere | crates/liquide-a11y-bridge/src/tree.rs:226-237 | the walk from a node that is not above the parent is unchanged |
| TreeWalks.RemovalFiltersWalk | crates/liquide-a11y-bridge/src/tree.rs:241-280 | a removal takes exactly the removed nodes out of the walk from any remaining node and keeps the order of the others |
| BridgeModel.StepKeepsInvIff | crates/liquide-a11y-bridge/src/tree.rs:206-345 | each mutating call keeps the tree consistent (links agree both ways, no duplicates, acyclic, parentless root, exactly the focused node flagged) if and only if the caller met the stated condition |
| BridgeModel.RunKeepsInvIff | crates/liquide-a11y-bridge/src/tree.rs:206-345 | the tree is consistent after every prefix of a run if and only if every call of the run was admissible where it was made |
| BridgeModel.RootRemovedOnlyByItself | crates/liquide-a11y-bridge/src/tree.rs:270-272 | the root lies in a removed subtree only as its top, so comparing with `id` alone suffices |
| BridgeModel.RemoveUndoesAdd | crates/liquide-a11y-bridge/src/tree.rs:226-280 | removing a freshly added childless node, whatever else it carries, gives back the tree before the addition, root and focus included |
| BridgeModel.PathIsAncestors | crates/liquide-a11y-bridge/src/tree.rs:378-390 | the path to the root holds exactly the nodes from which `id` is reachable |
| BridgeEffects.SetFocusedMeans | crates/liquide-a11y-bridge/src/tree.rs:326-336 | from a tree whose flags agree with its focus the focus goes to the target; a node carries `Focused` if and only if it is the target; links, other states, data and root of every node are unchanged |
| BridgeEffects.ClearFocusedMeans | crates/liquide-a11y-bridge/src/tree.rs:339-345 | no focus and no flag is left, and nothing else changes |
| BridgeEffects.SetRootMeans | crates/liquide-a11y-bridge/src/tree.rs:206-210 | the given node is the root and stored as it was given; every other node and the focus are untouched |
| BridgeEffects.AddNodeMeans | crates/liquide-a11y-bridge/src/tree.rs:226-237 | a fresh node is stored with the new parent and otherwise as given, and listed last there; nothing else changes |
| BridgeEffects.RemoveNodeMeans | crates/liquide-a11y-bridge/src/tree.rs:241-280 | on a consistent tree a node remains exactly if it is not reachable from the removed one, unchanged but for that id in its child list; root and focus are lost exactly if they were reachable |
| BridgeEffects.FocusAfterRun | crates/liquide-a11y-bridge/src/tree.rs:206-345 | after any run of admissible calls the focus is the target of the last focus call, unless a later call cleared it or removed a subtree that held it |
| BridgeEffects.FocusStaysSet | crates/liquide-a11y-bridge/src/tree.rs:241-345 | the same said of one call: if no later call sets the focus, its target keeps it if and only if no later call takes it away |
| BridgeEffects.RootAfterRun | crates/liquide-a11y-bridge/src/tree.rs:206-280 | after any such run the root is the last node set as root, unless it was itself removed since |
| BridgeEffects.BoxCorners | crates/liquide-a11y-bridge/src/tree.rs:99-101 | a box contains its top left corner exactly if it is not empty, and no point on or beyond its right and bottom edges or before the others |
| BridgeEffects.BoxesTile | crates/liquide-a11y-bridge/src/tree.rs:99-101 | boxes side by side or one above the other share no point and together contain what the box around them contains |
| BridgeEffects.BoxMoves | crates/liquide-a11y-bridge/src/tree.rs:99-101 | moving box and point together changes nothing, and the two coordinates are tested independently |
| BridgeHits.LastHitIsLast | crates/liquide-a11y-bridge/src/tree.rs:418-437 | the reference answer of a hit test is the last listed node whose bounds contain the point, and none exactly when no node contains it |
| BridgeHits.HitIsDeepestInBranch | crates/liquide-a11y-bridge/src/tree.rs:415-437 | no node below the hit contains the point: within a branch the deepest hit wins, as documented |
| BridgeHits.LaterBranchWins | crates/liquide-a11y-bridge/src/tree.rs:424-429 | between two branches of any node the later one wins, however deep the hit in the earlier one |
| HitDepth.DeepestWinsIff | crates/liquide-a11y-bridge/src/tree.rs:415-437 | whatever the boxes and the point, no node that contains the point lies deeper than the hit, if and only if in the tree of the root only last children have children |
| HitDepth.GrandchildLoses | crates/liquide-a11y-bridge/src/tree.rs:424-429 | otherwise a grandchild through an earlier child, boxed together with the next child, loses to it though it lies deeper |
| HitDepth.DepthsRise | crates/liquide-a11y-bridge/src/tree.rs:402-413 | where only last children have children the depth never falls along the walk |
| HitDepth.DeepestHitCanLose | crates/liquide-a11y-bridge/src/tree.rs:415-437 | an illustration: a tree where a hit two levels down loses to one a level higher |
| BridgeSessions.SessionKeepsInv | crates/liquide-a11y-bridge/src/tree.rs:199-210 | a client that takes ids from `allocate_id`, inserts newly constructed nodes and focuses nodes it finds keeps the tree consistent in every run from the empty tree, and the counter above every id |
| BridgeTree.AccessibleTree.SetRoot | crates/liquide-a11y-bridge/src/tree.rs:206-210 | reaches the state of the value model, whose consistency and effect the lemmas above state |
| BridgeTree.AccessibleTree.AddNode | crates/liquide-a11y-bridge/src/tree.rs:226-237 | reports whether the parent exists; if not, nothing changes; otherwise the node is attached as its last child |
| BridgeTree.AccessibleTree.RemoveNode | crates/liquide-a11y-bridge/src/tree.rs:241-280 | reports whether the node exists and removes exactly its subtree; root and focus are cleared exactly when they lie in it |
| BridgeTree.AccessibleTree.SetFocused | crates/liquide-a11y-bridge/src/tree.rs:326-336 | reaches the state of the value model, whose effect `BridgeEffects.SetFocusedMeans` states on the nodes |
| BridgeTree.AccessibleTree.ClearFocused | crates/liquide-a11y-bridge/src/tree.rs:339-345 | takes the flag and the focus away |
| BridgeTree.AccessibleTree.PathToRoot | crates/liquide-a11y-bridge/src/tree.rs:378-390 | ends on every forest; the ids are distinct, each the parent of the one before, the last without a parent; empty for an unknown id |
| BridgeTree.AccessibleTree.Walk | crates/liquide-a11y-bridge/src/tree.rs:393-413 | the callback sees exactly the preorder of the root's tree |
| BridgeTree.AccessibleTree.HitTest | crates/liquide-a11y-bridge/src/tree.rs:418-437 | the reverse search with early exit returns the last node of the walk whose bounds contain the point |
| A11yTree.AccessibilityTree.AddNode | crates/liquide-a11y/src/tree.rs:39-50 | an unknown parent is an error that changes nothing; otherwise the node is attached as its last child |
| A11yTree.AccessibilityTree.RemoveNode | crates/liquide-a11y/src/tree.rs:53-88 | an unknown id is an error that changes nothing; otherwise exactly the subtree is removed and the root cleared when it is the top |
| A11yTree.AccessibilityTree.Walk | crates/liquide-a11y/src/tree.rs:123-143 | the callback sees exactly the preorder of the root's tree |
| Focus.TabOrderIsFocusableNodes | crates/liquide-a11y/src/focus.rs:51-59 | the tab order holds each focusable node of the root's tree exactly once and nothing else |
| Focus.TabOrderAfterRemoval | crates/liquide-a11y/src/focus.rs:51-59 | the tab order rebuilt after a removal is the old one without the removed nodes, in the same order, the root's own removal included |
| Focus.HandleKeepsRange | crates/liquide-a11y/src/navigation.rs:78-153 | every action keeps both cursors in range and both orders unchanged; a reported move is the new focus, an activation or no change leaves the state alone |
| Focus.TabIndexAfterRun | crates/liquide-a11y/src/navigation.rs:78-153 | a run that jumps onto no tab stop moves the tab index by its net number of forward steps modulo the length |
| Focus.TabIndexAfterJump | crates/liquide-a11y/src/navigation.rs:78-153 | any other run ends at the stop of its last such jump, moved by the net steps after it, whatever came before |
| Focus.JumpWithinOrder | crates/liquide-a11y/src/focus.rs:28-34 | the stop of such a jump is the first position of the region it goes to, and the region is that of the run up to there |
| Focus.RegionAfterRun | crates/liquide-a11y/src/navigation.rs:55-76 | any run whatever moves the current region by its net number of region steps modulo their number |
| Focus.FullCycleIsRotation | crates/liquide-a11y/src/focus.rs:63-71 | as many `focus_next` calls as there are tab stops visit the order rotated: every entry once, home last |
| Focus.PreviousUndoesNext | crates/liquide-a11y/src/focus.rs:63-87 | stepping forward and back, or back and forward, restores the tab index and everything but the focus, which is then on it |
| Focus.NextAfterSetFocus | crates/liquide-a11y/src/focus.rs:28-34 | tabbing on from a directly focused tab stop goes to its successor; from a node outside the order it goes on from the old stop |
| Focus.RingAfterRun | crates/liquide-a11y/src/navigation.rs:85-113 | after any run the last tab or escape of it decides whether the focus ring is shown; with an empty tab order only escapes count |
| Focus.ActionKeepsStopIff | crates/liquide-a11y/src/navigation.rs:78-153 | focus and tab index stay together through an action if and only if it does not jump to a region outside the tab order |
| Focus.RunKeepsStop | crates/liquide-a11y/src/navigation.rs:78-153 | when all regions are tab stops, any run keeps focus and tab index together |
| FocusLaws.FocusableIff | crates/liquide-a11y/src/node.rs:136-153 | focusable are exactly ten kinds of control, unless disabled or invisible |
| FocusLaws.SetFocusMeans | crates/liquide-a11y/src/focus.rs:28-34 | the focus is the node; the index goes to the first place of a tab stop and stays for any other node |
| FocusLaws.ActionAnswers | crates/liquide-a11y/src/navigation.rs:78-153 | tab and arrow keys answer with the stop next to the current one along the cycle, region keys with the next region, activation with the focused node, escape with the escape; without a target there is no change |
| FocusLaws.AnswerTellsFocus | crates/liquide-a11y/src/navigation.rs:78-153 | a reported move is the new focus, an escape takes the focus away, and any other answer leaves it |
| FocusLaws.FocusAfterRun | crates/liquide-a11y/src/navigation.rs:78-153 | after any run the focus is what the last answer that reports a move or an escape says |
| FocusLaws.QuietRunKeepsFocus | crates/liquide-a11y/src/navigation.rs:78-153 | and the old focus if no answer of the run reports one |
| Navigation.FocusManager.BuildTabOrder | crates/liquide-a11y/src/focus.rs:51-59 | the loop collects exactly the focusable filter of the walk and starts at index 0 |
| Navigation.FocusManager.SetFocus | crates/liquide-a11y/src/focus.rs:25-34 | sets the focus and syncs the index to the first position of the id, if it has one |
| Navigation.FocusManager.FocusNext | crates/liquide-a11y/src/focus.rs:63-71 | the new index is the cyclic successor and the focus the entry there; nothing on an empty order |
| Navigation.FocusManager.FocusPrevious | crates/liquide-a11y/src/focus.rs:75-87 | likewise the cyclic predecessor |
| Navigation.KeyboardNavigation.HandleAction | crates/liquide-a11y/src/navigation.rs:78-153 | both objects end in the state, and the result is the one, that the value model gives for the action |
| Easing.Solve | crates/liquide-animation/src/easing.rs:39-74 | the Newton loop and, where it missed, the bisection loop compute the recursive solver that the lemmas are about |
| Easing.DeCasteljau | crates/liquide-animation/src/easing.rs:24-35 | the polynomial of the source is repeated mixing of the control values |
| Easing.CurveRises | crates/liquide-animation/src/easing.rs:24-35 | with control points in [0,1] a coordinate never falls and rises at most three times as fast as the parameter |
| Easing.CurveMoves | crates/liquide-animation/src/easing.rs:24-35 | any coordinate moves at most three times as fast as the largest difference of neighbouring control values |
| Easing.BisectResidual | crates/liquide-animation/src/easing.rs:59-70 | on any curve each round keeps sample(lo) < x <= sample(hi) and halves the bracket, so the residual after n rounds is at most 3/2 of the n-fold halved steepness times width |
| Easing.SolverResidual | crates/liquide-animation/src/easing.rs:39-74 | for any control points and x in (0,1) every path returns t in [0,1] whose sample misses x by at most 1e-4 or 3/2 of the steepness times 2^-19 |
| Easing.SolverTolerance | crates/liquide-animation/src/easing.rs:39-74 | so the sample is within 1e-4 of x up to a steepness of 34.95, which covers the curves that CSS allows |
| Easing.SolverStaysInUnit | crates/liquide-animation/src/easing.rs:39-74 | for any control points the solver stays in [0,1] |
| Easing.EvaluateBezierWithinUnit | crates/liquide-animation/src/easing.rs:76-86 | the eased value stays in [0,1] for any widths when the heights pass two inequalities, which those in [0,1] do |
| Easing.EvaluateStaysWithinIff | crates/liquide-animation/src/easing.rs:76-86 | these inequalities are exact: the eased value stays in [0,1] for all widths and inputs if and only if the heights pass them |
| Easing.EvaluateMonotoneUpToTolerance | crates/liquide-animation/src/easing.rs:76-86 | inputs more than twice the tolerance apart are eased in order |
| Easing.DiagonalIsIdentityUpToTolerance | crates/liquide-animation/src/easing.rs:76-86 | a curve with its control points on the diagonal is the identity up to the tolerance |
| Easing.EvaluateFixesEnds | crates/liquide-animation/src/easing.rs:117-134 | every timing function, with any control points, maps 0 to 0 and 1 to 1 |
| Easing.EvaluateWithinUnit | crates/liquide-animation/src/easing.rs:117-134 | every timing function maps [0,1] into itself, a custom curve when its heights pass the inequalities |
| Easing.StepsQuantise | crates/liquide-animation/src/easing.rs:125-132 | a step function takes only the values k/count and stays within one step above (jump-start) or below (jump-end) its input |
| EasingKeywords.EaseAtQuarters | crates/liquide-animation/src/easing.rs:120 | `ease` gives 0.408, 0.802 and 0.960 at 1/4, 1/2 and 3/4, up to the solver tolerance |
| EasingKeywords.EaseInAtQuarters | crates/liquide-animation/src/easing.rs:121 | `ease-in` gives 0.093, 0.315 and 0.622 there |
| EasingKeywords.EaseOutAtQuarters | crates/liquide-animation/src/easing.rs:122 | `ease-out` gives 0.378, 0.685 and 0.907 there |
| EasingKeywords.EaseInOutAtQuarters | crates/liquide-animation/src/easing.rs:123 | `ease-in-out` gives 0.129, 0.5 and 0.871 there |
| EasingKeywords.EasedBetween | crates/liquide-animation/src/easing.rs:39-86 | any curve with control points in [0,1] eases x to a height between those of two parameters whose widths enclose x by more than the tolerance |
| EasingKeywords.EaseInLagsBehind | crates/liquide-animation/src/easing.rs:121 | `ease-in` is nowhere above its input by more than the tolerance |
| EasingKeywords.EaseOutRunsAhead | crates/liquide-animation/src/easing.rs:122 | `ease-out` is nowhere below its input by more than the tolerance |
| EasingKeywords.MirrorsAddUp | crates/liquide-animation/src/easing.rs:76-86 | a curve and its point reflection give values at x and 1-x that sum to 1, up to how far heights differ on widths within two tolerances |
| EasingKeywords.InMirrorsOut | crates/liquide-animation/src/easing.rs:121-122 | `ease-in` at x and `ease-out` at 1-x sum to 1 within 0.00035 |
| EasingKeywords.InOutMirrorsItself | crates/liquide-animation/src/easing.rs:123 | `ease-in-out` at x and at 1-x sum to 1 within 0.00125 |
| Scheduler.RunningAnimation.Tick | crates/liquide-animation/src/scheduler.rs:166-205 | one tick leaves the state, and returns the event, of the value model |
| Scheduler.TicksAddUp | crates/liquide-animation/src/scheduler.rs:166-205 | any non-empty run of non-negative ticks leaves the state, iteration count and progress that one tick of the summed time leaves |
| Scheduler.EmptyRunAddsUpIff | crates/liquide-animation/src/scheduler.rs:166-205 | the empty run adds up too if and only if the animation is finished, paused, pending within its delay, or running with a count that is up to date and not reached |
| Scheduler.EventsAreALifecycle | crates/liquide-animation/src/scheduler.rs:166-205 | any run of ticks emits at most one start, first, strictly rising iteration indices, and at most one end, last |
| Scheduler.PendingStartsFirst | crates/liquide-animation/src/scheduler.rs:171-182 | from a pending animation the first event is the start, or a lone end when it is over at once; no iteration precedes the start |
| Scheduler.LoneEndIff | crates/liquide-animation/src/scheduler.rs:171-194 | the lone end replaces the start if and only if the tick that ends the delay also reaches the end |
| Scheduler.ListenerKeepsIteration | crates/liquide-animation/src/scheduler.rs:195-201 | a listener to the events of a running animation that knows its iteration keeps knowing it for as long as it runs |
| Scheduler.StartTellsIterationIff | crates/liquide-animation/src/scheduler.rs:179-201 | the starting tick hides any iterations it crosses: the listener knows the iteration after it if and only if the tick stays within the first |
| Scheduler.IndicesBelowCount | crates/liquide-animation/src/scheduler.rs:188-201 | with a finite count every emitted iteration index stays below it |
| Scheduler.EndIsReached | crates/liquide-animation/src/scheduler.rs:184-194 | an animation is finished after a run, and has told its end, if and only if its duration is positive, its count finite, and the summed time reaches delay plus count times duration |
| Scheduler.ProgressWithinUnit | crates/liquide-animation/src/scheduler.rs:85-161 | the progress lies in [0,1] in every state, a custom curve being one that stays within |
| Scheduler.ProgressInIteration | crates/liquide-animation/src/scheduler.rs:129-160 | from the epsilon on, and at the very start, the progress inside an iteration is the eased fraction, forwards or backwards as the direction says for the iteration counted, that is, cast to `u32` |
| Scheduler.CountIsKeptIff | crates/liquide-animation/src/scheduler.rs:145-152 | the cast leaves the direction of an iteration alone if and only if the iteration fits, is odd, or the direction does not alternate |
| Scheduler.ProgressJustStarted | crates/liquide-animation/src/scheduler.rs:135-139 | within the epsilon after the start of an iteration it is instead the value on which that iteration ends |
| Scheduler.ProgressInIterationIff | crates/liquide-animation/src/scheduler.rs:129-160 | under linear easing the progress is the fraction if and only if the fraction is at least the epsilon or no time has passed; for iterations whose parity the cast loses, only midway and at the boundary |
| Scheduler.BoundaryProgressIff | crates/liquide-animation/src/scheduler.rs:130-158 | at an iteration boundary the progress is the last value of the iteration just completed, as the comment at line 130 wants, exactly for the directions that do not alternate and for iterations whose parity the cast loses |
| Scheduler.FinishedHoldsFinalFrame | crates/liquide-animation/src/scheduler.rs:101-127 | after a positive whole number of iterations a forwards fill holds the last value of the last one |
| Scheduler.HoldsFinalFrameIff | crates/liquide-animation/src/scheduler.rs:101-127 | under linear easing the value held is where the timeline ended if and only if the count is whole and positive (and its parity survives the cast to `u32`) |
| Scheduler.HalfIterationJumps | crates/liquide-animation/src/scheduler.rs:101-127 | with two and a half iterations the progress comes up to one half and jumps to 1 on finishing |
| Scheduler.TickAllsAddUp | crates/liquide-animation/src/scheduler.rs:270-285 | a run of scheduler ticks, pruning on or off, keeps the animations that one tick of the summed time keeps, in the same states |
| AnimationLaws.RunLeaves | crates/liquide-animation/src/scheduler.rs:166-205 | after any run of ticks state, iteration count and elapsed time are those that the summed time and the timing alone decide |
| AnimationLaws.FinishesIff | crates/liquide-animation/src/scheduler.rs:166-205 | a run finishes an animation if and only if the summed time since the delay reaches duration times maximum count |
| AnimationLaws.FinishedCount | crates/liquide-animation/src/scheduler.rs:188-191 | whenever a run of ticks finishes a pending or running animation, its iteration count is the maximum of its timing |
| AnimationLaws.RunHoldsFinalFrame | crates/liquide-animation/src/scheduler.rs:101-127 | a run that finishes a whole number n > 0 of iterations, n taken from the timing, holds the eased end of the last one |
| AnimationLaws.RunHoldsFinalFrameIff | crates/liquide-animation/src/scheduler.rs:101-127 | under linear easing the value held after any finishing run is the end of the timeline that the timing asks for if and only if its count is whole and positive (and, for alternating directions, fits 32 bits) |
| AnimationLaws.ShownWhilePending | crates/liquide-animation/src/scheduler.rs:90-99 | before the delay a backwards fill shows the first value of the timeline in its direction, any other fill 0 |
| AnimationLaws.ShownAfterwards | crates/liquide-animation/src/scheduler.rs:85-127 | after the end nothing is shown without a forwards fill, nor ever without a duration |
| AnimationLaws.KeptIffShown | crates/liquide-animation/src/scheduler.rs:277-284 | a finished animation survives pruning if and only if, played forwards, it still shows its end |
| AnimationLaws.OnlyFinishedArePruned | crates/liquide-animation/src/scheduler.rs:277-284 | nothing else is pruned, and nothing at all with pruning off |
| AnimationLaws.TickedInPlace | crates/liquide-animation/src/scheduler.rs:270-276 | each animation of the list is ticked, in its place |
| AnimationLaws.TickedThenKept | crates/liquide-animation/src/scheduler.rs:270-285 | pruning drops animations from that list and keeps the order of the rest |
| AnimationLaws.NodeHearsIff | crates/liquide-animation/src/scheduler.rs:270-276 | a node gets an event if and only if one of its animations emits it in that tick |
| Scheduler.AnimationScheduler.TickAll | crates/liquide-animation/src/scheduler.rs:270-285 | every animation is ticked once, the events are collected in order with their nodes, and with pruning exactly the finished ones that hold no value are dropped |
| Keyframes.ResolveProperty | crates/liquide-animation/src/scheduler.rs:307-373 | the nested search loops and the lookup compute the value model; nothing for an unregistered rule |
| Keyframes.DeclaredIff | crates/liquide-animation/src/scheduler.rs:335-346 | a keyframe gives a property the value of the first declaration of that property, and nothing if and only if it declares it nowhere |
| Keyframes.MixesLinearly | crates/liquide-animation/src/scheduler.rs:385-421 | numbers mix along the straight line from the first to the second, lengths of one of six units like their numbers, other units not |
| Keyframes.BeforeIsNearest | crates/liquide-animation/src/scheduler.rs:316-332 | when each keyframe repeats a single selector, the search below finds the nearest keyframe at or below the progress, the last listed on a tie, or finds that there is none |
| Keyframes.AfterIsNearest | crates/liquide-animation/src/scheduler.rs:316-332 | likewise the nearest at or above |
| Keyframes.UsesNearestIff | crates/liquide-animation/src/scheduler.rs:315-332 | the two offsets used are the nearest selectors on both sides at every progress if and only if no keyframe has two different selectors |
| Keyframes.MixedSelectorsMislead | crates/liquide-animation/src/scheduler.rs:320-331 | in a keyframe with two different selectors, the one that differs from the first is a progress at which the search goes wrong |
| Keyframes.ResolveBetweenNearest | crates/liquide-animation/src/scheduler.rs:307-373 | the result combines the values of the nearest keyframes on both sides: values on one scale interpolate and stay between, others snap at one half, a missing one gives way |
| Keyframes.ResolveBeforeFirst | crates/liquide-animation/src/scheduler.rs:334-372 | before the first keyframe its declaration is returned, that of the last listed on a tie |
| Keyframes.ResolveAfterLast | crates/liquide-animation/src/scheduler.rs:334-372 | after the last keyframe likewise |
| Keyframes.LocalProgressIff | crates/liquide-animation/src/scheduler.rs:354-358 | between two offsets the local progress is the plain fraction if and only if they lie more than the epsilon apart or the upper one is reached |
| Keyframes.ResolveAtKeyframe | crates/liquide-animation/src/scheduler.rs:307-373 | at a keyframe's selector its own declaration is returned, of whatever type, that of the last listed on a tie |
| Keyframes.SeveralSelectorsMisresolve | crates/liquide-animation/src/scheduler.rs:322-329 | an illustration: a rule whose value at 3/4 differs from the same rule written out one selector at a time |
| NaturalSort.CollectNumber | crates/liquide-apps-files/src/sort.rs:71-82 | advances past exactly the maximal digit run and returns min(decimal value, 2^64-1) |
| NaturalSort.NaturalCmp | crates/liquide-apps-files/src/sort.rs:39-69 | the two iterators in lockstep compute the lexicographic order of the token sequences (digit runs as numbers, other characters lower-cased) |
| NaturalSort.NaturalOrderIsTotalPreorder | crates/liquide-apps-files/src/sort.rs:38-69 | the order is reflexive, reversed by swapping, and transitive, so that sorting by it is meaningful |
| NaturalSort.EqualMeansSameTokens | crates/liquide-apps-files/src/sort.rs:38-69 | two names compare equal exactly when their token sequences agree |
| NaturalSort.SaturatedNumbersTie | crates/liquide-apps-files/src/sort.rs:71-82 | digit strings compare by their saturated values, so distinct numbers of 2^64-1 and more tie |
| NaturalSort.ComparatorIsOrder | crates/liquide-apps-files/src/sort.rs:8-23 | directories first, then the key, reversed or not, is a total preorder whenever the key is |
| NaturalSort.DirectoriesFirst | crates/liquide-apps-files/src/sort.rs:9-13 | in a sorted listing no file precedes a directory, in either direction |
| NaturalSort.SortEntries | crates/liquide-apps-files/src/sort.rs:7-24 | sorts in place, stably, to a permutation with all directories first; among entries of one kind sizes and times, and folded names and extensions as texts, do not fall if ascending and do not rise if descending |
| NaturalSort.SortNatural | crates/liquide-apps-files/src/sort.rs:27-36 | likewise with all directories first, and no name followed by a naturally smaller one if ascending, or a greater one if descending |
| NaturalSort.LexIsTextOrder | crates/liquide-apps-files/src/sort.rs:16-19 | comparing character by character is text order: a beginning comes first, else the first differing character decides |
| NaturalOrderLaws.TokensConcat | crates/liquide-apps-files/src/sort.rs:39-69 | cutting a name anywhere but inside a number cuts its token sequence |
| NaturalOrderLaws.NumbersDecide | crates/liquide-apps-files/src/sort.rs:49-55 | after a common beginning the smaller number comes first, whatever follows, so foo2 precedes foo10 |
| NaturalOrderLaws.CharactersDecide | crates/liquide-apps-files/src/sort.rs:57-65 | after a common beginning two different lower-cased characters decide, a digit among them counting as itself |
| NaturalOrderLaws.BeginningComesFirst | crates/liquide-apps-files/src/sort.rs:46-47 | a name precedes every longer name that it begins |
| NaturalOrderLaws.CaseIsIgnored | crates/liquide-apps-files/src/sort.rs:57-58 | a name and its lower-cased form have the same tokens, so case decides nothing |
| Ordering.StableSortIsUnique | crates/liquide-apps-files/src/sort.rs:8-23 | two sorted sequences with the same equal-element subsequences are equal, so any stable `sort_by` gives this result |
| Ordering.StableSortSorts | crates/liquide-apps-files/src/recent.rs:239 | the stable sort as a function sorts to a permutation and keeps the order of equal elements |
| Ordering.SortedStablyIsStableSort | crates/liquide-apps-files/src/recent.rs:239 | whatever is sorted and a stable rearrangement is what that function gives, so the in-place sort of eviction computes it |
| Ordering.SortBy | crates/liquide-apps-files/src/sort.rs:28-35 | an in-place stable sort of the slice: sorted, a permutation, equal elements in order |
| Utf8Text.CutAtCharBoundary | crates/liquide-a11y-bridge/src/text.rs:148-149 | cutting valid UTF-8 at a character boundary leaves two valid texts |
| Utf8Text.BoundariesCut | crates/liquide-a11y-bridge/src/text.rs:152-191 | on valid text none of the four boundary tests accepts a position inside a character |
| Utf8Text.ExtractSegment | crates/liquide-a11y-bridge/src/text.rs:124-150 | the two walks stop at the nearest boundary on each side, on character boundaries, and the slice between them is returned |
| Utf8Text.SegmentAround | crates/liquide-a11y-bridge/src/text.rs:124-150 | start <= offset < end, both boundaries, with no boundary strictly inside |
| Utf8Text.OffsetsShareSegment | crates/liquide-a11y-bridge/src/text.rs:124-150 | every offset inside a segment gives that segment |
| Utf8Text.ReturnsThePiece | crates/liquide-a11y-bridge/src/text.rs:114-150 | what the call returns for any offset of valid text, in each of the four kinds, is the piece of the text that covers the offset, at the place where that piece stands |
| Utf8Text.EveryPieceIsReturned | crates/liquide-a11y-bridge/src/text.rs:114-150 | every piece is what the call returns at the offset where the piece starts |
| Utf8Text.PiecesMakeTheText | crates/liquide-a11y-bridge/src/text.rs:114-150 | these pieces concatenate to the text; none is empty and each is valid UTF-8 |
| Utf8Text.LinesWithinParagraphs | crates/liquide-a11y-bridge/src/text.rs:164-191 | every line segment lies inside one paragraph segment |
| Utf8Text.WordSegmentsAreRuns | crates/liquide-a11y-bridge/src/text.rs:152-162 | word segments are exactly the maximal runs of bytes of one kind |
| Utf8Text.LineSegmentsEndInNewline | crates/liquide-a11y-bridge/src/text.rs:164-169 | line segments are exactly the stretches with a newline at most at their end, delimited by newlines or the ends of the text |
| Utf8Text.SentenceSegmentsEndSentences | crates/liquide-a11y-bridge/src/text.rs:171-178 | sentence segments are exactly the stretches with an end mark before a space or newline at most at their end, delimited by such marks or the ends of the text |
| Utf8Text.ParagraphSegmentsEndInBlankLines | crates/liquide-a11y-bridge/src/text.rs:180-191 | paragraph segments are exactly the stretches with two newlines in a row at most at their end, delimited by such pairs or the ends of the text |
| Utf8Text.GetTextAtOffset | crates/liquide-a11y-bridge/src/text.rs:96-120 | computes the value model for every offset and kind, out of range and the slicing panic included |
| TextLaws.WordAt | crates/liquide-a11y-bridge/src/text.rs:114 | asked for a word the call returns the maximal run of name bytes (ASCII letters, digits, underscore), or of other bytes, around the offset |
| TextLaws.LineAt | crates/liquide-a11y-bridge/src/text.rs:115 | asked for a line, the stretch around the offset from a newline or the start to the next newline or the end |
| TextLaws.SentenceAt | crates/liquide-a11y-bridge/src/text.rs:116 | asked for a sentence, the stretch from one end mark before a space or newline, or the start, to the next, or the end |
| TextLaws.ParagraphAt | crates/liquide-a11y-bridge/src/text.rs:117 | asked for a paragraph, the stretch from one pair of newlines, or the start, to the next, or the end |
| TextLaws.CharacterAt | crates/liquide-a11y-bridge/src/text.rs:106-113 | asked for a character, exactly the one code point encoded at the offset |
| TextLaws.AllAndNothing | crates/liquide-a11y-bridge/src/text.rs:101-118 | asked for everything, the whole text; an offset out of range gives the empty range for every kind |
| TextLaws.ValidIff | crates/liquide-a11y-bridge/src/text.rs:96-100 | the texts of the model are exactly the UTF-8 encodings of sequences of code points |
| Utf8Text.PanicsIff | crates/liquide-a11y-bridge/src/text.rs:106-113 | the call panics if and only if a character is asked for at an offset inside one |
| Utf8Text.ReturnedTextIsValid | crates/liquide-a11y-bridge/src/text.rs:96-120 | whatever is returned in range contains the offset, is the text between its offsets and cuts the text into three valid parts |
| SettingEntries.ColorsHaveSixDigits | crates/liquide-apps-settings/src/entry.rs:219-223 | although bytes are counted, a colour is accepted exactly when it is `#` and six hex digits |
| SettingsLaws.AcceptsIff | crates/liquide-apps-settings/src/entry.rs:186-248 | for every kind exactly the right values pass: numbers of the closed range, listed choices, texts whose UTF-8 encoding fits, colours, percentages from 0 to 100; every mismatch of type is refused |
| SettingsLaws.LengthIsEncoded | crates/liquide-apps-settings/src/entry.rs:210 | the length that a text is checked by is that of its UTF-8 encoding |
| ChangeTracking.CoalesceMentions | crates/liquide-apps-settings/src/apply.rs:37-45 | pending keys are distinct and are exactly those recorded |
| ChangeTracking.CoalesceSpans | crates/liquide-apps-settings/src/apply.rs:37-45 | each pending change holds the first old and the last new value recorded for its key |
| ChangeTracking.CoalesceKeepsMeaning | crates/liquide-apps-settings/src/apply.rs:37-53 | replaying the coalesced list gives the state that replaying every recorded change in order gives |
| ChangeTracking.CoalesceIsConsistent | crates/liquide-apps-settings/src/apply.rs:37-45 | a log whose changes name the values they replace coalesces to a batch that does so too |
| ChangeTracking.UndoRestoresBatch | crates/liquide-apps-settings/src/apply.rs:56-68 | undoing as many changes as an applied batch has restores the values before it and leaves the stack below it |
| ChangeTracking.ApplyThenUndoRestores | crates/liquide-apps-settings/src/apply.rs:37-68 | recording a log, applying it and undoing every applied change restores the values before the log |
| ChangeTracking.ChangeTracker.Record | crates/liquide-apps-settings/src/apply.rs:37-45 | updates the pending change of the key or appends one, and empties the redo stack |
| ChangeTracking.ChangeTracker.Apply | crates/liquide-apps-settings/src/apply.rs:49-53 | moves all pending changes to the undo stack in order and returns them |
| ChangeTracking.ChangeTracker.Undo | crates/liquide-apps-settings/src/apply.rs:56-68 | moves the last change to the redo stack and returns it reversed; an error on an empty stack |
| ChangeTracking.ChangeTracker.Redo | crates/liquide-apps-settings/src/apply.rs:71-83 | moves it back and returns it; an error on an empty stack |
| SettingsModel.SetValueExtends | crates/liquide-apps-settings/src/runtime.rs:213-242 | a successful set drops the future of the timeline and adds one snapshot; a failed one changes nothing |
| SettingsLaws.SetSucceedsIff | crates/liquide-apps-settings/src/runtime.rs:213-242 | an edit goes through if and only if the setting is known and unconstrained and takes the value; otherwise nothing changes and the first check that fails is reported |
| SettingsLaws.SetMeans | crates/liquide-apps-settings/src/runtime.rs:225-240 | an edit that goes through changes one value only, records old and new value as the last thing to undo, leaves nothing to redo, and is announced once |
| SettingsLaws.ResetMeans | crates/liquide-apps-settings/src/runtime.rs:245-253 | a reset goes through exactly if the default passes validation, and then the default is the value; an unknown setting is reported as such even if constrained |
| SettingsLaws.ConstrainedAfterRun | crates/liquide-apps-settings/src/policy.rs:30-49 | after any run a setting is constrained exactly if the last constraint or release of it was a constraint, or, without any, if it was before |
| SettingsModel.UndoStepsBack | crates/liquide-apps-settings/src/runtime.rs:258-266 | undo moves the cursor one snapshot back, and fails without effect exactly at the start |
| SettingsModel.RedoStepsForward | crates/liquide-apps-settings/src/runtime.rs:269-277 | redo moves it forward, and fails without effect exactly at the end |
| SettingsModel.FreshRefines | crates/liquide-apps-settings/src/runtime.rs:213-277 | a runtime whose tracker is empty is a timeline of one snapshot |
| SettingsModel.RevertGoesToStart | crates/liquide-apps-settings/src/runtime.rs:468-478 | revert moves the cursor to the start and keeps the future |
| SettingsModel.RunRefinesTimeline | crates/liquide-apps-settings/src/runtime.rs:213-277 | any run of edits, resets, undos, redos, reverts and policy changes refines the same run on a timeline of full snapshots with a cursor |
| SettingsModel.RunKeepsValid | crates/liquide-apps-settings/src/runtime.rs:213-277 | if the initial values pass validation, so does every value stored, undoable or redoable after any run |
| SettingsModel.RevertRestoresInitial | crates/liquide-apps-settings/src/runtime.rs:468-478 | after any run `revert_changes` restores the values that the run started from |
| SettingsModel.StepKeepsInStepIff | crates/liquide-apps-settings/src/runtime.rs:213-277 | a listener that applies every notification stays in step through any step but a revert that changes something |
| SettingsModel.RunKeepsInStepIff | crates/liquide-apps-settings/src/runtime.rs:213-277 | it stays in step throughout a run if and only if every revert of the run finds the initial values |
| SettingsModel.RevertKeepsInStepIff | crates/liquide-apps-settings/src/runtime.rs:468-478 | `revert_changes` announces nothing, so the listener stays in step if and only if the values are already the initial ones |
| SettingsModel.ChoiceResetsIff | crates/liquide-apps-settings/src/runtime.rs:245-253 | an unlocked choice made by its constructor resets if and only if the empty text is one of its options |
| SettingsModel.RevertWritesOldest | crates/liquide-apps-settings/src/runtime.rs:468-478 | revert leaves at each key the value that the oldest recorded change of it replaced |
| SettingsModel.StepRespectsPolicyIff | crates/liquide-apps-settings/src/runtime.rs:213-277 | a step leaves a constrained entry alone if and only if it is no undo, redo or revert, or that writes nothing to the entry or what is there |
| SettingsModel.UndoIgnoresPolicy | crates/liquide-apps-settings/src/runtime.rs:258-266 | after set and constrain, undo gives the constrained entry its old value back |
| SettingsRuntimes.SettingsRuntime.SetValue | crates/liquide-apps-settings/src/runtime.rs:213-242 | runtime and tracker end in the state, and the result is the one, of the value model, all error cases included |
| SettingsRuntimes.SettingsRuntime.ResetToDefault | crates/liquide-apps-settings/src/runtime.rs:245-253 | likewise for a reset |
| SettingsRuntimes.SettingsRuntime.Undo | crates/liquide-apps-settings/src/runtime.rs:258-266 | likewise for undo |
| SettingsRuntimes.SettingsRuntime.Redo | crates/liquide-apps-settings/src/runtime.rs:269-277 | likewise for redo |
| SettingsRuntimes.SettingsRuntime.RevertChanges | crates/liquide-apps-settings/src/runtime.rs:468-478 | the loop ends and undoes everything, silently |
| Calendar.DaysToYmd | crates/liquide-apps-files/src/trash.rs:360-394 | the two loops end and compute the recursive conversion |
| Calendar.MonthLengthsAlternate | crates/liquide-apps-files/src/trash.rs:371-384 | long and short months alternate and begin anew with August, February being short by one day in leap years and two in others |
| Calendar.DaysBeforeYearClosedForm | crates/liquide-apps-files/src/trash.rs:361-369 | the summed year lengths from 1970 equal 365(y-1970) + (y-1)/4 - (y-1)/100 + (y-1)/400 - 477 |
| Calendar.DateOfCountsBack | crates/liquide-apps-files/src/trash.rs:360-394 | the result is a Gregorian date whose day number is the input |
| Calendar.DayNumberConvertsBack | crates/liquide-apps-files/src/trash.rs:360-394 | every Gregorian date from 1970 on is the conversion of its day number |
| Calendar.EarlierCountsLess | crates/liquide-apps-files/src/trash.rs:360-394 | dates are in calendar order exactly when their day numbers are in order |
| Calendar.LaterDaysGiveLaterDates | crates/liquide-apps-files/src/trash.rs:360-394 | the conversion is strictly increasing |
| Calendar.MomentRecombines | crates/liquide-apps-files/src/trash.rs:343-354 | hours, minutes and seconds are in range and recombine with the day number to the input seconds |
| Calendar.FormatDeletionDate | crates/liquide-apps-files/src/trash.rs:343-356 | the text is the zero-padded form of the moment of the input |
| Calendar.FormatReadsBack | crates/liquide-apps-files/src/trash.rs:355 | before the year 10000 the text has 19 characters with the separators of RFC 3339 in their places, and each field reads back as a number |
| Calendar.TextOrderIsTimeOrder | crates/liquide-apps-files/src/trash.rs:343-356 | before the year 10000 comparing the texts compares the times |
| Calendar.TextOrderBreaks | crates/liquide-apps-files/src/trash.rs:355 | the first text of the year 10000 sorts before the last one of the year 9999 |
| Calendar.TextsSortByTimeIff | crates/liquide-apps-files/src/trash.rs:343-356 | all texts of times below a bound sort as their times do if and only if the bound is at most the start of the year 10000 |
| Decimals.PrintThenRead | crates/liquide-apps-files/src/recent.rs:201-202 | reading a printed number gives the number |
| Decimals.PaddedIsFixedWidth | crates/liquide-apps-files/src/trash.rs:355 | a zero-padded number that fits is its last digits at exactly the asked width |
| Decimals.FixedWidthOrder | crates/liquide-apps-files/src/trash.rs:355 | texts of one width are in the order of their numbers |
| Recent.RoundTripIff | crates/liquide-apps-files/src/recent.rs:197-243 | `deserialize(serialize(s))` restores the entries if and only if they fit the limit, no field holds a tab or newline, and no `app_id` ends in a carriage return |
| Recent.SerializedParses | crates/liquide-apps-files/src/recent.rs:197-229 | before the limit is enforced, every entry without separators comes back, its `app_id` without a final carriage return |
| Recent.DeserializedIsSeparable | crates/liquide-apps-files/src/recent.rs:210-229 | whatever text is read, no field of an entry read from it holds a separator |
| RecentFormat.LineIs | crates/liquide-apps-files/src/recent.rs:199-203 | a line is uri, name, MIME type, time, count and application in this order, with tabs between them |
| RecentFormat.SerializeConcat | crates/liquide-apps-files/src/recent.rs:197-206 | the text of a store is its lines in order, each ended by a newline |
| RecentFormat.LinesAre | crates/liquide-apps-files/src/recent.rs:212 | only the last line may lack its newline, and only an ended line loses one carriage return |
| RecentFormat.ParsedLine | crates/liquide-apps-files/src/recent.rs:213-227 | a line of fewer than six fields is skipped; of any other the first six fields make the entry, an unreadable time counting as 0 and an unreadable count as 1 |
| RecentFormat.ParseUnsignedIff | crates/liquide-apps-files/src/recent.rs:217-218 | a field reads as a number exactly if it is digits, with or without a plus sign, whose value fits the type |
| RecentFormat.ParseLinesConcat | crates/liquide-apps-files/src/recent.rs:212-228 | lines are read one by one, in order |
| RecentFormat.LimitedIsSorted | crates/liquide-apps-files/src/recent.rs:236-243 | what is left of too many entries is in the order of access; entries that fit are left as they are |
| Recent.EvictsTheOldest | crates/liquide-apps-files/src/recent.rs:236-243 | eviction splits the entries into kept and dropped, and none dropped is newer than one kept |
| Recent.AddedKeepsStore | crates/liquide-apps-files/src/recent.rs:97-118 | adding keeps one entry a uri and the store within its limit |
| RecentHistory.StoreRemembersAccesses | crates/liquide-apps-files/src/recent.rs:55-60 | over any history of at most `max` different files the store holds each accessed file exactly once, with name and MIME type of its first access, its number of accesses modulo 2^32, and the time and application of the last |
| RecentHistory.StoreHoldsAllIff | crates/liquide-apps-files/src/recent.rs:97-118 | the store holds every accessed file, and remembers all its accesses, if and only if at most `max` different files were accessed |
| Recent.AccessIsKeptIff | crates/liquide-apps-files/src/recent.rs:97-118 | an access to a store within its limit is held after it if and only if there is room or some other file was not accessed later |
| RecentHistory.StoreHoldsNewest | crates/liquide-apps-files/src/recent.rs:97-118 | with rising times the store holds exactly the first `max` files of the move-to-front list of the history, each with the time of its last access |
| RecentHistory.FileIsHeldIff | crates/liquide-apps-files/src/recent.rs:97-118 | so a file is held if and only if fewer than `max` other files were accessed since its last access |
| Recent.RecentStore.Add | crates/liquide-apps-files/src/recent.rs:97-118 | touches the first entry of the uri or appends one, then enforces the limit |
| Recent.RecentStore.EnforceLimit | crates/liquide-apps-files/src/recent.rs:236-243 | within the limit nothing changes; beyond it the newest remain, oldest first |
| Recent.RecentStore.ToText | crates/liquide-apps-files/src/recent.rs:197-206 | the loop writes one line an entry |
| Recent.RecentStore.FromText | crates/liquide-apps-files/src/recent.rs:210-229 | the loop parses every line with six fields, with the defaults of unreadable numbers, then enforces the limit |
| Glob.OuterStarsMatch | crates/liquide-apps-files/src/search_folder.rs:102-126 | for stars at the two ends only, the matcher agrees with the wildcard meaning on every name |
| Glob.InnerStarMisses | crates/liquide-apps-files/src/search_folder.rs:102-126 | with a star inside, the matcher misses the name that leaves every star empty |
| Glob.GlobMatchIff | crates/liquide-apps-files/src/search_folder.rs:102-126 | the matcher agrees with the meaning on every name if and only if stars stand at the ends only |
| Glob.MatchesIff | crates/liquide-apps-files/src/search_folder.rs:102-126 | the same with the lower-casing of pattern and name included |
| Ring.RingBuffer.Push | crates/liquide-apps-task-manager/src/aggregator.rs:41-52 | the contents become the last `capacity` of the old contents and the item |
| Ring.RingBuffer.Clear | crates/liquide-apps-task-manager/src/aggregator.rs:79-83 | the contents become empty |
| Ring.RingBuffer.Get | crates/liquide-apps-task-manager/src/aggregator.rs:87-98 | the item at the logical index, oldest first, or none beyond the length |
| Ring.RingBuffer.Last | crates/liquide-apps-task-manager/src/aggregator.rs:102-108 | the item pushed last since the last clear |
| Ring.RingBufferIter.Next | crates/liquide-apps-task-manager/src/aggregator.rs:125-132 | the next item in order, or none at the end |
| Ring.Collect | crates/liquide-apps-task-manager/src/aggregator.rs:111-132 | the iterator yields exactly the contents, oldest to newest |
| Ring.PushOverOldest | crates/liquide-apps-task-manager/src/aggregator.rs:47-50 | overwriting the slot at the wrapped head drops the oldest item and appends the new one |
| Ring.ItemsAfterRun | crates/liquide-apps-task-manager/src/aggregator.rs:41-83 | a new buffer put through any run of pushes and clears holds the last min(capacity, count) items pushed since the last clear |
| Ring.TimeSeries.Average | crates/liquide-apps-task-manager/src/aggregator.rs:202-208 | the mean of that suffix, or none when it is empty |
| Ring.TimeSeries.MinValue | crates/liquide-apps-task-manager/src/aggregator.rs:212-214 | the minimum of that suffix, or none |
| Ring.TimeSeries.MaxValue | crates/liquide-apps-task-manager/src/aggregator.rs:218-220 | the maximum of that suffix, or none |
| Ring.ExtremesBound | crates/liquide-apps-task-manager/src/aggregator.rs:212-220 | minimum and maximum are values of the series and bound all its values |
| Ring.SumConcat | crates/liquide-apps-task-manager/src/aggregator.rs:206 | the sum behind the mean counts every sample once: it is that of the parts, and of one sample its value |
| Ring.AverageBetweenExtremes | crates/liquide-apps-task-manager/src/aggregator.rs:202-220 | the mean lies between the minimum and the maximum |

## Left out

General:

- Floating point: `f32` and `f64` are reals, so rounding, infinities and NaN do not occur.
- Machine integers: node ids, indices and lengths are unbounded; wrap-around and saturation are modelled where the
  code meets them (`collect_number`, casts to `u32`, the access counter, the parsers of `u64` and `u32`).
- Unicode case mapping is a parameter: for natural order, per character, keeping digits and creating none; for globs,
  per character, what it makes being lower case already.
- The sorting algorithm of the standard library: a stable insertion sort in its place, any stable sort giving the
  same result.

Accessibility trees and focus:

- `get_mut`, the `update_*` and `find_by_*` calls and plain getters of both trees: no invariant beyond those above;
  `get_mut` lets a caller break any of them.
- Description, value, bounds and action fields of the in-process tree: nothing modelled here reads them.
- The callback of a walk is represented by the sequence of nodes that it is given.
- The worklist, unlink and delete loops that the two `remove_node` methods have in common are modelled once.
- BridgeTree.AccessibleTree.RemoveNode: asks for a well-formed map, because on a cyclic one the loop of the
  source need not end.

Animation:

- Easing.SolverTolerance: up to a steepness of 34.95; beyond it `Easing.SolverResidual` gives the weaker bound, and
  whether a steeper curve misses the tolerance is not decided.
- EasingKeywords.EasedBetween: for control points in [0,1], as all keywords have.
- Easing.EvaluateMonotoneUpToTolerance: for control points in [0,1], because other curves can run backwards.
- Easing.StepsQuantise: for a positive step count, because a count of zero divides by zero, which reals do not model.
- Easing.EvaluateFixesEnds: likewise for a positive step count.
- Easing.EvaluateWithinUnit: likewise; and a custom curve that leaves [0,1] is excluded, with the exact
  condition on its heights.
- Scheduler.ProgressWithinUnit: excludes the same custom curves.
- A zero-duration animation never ends; `Scheduler.EndIsReached` states that as part of its condition.
- Registering keyframes, `prune_finished`, per-node queries and the active count: one-line filters.
- Keyframes.ResolveBetweenNearest: for keyframes that repeat one selector, because otherwise the code does not choose
  the nearest; `Keyframes.UsesNearestIff` shows that the condition is exact.
- Keyframes.ResolveAtKeyframe: likewise.
- Keyframes.ResolveBeforeFirst: likewise.
- Keyframes.ResolveAfterLast: likewise.
- Keyframes.BeforeIsNearest: likewise.
- Keyframes.AfterIsNearest: likewise.

Files and text:

- Calendar.TextOrderIsTimeOrder: for times before the year 10000 only; `Calendar.TextsSortByTimeIff` shows that
  the bound is exact.
- Calendar.FormatReadsBack: likewise for the fixed layout; from the year 10000 on the year has five digits.
- Trash directories, metadata files and all moves on disk; the other criteria of search filters; favourites, whose
  format does not carry names with spaces; directory loading and navigation history.
- Recent.RecentStore.Add: models the access counter as wrapping at 2^32, as an unchecked build does; a checked
  build panics there.
- RecentHistory.StoreHoldsNewest: for strictly rising times; on equal times the position in the store decides.
- Listing, frequency ranking and purging of recent files: sorts and filters of the same entries.
- Setters and per-kind shorthands of the simple accessible text, and AT-SPI events.

Settings and metrics:

- Loading from and saving to disk, which write values without touching the stacks; JSON conversion; search,
  categories, visibility and display helpers.
- Reason texts of validation errors, and the time stamps of notifications.
- Native collectors, and the map of series by metric name.
- Widgets, application views, the event loop, contrast computation and everything that calls the operating system.
