# Colour-fill animator of the sphere demo

The demo renders a sphere mesh of 240 triangles (720 vertices) and, frame by
frame, recolours vertices picked at random until the mesh shows the colour
chosen on the pad. This project models that logic in Dafny and proves its
properties:

- the fill step of `sceneRender`: four copies of a block that draws a fresh
  index by rejection sampling over `rand() % 240`, writes the current colour
  into that vertex and records the index in `changed_indeces`; only the fourth
  copy has an `else` that clears `is_changing_color`;
- the colour-selection step of the main loop: Up/StickUp selects 2, else
  Down/StickDown selects 1, else 0. A selection that differs from the previous
  frame's empties the recorded set and raises `is_changing_color`.
- the mapping of the selection to the fill colour: 0 red, 1 green, 2 blue;
- `prev_color := selected_color` at the end of the frame.

Files:

- `sampling.dfy` (module `Sampling`): the rejection-sampling draw as a loop
  (`RejectionSample`) and as the function it is proved against (`Sample`,
  `Redraw`), plus cardinality facts about sets of indices below a bound.
- `color_fill.dfy` (module `ColorFill`): the vertex and colour types and the
  class `Scene`. `Scene` holds the globals `sphere` (an array),
  `changed_indeces` (`changed`), `is_changing_color`, `selected_color`,
  `prev_color` and `color`. Its methods are `FillBlock`, `Render`,
  `SelectColor`, `ApplyColor` and `Frame`. The module also holds the lemmas
  about a complete pass and about the guard.

`rand()` is an oracle: the field `Scene.rng` is the sequence of values it
returns from now on, and every draw consumes a prefix of it. The first value
of each block (source/main.cpp:266) is drawn and thrown away, as in the
source. If the supply runs out inside a rejection loop, the block reports
`Stalled`. The model cannot say how the loop would continue past the values
it was given.

The modulus applied to `rand()` is the constant `Scene.range`.
`SourceRange` (240) is what the source uses. `IntendedRange` (720, the
vertex count the guard compares with) is the corrected value; see Findings.
The guard itself always compares with `sphere.Length`, which is 720
(`sizeof(sphere) / sizeof(Vertex)`; both draw calls draw `240 * 3` vertices).

The four fill blocks of a frame are specified by two functions on values.
`Step` is one block on the recorded set and the rest of the `rand()` supply.
`Blocks(k, ...)` is k blocks in a row, stopping at the first that stalls.
`FillBlock` and `Render` are proved equal to `Step` and `Blocks(4, ...)` of
the state they start from. Lemmas about those functions give the sizes and
the flag. The vertex buffer is described by the invariant `Painted`: it is
the buffer the current pass began with (the ghost field `passStart`), with
every recorded vertex given the fill colour.

The comment at source/main.cpp:211 says selection 1 is blue and 2 is green.
The code at source/main.cpp:413-425 maps 1 to green (0,1,0) and 2 to blue
(0,0,1). The model follows the code.

## Model

| member | source | states |
|---|---|---|
| Sampling.Redraw | source/main.cpp:267-271 | the rejection loop yields the first draw whose residue is not yet recorded, having rejected every draw before it; if it yields nothing, every remaining draw was a recorded residue |
| Sampling.Sample | source/main.cpp:266-271 | one draw throws away the first value of `rand()` and then rejects. A hit is an index in [0, range) that is absent from the recorded set, and it is the residue of the last value consumed. Every value between the discarded one and the hit was a recorded residue. |
| Sampling.RejectionSample | source/main.cpp:266-271 | the `while (true)` loop, consuming `rand()` values one by one, returns exactly the outcome `Sample` specifies |
| Sampling.FreeResidueCanBeDrawn | source/main.cpp:267-271 | while fewer residues are recorded than the range holds, some residue is free, and a supply of `rand()` values that yields it lets the loop exit |
| ColorFill.Selection | source/main.cpp:379-402 | the selected colour is 2 iff Up or StickUp is held, 1 iff neither is held but Down or StickDown is, 0 iff none of them is held |
| ColorFill.Target | source/main.cpp:413-422 | selection k gives the pure primary lighting channel k only: 0 red (1,0,0), 1 green (0,1,0), 2 blue (0,0,1) |
| ColorFill.TargetInjective | source/main.cpp:413-425 | two selections give the same fill colour iff they are equal; `Frame` uses it to show that the fill colour changes exactly when the selection changes |
| ColorFill.StepFacts | source/main.cpp:265-276 | one block is skipped iff its guard fails (at least as many indices recorded as the mesh has vertices), and then changes nothing. It stalls iff the guard holds and the draw starves, and then leaves no draws. Otherwise it records exactly the index `Sample` draws, which lies in [0, range) and was not yet recorded, so the set grows by one. The supply left is what follows the values that draw consumed. |
| ColorFill.Blocks | source/main.cpp:265-315 | k blocks in a row never shrink the set and grow it by at most k. Every new index lies in [0, range). A run that stalls leaves no draws. |
| ColorFill.BlocksSize | source/main.cpp:265-315 | without a stall, k blocks leave exactly min(old + k, vertex count) indices recorded, and the last block is skipped exactly when the set held at least vertex count − k + 1 indices on entry |
| ColorFill.FourBlocks | source/main.cpp:265-315 | for the four blocks of a frame, the set only grows, by at most 4. A stall leaves no draws. Otherwise the set reaches min(old + 4, vertex count). The fourth guard fails, so its `else` runs, exactly when no block stalled and the set held at least vertex count − 3 indices on entry. |
| ColorFill.Scene.constructor | source/main.cpp:203-212 | at start nothing is recorded, the flag is down, selected and previous colour are 0, the fill colour is red, and the mesh is as loaded |
| ColorFill.Scene.FillBlock | source/main.cpp:265-276 | the new recorded set, the supply left and the outcome are `Step` of the old set and supply: the guard, the first value thrown away, the rejection loop and the insert. Only the drawn vertex's colour is written, and the three identical writes equal one write. All positions and all other vertices are unchanged. `Painted` is kept. |
| ColorFill.Scene.Render | source/main.cpp:265-315 | the new set and supply are those of `Blocks(4, ...)` on the old ones, and `stalled` says whether that run stalled. `isChangingColor` is cleared iff the fourth block was skipped, and is otherwise left as it was (not cleared when only an earlier guard fails). Only newly recorded vertices are recoloured, with positions kept. With `FourBlocks`, this gives the growth to min(old + 4, vertex count) and the flag condition in terms of the old set size. |
| ColorFill.Scene.SelectColor | source/main.cpp:378-402 | the selection becomes `Selection(held)`. If it differs from `prevColor`, the set is emptied, the flag raised and a new pass starts from the current buffer. Otherwise the set is untouched and the flag lowered. |
| ColorFill.Scene.ApplyColor | source/main.cpp:413-425 | the fill colour becomes `Target(selectedColor)` for a selection in {0,1,2}; the default case leaves it unchanged |
| ColorFill.Scene.Frame | source/main.cpp:378-430 | after a frame, the set and supply are those of `Blocks(4, ...)`, started from the old set if the selection is unchanged and from the empty set if it changed. Every recorded vertex carries the colour of the current selection. Positions are kept, and every vertex not recorded is as before. The fill colour changes iff the selection changes. The flag ends up equal to "the selection changed", so the fourth block's `else` never changes the outcome. Without a stall the set has exactly min(old + 4, vertex count) indices, or exactly 4 after a change. A completed frame ends with `prevColor == selectedColor`. |
| ColorFill.CompletePassPaintsMesh | source/main.cpp:265-275 | with the intended range, a pass whose set holds as many indices as the mesh has vertices has painted every vertex with the fill colour |
| ColorFill.SourceGuardAdmitsEndlessRejection | source/main.cpp:265-271 | as written, 240 recorded indices still pass the guard (240 < 720), and no supply of `rand()` values then lets the rejection loop exit |
| ColorFill.SourceFillNeverCompletes | source/main.cpp:301-315 | as written, a set of indices below 240 has at most 240 elements. Four blocks of any `rand()` supply keep every index below 240, so the set never exceeds 240. The fourth block is never skipped, so its `else` never clears `is_changing_color`. This has no effect: lines 385, 393 and 401 lower the flag in every frame whose selection is unchanged, and nothing reads it (see `Frame`). |
| ColorFill.IntendedGuardAdmitsFreshDraw | source/main.cpp:265-271 | with the range equal to the vertex count, whenever the guard holds some index is free and a draw can end on it |

## Findings

| source | as written | input that shows it | evidently intended | confidence | as-written member | corrected member |
|---|---|---|---|---|---|---|
| source/main.cpp:265-271 | the guard admits a block while fewer than 720 indices are recorded, but indices are drawn as `rand() % 240` | hold no button from program start: four indices are recorded per frame, so after 60 frames all 240 residues are recorded. In frame 61 the first guard passes (240 < 720) and its `while (true)` loop never exits. The program hangs. Vertices 240-719 are never recoloured. The fill also never clears `is_changing_color`, but that has no effect: the selection step lowers it in every frame whose selection is unchanged, and nothing reads it. | draw over the whole mesh (`rand() % 720`), so the guard implies a free index and the pass completes after 180 frames. This is the repair modelled. An equally plausible alternative: lines 272-274 write the same `sphere[i]` three times, which suggests recolouring whole triangles (`sphere[3*i + k]` for k in 0..2) with the guard compared to 240 triangles. This alternative is not modelled. | high (not executed) | ColorFill.SourceGuardAdmitsEndlessRejection | ColorFill.IntendedGuardAdmitsFreshDraw |

## Left out

- EGL bring-up and teardown, shader sources and compilation, VAO/VBO setup, the buffer upload and the two draw calls: calls into platform and OpenGL APIs with no computable behaviour here.
- The glm translate/rotate/reset driven by Left, Right and Minus, and `eglSwapBuffers`: floating-point transforms and presentation.
- The Plus button's `break`: it only leaves the main loop. It comes after the selection step and before the colour mapping.
- `rand()` itself: modelled as a supplied sequence of values. Its distribution, and the claim that each draw ends with probability 1, are not modelled.
- include/utils.h (`proc_map`): not called by the core.
- The vertex positions and the initial colours of the mesh (sphere.h is not part of this model): they are arbitrary values. Colours are exact reals, not 32-bit floats, which is enough because the fill only ever writes the constants 0 and 1.
- ColorFill.Scene.Render: a block whose `rand()` supply runs out reports `Stalled` and the rest of the frame is not run. The source keeps drawing there, and after the guard mismatch of Findings it draws forever.
- ColorFill.Scene.Frame: a stalled frame leaves `prevColor` unchanged because the source never gets past the loop. The model does not follow that frame any further.
