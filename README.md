# momo::Sprite frame cursor, modelled in Dafny

`momo::Sprite` wraps an SFML sprite and adds sprite-sheet animation: the
texture is cut into a grid of `hframes` x `vframes` cells, a cursor
(`hframe`, `vframe`) selects the cell that is drawn, and `animate(delta)`
steps the column cursor forward once the accumulated time reaches
`time_per_frame`. This project models that cursor logic and proves its
properties.

- `frames.dfy`, module `Frames`: the texture rectangle of a cell (`FrameRect`),
  the snap-to-boundary index correction (`Wrap`), and lemmas about both. The
  lemmas show that a cell lies inside the texture, that distinct cells do not
  overlap, and exactly when the snap rule agrees with modulo.
- `timing.dfy`, module `Timing`: one `animate` call on values (`Tick` over a
  `Clock` holding the column cursor and the accumulator), and a sequence of
  calls (`Run`). The lemmas show at most one step per call, conservation of
  time, steady advance at the frame rate, and that a stall does not skip frames.
- `sprite.dfy`, module `Momo`: the class `Sprite`, with the source's fields and
  its two constructors, `change_vframe`, `change_hframe`, `width`, `height`,
  `center_origin` and `animate` as methods that update the object in place.
  `Valid()` is the object invariant: frame counts of at least 1, the cell size
  is the texture size divided by the counts, the cursor is in range, and the
  drawn rectangle is the cell the cursor names. Every method keeps it.

Time is modelled as `real` seconds. Pixel sizes and indices are mathematical
integers.

## Model

| member | source | states |
|---|---|---|
| `Momo.Sprite.constructor` | sprite.hpp:68-73 | One-argument constructor: a single 1x1 frame, so the cell is the whole texture. Cursor is (0,0), `accumulated` is 0, `time_per_frame` is 0.25, the invariant holds. |
| `Momo.Sprite.Sheet` | sprite.hpp:75-87 | Grid constructor: the cell size is the texture size divided by the frame counts with integer division, i.e. the largest size that fits that many times. Cursor is (0,0), `accumulated` is 0, `time_per_frame` is 0.25, and the rectangle is `(0, 0, cellW, cellH)`. |
| `Momo.Sprite.ChangeVFrame` | sprite.hpp:89-101 | A negative index becomes `vframes-1`, an index above `vframes-1` becomes 0, any other index is kept. The row ends in range, the rectangle is recomputed from both cursors, and nothing else changes. |
| `Momo.Sprite.ChangeHFrame` | sprite.hpp:103-115 | The same rule for the column cursor against `hframes`. The column ends in range, the rectangle is recomputed, and the row and cell size are unchanged. |
| `Momo.Sprite.Width` | sprite.hpp:151 | The cell width `w` satisfies `w*hframes <= texW < (w+1)*hframes`. It is the width of one cell, not of the sheet. |
| `Momo.Sprite.Height` | sprite.hpp:153 | The cell height `h` satisfies `h*vframes <= texH < (h+1)*vframes`. |
| `Momo.Sprite.CenterOrigin` | sprite.hpp:155 | The origin becomes half the cell size, which does not depend on the cursor. The cursor, rectangle and timer are unchanged. |
| `Momo.Sprite.Animate` | sprite.hpp:157-164 | If `accumulated + delta >= time_per_frame`, the accumulator drops by one frame duration and the column advances one step, wrapping `hframes-1` to 0. Otherwise only the accumulator grows. The row never changes, and the new state equals `Timing.Tick` of the old state. |
| `Momo.DrawnRegionInsideTexture` | sprite.hpp:99-100 | For a valid sprite, the rectangle handed to the library lies inside the texture. |
| `Momo.CellSizeBounds` | sprite.hpp:82-83 | Integer division of a texture side by a frame count gives the largest cell size that fits that many times. |
| `Frames.Wrap` | sprite.hpp:106-111 | The corrected index is always in `[0, count-1]`, and an index already in range is kept. |
| `Frames.WrapSnaps` | sprite.hpp:106-111 | The rule is a snap: `count+k` gives 0 for every `k >= 0`, and `-k` gives `count-1` for every `k >= 1`. |
| `Frames.SnapIsNotModulo` | sprite.hpp:109-111 | On 4 frames, index 5 snaps to 0, while `5 % 4` is 1. |
| `Frames.WrapVersusModulo` | sprite.hpp:106-111 | The snap equals Euclidean `f % count` exactly when `-1 <= f <= count`, or `f < -1` and `count` divides `f+1`, or `f > count` and `count` divides `f`. |
| `Frames.WrapOneStepIsModulo` | sprite.hpp:162 | From a valid cursor, one step forward (as `animate` does) or back equals modular increment or decrement. |
| `Frames.FrameInsideTexture` | sprite.hpp:113-114 | For any in-range cursor, the cell `(h*cellW, v*cellH, cellW, cellH)` with `cellW = texW/hframes` and `cellH = texH/vframes` lies inside the texture. |
| `Frames.FramesDisjoint` | sprite.hpp:99-100 | When the cells are non-empty, different cursors select non-overlapping rectangles. |
| `Timing.Tick` | sprite.hpp:157-164 | One `animate` call on values. The column stays in range. When the threshold is reached it advances to `(hframe+1) % hframes` and the accumulator pays one frame duration; otherwise the cursor stays and the accumulator grows by `delta`. |
| `Timing.Run` | sprite.hpp:157-164 | A sequence of `animate` calls. The number of advances is at most the number of calls, and the final column is the start column plus that number, modulo `hframes`. |
| `Timing.RunConservesTime` | sprite.hpp:158-160 | After a sequence of calls, the accumulator equals its start value, plus all deltas, minus one frame duration per advance. |
| `Timing.PaidIsProduct` | sprite.hpp:160 | Paying out `k` frame durations one at a time totals `k * time_per_frame`. |
| `Timing.RunAtFrameRate` | sprite.hpp:157-164 | Start from a non-negative accumulator and call with `delta == time_per_frame` each time. Then `k` calls advance exactly `k` steps, to `(hframe+k) % hframes`, and leave the accumulator unchanged. |
| `Timing.StallAdvancesOnce` | sprite.hpp:157-164 | One call with `delta >= 2*time_per_frame` advances exactly one step. It leaves at least one frame duration in the accumulator for later calls. |

The grid constructor is `Sheet(texW, texH, hframes, vframes)`. The source's
default `vframes = 1` (sprite.hpp:21) is a default argument, so callers pass 1
explicitly here. Both constructors start with the rectangle set to the whole
texture and the origin at (0,0). Those are the values SFML's `setTexture` and
the default `sf::Sprite` give to a fresh sprite. The grid constructor then sets
the rectangle through `ChangeVFrame(0)` and `ChangeHFrame(0)`, as the source does.

## Left out

- The SFML pass-through wrappers (sprite.hpp:117-149): position, rotation, scale, move, color, bounds, texture getters and the explicit `setOrigin`. They only delegate to `sf::Sprite`, which is not part of this model.
- `draw` (sprite.hpp:166-169): a rendering call into `sf::RenderTarget`.
- The texture itself: loading, ownership and the `sf::Texture&` borrow. Only its pixel size is modelled, as constructor arguments that never change.
- IEEE `float` behaviour of `accumulated`, `time_per_frame`, `delta` and the `/ 2.f` in `center_origin`. The model uses exact `real` arithmetic, so rounding is not modelled.
- Zero frame counts: both are required to be at least 1. In the source, 0 would divide by zero at sprite.hpp:82-83 and underflow `size_t` at sprite.hpp:93/107.
- Machine integer widths: the `int`/`size_t`/`unsigned` mix in the comparisons and in the rectangle arithmetic. Under the invariant, every product `hframe*cellW` is at most the texture width, so mathematical integers agree with the source as long as frame counts and texture sizes fit in `int`. Overflow of `f` itself (e.g. `hframe + 1` at `INT_MAX`) is not modelled.
- The rectangle and origin of the wrapped sprite are modelled as plain fields. SFML recomputes vertices from them, and that is not modelled.
