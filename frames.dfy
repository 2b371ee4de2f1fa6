/**
 * Sprite-sheet geometry: how a texture is sliced into a grid of frame cells,
 * which cell a cursor selects, and how an out-of-range cursor index is wrapped.
 */
module Frames {

  /** An integer rectangle (left, top, width, height), as handed to the texture-rect setter. */
  datatype Rect = Rect(left: int, top: int, width: int, height: int)

  /** The source rectangle of the cell in column `h`, row `v` of a grid of `cellW` x `cellH` cells. */
  function FrameRect(h: int, v: int, cellW: nat, cellH: nat): Rect
  {
    Rect(h * cellW, v * cellH, cellW, cellH)
  }

  /**
   * The cursor-correction rule of change_hframe / change_vframe, as a value:
   * an index below zero snaps to the last frame, one beyond the last frame
   * snaps to frame 0, anything else is kept.  It is a snap, not a modulo.
   */
  function Wrap(f: int, count: nat): (r: int)
    requires count >= 1
    ensures 0 <= r < count
    ensures 0 <= f < count ==> r == f
  {
    if f < 0 then count - 1
    else if f > count - 1 then 0
    else f
  }

  /** Any index past the end lands on 0, any negative index on the last frame, however far out. */
  lemma WrapSnaps(count: nat, k: int)
    requires count >= 1 && k >= 0
    ensures Wrap(count + k, count) == 0
    ensures k >= 1 ==> Wrap(-k, count) == count - 1
  {
  }

  /** A single step forwards or backwards from a valid cursor agrees with modular arithmetic. */
  lemma {:induction false} WrapOneStepIsModulo(h: int, count: nat)
    requires count >= 1 && 0 <= h < count
    ensures Wrap(h + 1, count) == (h + 1) % count
    ensures Wrap(h - 1, count) == (h - 1) % count
  {
    if h + 1 < count {
      ModOfSmall(h + 1, count);
    } else {
      assert h + 1 == count;
      ModOfSmall(0, count);
      ModShift(0, count);
    }
    if h == 0 {
      ModOfSmall(count - 1, count);
      ModShift(-1, count);
    } else {
      ModOfSmall(h - 1, count);
    }
  }

  /**
   * Exactly when the snap rule coincides with Euclidean `%`: on the valid range,
   * one step outside it, and further out only when modulo happens to land on
   * the same boundary frame.
   */
  lemma {:induction false} WrapVersusModulo(f: int, count: nat)
    requires count >= 1
    ensures Wrap(f, count) == f % count <==>
              (-1 <= f <= count
               || (f < -1 && (f + 1) % count == 0)
               || (f > count && f % count == 0))
  {
    var q, r := f / count, f % count;
    assert f == q * count + r && 0 <= r < count;
    if 0 <= f < count {
      ModOfSmall(f, count);
    } else if f == count {
      ModOfSmall(0, count);
      ModShift(0, count);
    } else if f == -1 {
      ModOfSmall(count - 1, count);
      ModShift(-1, count);
    } else if f < -1 {
      // Wrap gives count - 1, and f % count == count - 1 exactly when count divides f + 1
      ModShift(f, count);
      if r == count - 1 {
        assert f + 1 == (q + 1) * count;
        ModOfMultiple(q + 1, count);
      } else {
        assert f + 1 == q * count + (r + 1) && 0 < r + 1 < count;
        ModOfSum(q, r + 1, count);
      }
    }
  }

  /** A concrete witness that the snap is not a modulo: on four frames, index 5 gives 0, not 1. */
  lemma SnapIsNotModulo()
    ensures Wrap(5, 4) == 0 && 5 % 4 == 1
  {
  }

  /** The cell of a valid cursor lies inside the texture, whatever pixels the integer division drops. */
  lemma {:induction false} FrameInsideTexture(h: int, v: int, hframes: nat, vframes: nat, texW: nat, texH: nat)
    requires hframes >= 1 && vframes >= 1
    requires 0 <= h < hframes && 0 <= v < vframes
    ensures var r := FrameRect(h, v, texW / hframes, texH / vframes);
            0 <= r.left && r.left + r.width <= texW &&
            0 <= r.top && r.top + r.height <= texH
  {
    CellRowFits(h, hframes, texW);
    CellRowFits(v, vframes, texH);
  }

  /** Cells of two different cursors never overlap when the cells are non-empty. */
  lemma {:induction false} FramesDisjoint(h1: int, v1: int, h2: int, v2: int, cellW: nat, cellH: nat)
    requires cellW > 0 && cellH > 0
    requires (h1, v1) != (h2, v2)
    ensures var a, b := FrameRect(h1, v1, cellW, cellH), FrameRect(h2, v2, cellW, cellH);
            a.left + a.width <= b.left || b.left + b.width <= a.left ||
            a.top + a.height <= b.top || b.top + b.height <= a.top
  {
    if h1 < h2 {
      MulMonotone(h1 + 1, h2, cellW);
    } else if h2 < h1 {
      MulMonotone(h2 + 1, h1, cellW);
    } else if v1 < v2 {
      MulMonotone(v1 + 1, v2, cellH);
    } else {
      MulMonotone(v2 + 1, v1, cellH);
    }
  }

  // ---- arithmetic helpers ----

  lemma MulMonotone(a: int, b: int, c: nat)
    requires a <= b
    ensures a * c <= b * c
  {
    assert b * c - a * c == (b - a) * c;
  }

  /** `count` cells of width `size / count`, the first `h + 1` of them in particular, fit in `size`. */
  lemma CellRowFits(h: int, count: nat, size: nat)
    requires count >= 1 && 0 <= h < count
    ensures h * (size / count) + size / count <= size
  {
    var c := size / count;
    assert size == (size / count) * count + size % count;
    MulMonotone(h + 1, count, c);
    assert h * c + c == (h + 1) * c;
    assert count * c == c * count;
  }

  /** Euclidean remainder is determined by any decomposition `a == q * count + r` with `0 <= r < count`. */
  lemma ModUnique(a: int, q: int, r: int, count: nat)
    requires count >= 1 && 0 <= r < count && a == q * count + r
    ensures a % count == r
  {
    var q', r' := a / count, a % count;
    assert a == q' * count + r' && 0 <= r' < count;
    assert (q - q') * count == r' - r;
    if q > q' {
      MulMonotone(1, q - q', count);
    } else if q < q' {
      MulMonotone(1, q' - q, count);
    }
  }

  lemma ModOfSmall(a: int, count: nat)
    requires 0 <= a < count
    ensures a % count == a
  {
    ModUnique(a, 0, a, count);
  }

  lemma ModShift(a: int, count: nat)
    requires count >= 1
    ensures (a + count) % count == a % count
  {
    var q, r := a / count, a % count;
    assert a + count == (q + 1) * count + r;
    ModUnique(a + count, q + 1, r, count);
  }

  lemma ModOfMultiple(q: int, count: nat)
    requires count >= 1
    ensures (q * count) % count == 0
  {
    ModUnique(q * count, q, 0, count);
  }

  lemma ModOfSum(q: int, r: int, count: nat)
    requires count >= 1 && 0 <= r < count
    ensures (q * count + r) % count == r
  {
    ModUnique(q * count + r, q, r, count);
  }

  /** Reducing the left summand first does not change the remainder. */
  lemma ModAddMod(a: int, b: int, count: nat)
    requires count >= 1
    ensures (a % count + b) % count == (a + b) % count
  {
    var q, r := a / count, a % count;
    var q', r' := (r + b) / count, (r + b) % count;
    assert r + b == q' * count + r';
    assert a + b == (q + q') * count + r';
    ModUnique(a + b, q + q', r', count);
  }
}
