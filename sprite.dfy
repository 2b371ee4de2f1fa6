/**
 * momo::Sprite: a sprite drawn from one cell of a sprite sheet. The texture is
 * represented by its pixel size only; the wrapped graphics-library sprite by
 * the two pieces of its state this type sets, the texture rectangle and the origin.
 */
module Momo {
  import opened Frames
  import opened Timing

  class Sprite {
    /** Pixel size of the (borrowed, never modified) texture. */
    const texW: nat
    const texH: nat

    /** Animation cursor: current column and row of the sheet. */
    var hframe: int
    var vframe: int
    /** Number of columns and rows the sheet is cut into. */
    var hframes: nat
    var vframes: nat
    /** Size of one frame cell in pixels (`size` of the source). */
    var cellW: nat
    var cellH: nat
    /** Seconds each frame is shown, and seconds accumulated since the last advance. */
    var timePerFrame: real
    var accumulated: real

    /** Texture rectangle of the wrapped sprite: the region of the texture that is drawn. */
    var rect: Rect
    /** Transform origin of the wrapped sprite. */
    var origin: (real, real)

    /** The sheet is cut into at least one cell per axis and the cursor names one of its cells. */
    ghost predicate InGrid()
      reads this
    {
      hframes >= 1 && vframes >= 1 &&
      cellW == texW / hframes && cellH == texH / vframes &&
      0 <= hframe < hframes && 0 <= vframe < vframes
    }

    /** Object invariant: besides InGrid(), the drawn rectangle is the cell the cursor names. */
    ghost predicate Valid()
      reads this
    {
      InGrid() && rect == FrameRect(hframe, vframe, cellW, cellH)
    }

    /** The cursor and accumulator as a Clock value, the state animate works on. */
    function Clock(): Timing.Clock
      reads this
    {
      Timing.Clock(hframe, accumulated)
    }

    /**
     * Sprite(tex): the whole texture is a single frame. The rectangle is the full
     * texture, which is what attaching a texture to a fresh library sprite sets.
     */
    constructor (texW: nat, texH: nat)
      ensures Valid()
      ensures this.texW == texW && this.texH == texH
      ensures hframes == 1 && vframes == 1 && cellW == texW && cellH == texH
      ensures hframe == 0 && vframe == 0
      ensures timePerFrame == 0.25 && accumulated == 0.0
      ensures rect == Rect(0, 0, texW, texH) && origin == (0.0, 0.0)
    {
      this.texW, this.texH := texW, texH;
      hframe, vframe := 0, 0;
      hframes, vframes := 1, 1;
      timePerFrame, accumulated := 0.25, 0.0;
      rect := Rect(0, 0, texW, texH);
      origin := (0.0, 0.0);
      cellW, cellH := texW, texH;
    }

    /**
     * Sprite(tex, hframes, vframes): the texture is cut into a grid; the cell size
     * is the texture size divided by the frame counts, truncated, and the cursor
     * starts on the top-left cell.
     */
    constructor Sheet(texW: nat, texH: nat, hframes: nat, vframes: nat)
      requires hframes >= 1 && vframes >= 1
      ensures Valid()
      ensures this.texW == texW && this.texH == texH
      ensures this.hframes == hframes && this.vframes == vframes
      ensures cellW == texW / hframes && cellH == texH / vframes
      ensures cellW * hframes <= texW < (cellW + 1) * hframes
      ensures cellH * vframes <= texH < (cellH + 1) * vframes
      ensures hframe == 0 && vframe == 0
      ensures timePerFrame == 0.25 && accumulated == 0.0
      ensures rect == Rect(0, 0, cellW, cellH) && origin == (0.0, 0.0)
    {
      this.texW, this.texH := texW, texH;
      hframe, vframe := 0, 0;
      this.hframes, this.vframes := hframes, vframes;
      timePerFrame, accumulated := 0.25, 0.0;
      rect := Rect(0, 0, texW, texH);
      origin := (0.0, 0.0);
      cellW, cellH := texW / hframes, texH / vframes;
      new;
      CellSizeBounds(texW, hframes);
      CellSizeBounds(texH, vframes);
      ChangeVFrame(0);
      ChangeHFrame(0);
    }

    /**
     * change_vframe: move the row cursor to `f`, snapping a negative index to the
     * last row and an index past the last row to row 0, then redraw from the new cell.
     */
    method ChangeVFrame(f: int)
      requires InGrid()
      modifies this
      ensures Valid()
      ensures f < 0 ==> vframe == vframes - 1
      ensures f > vframes - 1 ==> vframe == 0
      ensures 0 <= f <= vframes - 1 ==> vframe == f
      ensures vframe == Wrap(f, vframes)
      ensures rect == FrameRect(hframe, vframe, cellW, cellH)
      ensures hframe == old(hframe) && hframes == old(hframes) && vframes == old(vframes)
      ensures cellW == old(cellW) && cellH == old(cellH)
      ensures timePerFrame == old(timePerFrame) && accumulated == old(accumulated)
      ensures origin == old(origin)
    {
      vframe := f;
      if vframe < 0 {
        vframe := vframes - 1;
      }
      if vframe > vframes - 1 {
        vframe := 0;
      }
      rect := FrameRect(hframe, vframe, cellW, cellH);
    }

    /** change_hframe: the same snap rule for the column cursor against `hframes`. */
    method ChangeHFrame(f: int)
      requires InGrid()
      modifies this
      ensures Valid()
      ensures f < 0 ==> hframe == hframes - 1
      ensures f > hframes - 1 ==> hframe == 0
      ensures 0 <= f <= hframes - 1 ==> hframe == f
      ensures hframe == Wrap(f, hframes)
      ensures rect == FrameRect(hframe, vframe, cellW, cellH)
      ensures vframe == old(vframe) && hframes == old(hframes) && vframes == old(vframes)
      ensures cellW == old(cellW) && cellH == old(cellH)
      ensures timePerFrame == old(timePerFrame) && accumulated == old(accumulated)
      ensures origin == old(origin)
    {
      hframe := f;
      if hframe < 0 {
        hframe := hframes - 1;
      }
      if hframe > hframes - 1 {
        hframe := 0;
      }
      rect := FrameRect(hframe, vframe, cellW, cellH);
    }

    /** width(): the width of one frame cell, the largest width that fits `hframes` times into the texture. */
    function Width(): (w: nat)
      reads this
      requires Valid()
      ensures w * hframes <= texW < (w + 1) * hframes
    {
      CellSizeBounds(texW, hframes);
      cellW
    }

    /** height(): the height of one frame cell, the largest height that fits `vframes` times into the texture. */
    function Height(): (h: nat)
      reads this
      requires Valid()
      ensures h * vframes <= texH < (h + 1) * vframes
    {
      CellSizeBounds(texH, vframes);
      cellH
    }

    /** center_origin: pivot on the centre of one frame cell, not of the whole sheet. */
    method CenterOrigin()
      requires Valid()
      modifies this
      ensures Valid()
      ensures origin == (Width() as real / 2.0, Height() as real / 2.0)
      ensures hframe == old(hframe) && vframe == old(vframe)
      ensures hframes == old(hframes) && vframes == old(vframes)
      ensures cellW == old(cellW) && cellH == old(cellH) && rect == old(rect)
      ensures timePerFrame == old(timePerFrame) && accumulated == old(accumulated)
    {
      origin := (Width() as real / 2.0, Height() as real / 2.0);
    }

    /**
     * animate: add `delta` to the accumulator; once it reaches the frame duration,
     * pay that duration back once and step the column cursor forward (wrapping
     * to column 0). At most one step per call, however large `delta` is.
     */
    method Animate(delta: real)
      requires Valid()
      modifies this
      ensures Valid()
      ensures old(accumulated) + delta >= timePerFrame ==>
                accumulated == old(accumulated) + delta - timePerFrame &&
                hframe == (if old(hframe) == hframes - 1 then 0 else old(hframe) + 1)
      ensures old(accumulated) + delta < timePerFrame ==>
                accumulated == old(accumulated) + delta && hframe == old(hframe)
      ensures Clock() == Tick(old(Clock()), hframes, timePerFrame, delta)
      ensures vframe == old(vframe) && hframes == old(hframes) && vframes == old(vframes)
      ensures cellW == old(cellW) && cellH == old(cellH)
      ensures timePerFrame == old(timePerFrame) && origin == old(origin)
    {
      accumulated := accumulated + delta;
      if accumulated >= timePerFrame {
        accumulated := accumulated - timePerFrame;
        ChangeHFrame(hframe + 1);
      }
    }
  }

  /** The drawn rectangle of a sprite always lies inside its texture. */
  lemma DrawnRegionInsideTexture(s: Sprite)
    requires s.Valid()
    ensures 0 <= s.rect.left && s.rect.left + s.rect.width <= s.texW
    ensures 0 <= s.rect.top && s.rect.top + s.rect.height <= s.texH
  {
    FrameInsideTexture(s.hframe, s.vframe, s.hframes, s.vframes, s.texW, s.texH);
  }

  /** Integer division gives the largest cell size that fits `count` times into `size`. */
  lemma CellSizeBounds(size: nat, count: nat)
    requires count >= 1
    ensures (size / count) * count <= size < (size / count + 1) * count
  {
    assert size == (size / count) * count + size % count;
  }
}
