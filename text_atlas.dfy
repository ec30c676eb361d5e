/**
 * The row packing of a TextAtlas: each text is drawn once into a scratch canvas
 * and copied into the atlas at a cursor that moves left to right and starts a new
 * row when the text would cross the atlas's right edge.  The pixels themselves
 * (canvas drawing, outlines, gamma) are not modelled: drawing a text is reduced to
 * the scratch size it leaves behind, computed from the text's measured width.
 */
module Atlas {
  import opened Wrappers

  /** Where a text sits in the atlas, in pixels. */
  datatype Rect = Rect(x: real, y: int, w: real, h: int)

  /** `p || d`, for a numeric parameter: absent and zero both take the default. */
  function NatOrDefault(p: Option<nat>, d: nat): (r: nat)
    ensures (p.None? || p.value == 0) ==> r == d
    ensures p.Some? && p.value != 0 ==> r == p.value
  {
    if p.None? || p.value == 0 then d else p.value
  }

  /** The line height the atlas reserves: the font size, room for the outline on both
      sides and a quarter of the size (rounded half up) for ascenders and descenders. */
  function LineHeight(size: nat, outline: nat): (h: nat)
    ensures 4 * (h - size - 2 * outline) <= size + 2 < 4 * (h - size - 2 * outline) + 4
  {
    size + 2 * outline + (size + 2) / 4
  }

  function Min(a: real, b: real): (m: real)
    ensures m <= a && m <= b && (m == a || m == b)
  {
    if a <= b then a else b
  }

  /** The slot a text of size w by h gets with the cursor at (cx, cy) in an atlas
      width pixels wide. */
  function Place(cx: real, cy: int, w: real, h: int, width: real): Rect
  {
    if cx + w > width then Rect(0.0, cy + h, w, h) else Rect(cx, cy, w, h)
  }

  /** A slot takes the text's size, starts at the cursor or at the start of the next
      row, and stays inside the atlas's width whenever the text is no wider than it. */
  lemma PlaceFits(cx: real, cy: int, w: real, h: int, width: real)
    requires 0.0 <= cx && 0.0 <= w <= width
    ensures var r := Place(cx, cy, w, h, width);
      && r.w == w && r.h == h && 0.0 <= r.x && r.x + r.w <= width
      && ((r.x == cx && r.y == cy) || (r.x == 0.0 && r.y == cy + h))
  {
  }

  /** Two slots do not overlap. */
  predicate Apart(a: Rect, b: Rect)
  {
    a.y + a.h <= b.y || b.y + b.h <= a.y || a.x + a.w <= b.x || b.x + b.w <= a.x
  }

  /** A slot handed out earlier lies before the cursor: on a row above, or on the
      cursor's row and to its left. */
  predicate Before(r: Rect, cx: real, cy: int)
  {
    r.y + r.h <= cy || (r.y == cy && r.x + r.w <= cx)
  }

  /** The next slot, for a text as tall as every earlier one, overlaps none of the slots
      before the cursor, and they stay before the cursor as it moves past the new slot. */
  lemma PlaceApart(earlier: Rect, cx: real, cy: int, w: real, h: int, width: real)
    requires Before(earlier, cx, cy) && earlier.h == h && 0 <= h && 0.0 <= w
    ensures var r := Place(cx, cy, w, h, width);
      Apart(earlier, r) && Before(earlier, r.x + r.w, r.y) && Before(r, r.x + r.w, r.y)
  {
  }

  /** The slots handed out so far, with the cursor at (cx, cy): each sits inside the
      width, is h high and lies before the cursor, and no two overlap. */
  predicate Packed(slots: map<string, Rect>, cx: real, cy: int, width: real, h: int)
  {
    && 0.0 <= cx <= width && 0 <= cy && 0 <= h
    && (forall t :: t in slots ==>
          && slots[t].h == h && 0.0 <= slots[t].w && 0.0 <= slots[t].x
          && slots[t].x + slots[t].w <= width
          && Before(slots[t], cx, cy))
    && forall t, u :: t in slots && u in slots && t != u ==> Apart(slots[t], slots[u])
  }

  /** Giving a new text the next slot, and moving the cursor past it, keeps the slots
      packed. */
  lemma PackedAdd(slots: map<string, Rect>, text: string, cx: real, cy: int, w: real, h: int,
                  width: real)
    requires Packed(slots, cx, cy, width, h) && text !in slots && 0.0 <= w <= width
    ensures var r := Place(cx, cy, w, h, width);
      Packed(slots[text := r], r.x + r.w, r.y, width, h)
  {
    var r := Place(cx, cy, w, h, width);
    var slots' := slots[text := r];
    PlaceFits(cx, cy, w, h, width);
    forall t | t in slots
      ensures Apart(slots[t], r) && Before(slots[t], r.x + r.w, r.y)
    {
      PlaceApart(slots[t], cx, cy, w, h, width);
    }
    forall t, u | t in slots' && u in slots' && t != u
      ensures Apart(slots'[t], slots'[u])
    {
      if t == text {
        assert Apart(slots[u], r);
      } else if u != text {
        assert Apart(slots[t], slots[u]);
      }
    }
  }

  class TextAtlas {
    const size: nat
    const outline: nat
    const width: nat
    const height: nat
    const lineHeight: nat
    const maxWidth: real
    var mapped: map<string, Rect>
    var scratchW: real
    var scratchH: int
    var currentX: real
    var currentY: int

    /** The slots handed out are packed, one line high each. */
    ghost predicate Valid()
      reads this
    {
      && maxWidth == width as real / 4.0 && lineHeight == LineHeight(size, outline)
      && Packed(mapped, currentX, currentY, width as real, lineHeight)
    }

    /** The TextAtlas constructor with the parameters that shape the packing: size,
        width and height default to 36, 1024 and 1024 when absent or zero, the outline
        to 0 when absent; nothing is mapped and the cursor is at the origin. */
    constructor(pSize: Option<nat>, pOutline: Option<nat>, pWidth: Option<nat>, pHeight: Option<nat>)
      ensures Valid() && mapped == map[] && currentX == 0.0 && currentY == 0
      ensures scratchW == 0.0 && scratchH == 0
      ensures size == NatOrDefault(pSize, 36) && width == NatOrDefault(pWidth, 1024)
      ensures height == NatOrDefault(pHeight, 1024)
      ensures outline == (if pOutline.Some? then pOutline.value else 0)
    {
      size := NatOrDefault(pSize, 36);
      outline := if pOutline.Some? then pOutline.value else 0;
      width := NatOrDefault(pWidth, 1024);
      height := NatOrDefault(pHeight, 1024);
      lineHeight := LineHeight(NatOrDefault(pSize, 36), if pOutline.Some? then pOutline.value else 0);
      maxWidth := NatOrDefault(pWidth, 1024) as real / 4.0;
      mapped := map[];
      scratchW := 0.0;
      scratchH := 0;
      currentX := 0.0;
      currentY := 0;
    }

    /** The size TextAtlas.draw leaves in the scratch fields for a text whose measured
        width, outline padding included, is measured: at most a quarter of the atlas
        wide and one line high. */
    method Draw(measured: nat)
      requires Valid()
      modifies this
      ensures Valid() && scratchW == Min(maxWidth, measured as real) && scratchH == lineHeight
      ensures mapped == old(mapped) && currentX == old(currentX) && currentY == old(currentY)
    {
      scratchW := Min(maxWidth, measured as real);
      scratchH := lineHeight;
    }

    /** TextAtlas.map: a text seen before gets its slot back and nothing changes; a new
        text is drawn, gets the next slot along the row (or at the start of the next
        row when it would cross the right edge), keeps it from then on, and moves the
        cursor past it.  The call warns exactly when the slot crosses the bottom edge. */
    method Map(text: string, measured: nat) returns (r: Rect, warned: bool)
      requires Valid()
      modifies this
      ensures Valid() && text in mapped && r == mapped[text]
      ensures text in old(mapped) ==>
        && r == old(mapped)[text] && !warned && mapped == old(mapped)
        && currentX == old(currentX) && currentY == old(currentY)
        && scratchW == old(scratchW) && scratchH == old(scratchH)
      ensures text !in old(mapped) ==>
        && mapped == old(mapped)[text := r]
        && r == Place(old(currentX), old(currentY), Min(maxWidth, measured as real), lineHeight, width as real)
        && currentX == r.x + r.w && currentY == r.y
        && (warned <==> r.y + r.h > height)
    {
      warned := false;
      if text !in mapped {
        Draw(measured);
        PackedAdd(mapped, text, currentX, currentY, scratchW, scratchH, width as real);
        ghost var slot := Place(currentX, currentY, scratchW, scratchH, width as real);
        ghost var slots := mapped[text := slot];
        if currentX + scratchW > width as real {
          currentX := 0.0;
          currentY := currentY + scratchH;
        }
        if currentY + scratchH > height {
          warned := true;
        }
        assert Rect(currentX, currentY, scratchW, scratchH) == slot;
        mapped := mapped[text := Rect(currentX, currentY, scratchW, scratchH)];
        currentX := currentX + scratchW;
        assert Packed(slots, slot.x + slot.w, slot.y, width as real, lineHeight);
      }
      r := mapped[text];
    }
  }
}
