/** Which rectangle a partial update sends, and where its bytes go in the canvas
    (t6-virtual-display.rs). */
module Tiles {
  import opened Arithmetic
  import opened Wrappers
  import opened Bytes
  import opened Geometry

  function Align(value: nat, alignment: nat): nat
    requires alignment > 0
  {
    DivCeil(value, alignment) * alignment
  }

  lemma Align16Is(value: nat)
    ensures value <= Align(value, 16) < value + 16 && Align(value, 16) % 16 == 0
  {
  }

  lemma Align32Is(value: nat)
    ensures value <= Align(value, 32) < value + 32 && Align(value, 32) % 32 == 0
  {
  }

  /** One axis of align_type7_rect_32: the edges before the width test. */
  function LowEdge(at: nat): nat { SatSub(at, 1) / 32 * 32 }

  function HighEdge(at: nat, size: nat, canvas: nat): nat {
    Min(Align(SatAdd(SatAdd(at, size), 31), 32), canvas)
  }

  function Widen(low: nat, high: nat, canvas: nat): (nat, nat)
    requires low < high <= canvas
  {
    if high - low < 32 then
      if high == canvas then (SatSub(low, 32 - (high - low)), high) else (low, Min(low + 32, canvas))
    else (low, high)
  }

  function AlignType7Rect32(b: Box, canvasWidth: nat, canvasHeight: nat): Option<Box> {
    if b.width == 0 || b.height == 0 || canvasWidth == 0 || canvasHeight == 0 then None
    else
      var left, top := LowEdge(b.x), LowEdge(b.y);
      var right, bottom := HighEdge(b.x, b.width, canvasWidth), HighEdge(b.y, b.height, canvasHeight);
      if right <= left || bottom <= top then None
      else
        var (l, r) := Widen(left, right, canvasWidth);
        var (t, o) := Widen(top, bottom, canvasHeight);
        Some(Box(l, t, r - l, o - t))
  }

  datatype RectMode = Local | HorizontalBand | VerticalBand | Auto

  function SatMul(a: nat, b: nat): nat { Min(a * b, USIZE_MAX) }

  function Type7UpdateRect(b: Box, canvasWidth: nat, canvasHeight: nat, mode: RectMode): Option<Box> {
    var aligned := AlignType7Rect32(b, canvasWidth, canvasHeight);
    if aligned.None? then None
    else
      var local := aligned.value;
      var horizontal := Box(0, local.y, canvasWidth, local.height);
      var vertical := Box(local.x, 0, local.width, canvasHeight);
      var selected :=
        match mode
        case Local => local
        case HorizontalBand => horizontal
        case VerticalBand => vertical
        case Auto =>
          var localArea := SatMul(local.width, local.height);
          var horizontalArea := SatMul(horizontal.width, horizontal.height);
          var verticalArea := SatMul(vertical.width, vertical.height);
          if localArea <= horizontalArea && localArea <= verticalArea then local
          else if horizontalArea <= verticalArea then horizontal else vertical;
      if selected.width == 0 || selected.height == 0 then None else Some(selected)
  }

  predicate EvenEdges(b: Box) { b.x % 2 == 0 && b.y % 2 == 0 && b.width % 2 == 0 && b.height % 2 == 0 }

  lemma AxisSound(at: nat, size: nat, canvas: nat)
    requires size > 0 && at + size <= canvas && canvas + 64 <= USIZE_MAX
    ensures var low, high := LowEdge(at), HighEdge(at, size, canvas);
            low < high <= canvas
            && var (l, h) := Widen(low, high, canvas);
               l <= at && at + size <= h <= canvas && (h - l >= 32 || (l == 0 && h == canvas))
               && (canvas % 2 == 0 ==> l % 2 == 0 && (h - l) % 2 == 0)
  {
    EdgesSound(at, size, canvas);
    var low, high := LowEdge(at), HighEdge(at, size, canvas);
    hide LowEdge, HighEdge, Widen;
    Widens(low, high, canvas);
    Even32(low);
    if high % 32 == 0 { Even32(high); }
    if canvas % 2 == 0 { WidenEven(low, high, canvas); }
  }

  lemma EdgesSound(at: nat, size: nat, canvas: nat)
    requires size > 0 && at + size <= canvas && canvas + 64 <= USIZE_MAX
    ensures var low, high := LowEdge(at), HighEdge(at, size, canvas);
            low <= at && at + size <= high <= canvas && low % 32 == 0 && (high == canvas || high % 32 == 0)
  {
    Align32Is(at + size + 31);
    hide Align;
  }

  lemma Widens(low: nat, high: nat, canvas: nat)
    requires low < high <= canvas && low % 32 == 0 && (high == canvas || high % 32 == 0)
    ensures var (l, h) := Widen(low, high, canvas);
            l <= low && high <= h <= canvas && (h - l >= 32 || (l == 0 && h == canvas))
  {
    if high != canvas { Apart32(low / 32, high / 32, low, high); }
  }

  lemma Apart32(a: nat, b: nat, low: nat, high: nat)
    requires low == 32 * a && high == 32 * b && low < high
    ensures high - low >= 32
  {
  }

  lemma WidenEven(low: nat, high: nat, canvas: nat)
    requires low < high <= canvas && low % 2 == 0 && high % 2 == 0 && canvas % 2 == 0
    ensures var (l, h) := Widen(low, high, canvas); l % 2 == 0 && (h - l) % 2 == 0
  {
    if high - low < 32 {
      if high == canvas { LowEven(low, high); } else { HighEven(low, canvas); }
    } else {
      DifferenceEven(low, high);
    }
  }

  lemma LowEven(low: nat, high: nat)
    requires low < high && high - low < 32 && low % 2 == 0 && high % 2 == 0
    ensures var l := SatSub(low, 32 - (high - low)); l % 2 == 0 && l <= high && (high - l) % 2 == 0
  {
    DifferenceEven(low, high);
  }

  lemma HighEven(low: nat, canvas: nat)
    requires low < canvas && low % 2 == 0 && canvas % 2 == 0
    ensures var h := Min(low + 32, canvas); low <= h && (h - low) % 2 == 0
  {
    DifferenceEven(low, canvas);
  }

  lemma DifferenceEven(low: nat, high: nat)
    requires low <= high && low % 2 == 0 && high % 2 == 0
    ensures (high - low) % 2 == 0
  {
  }

  lemma Even32(x: nat)
    requires x % 32 == 0
    ensures x % 2 == 0
  {
    EvenTwice(x, 16 * (x / 32));
  }

  lemma EvenTwice(x: nat, half: nat)
    requires x == 2 * half
    ensures x % 2 == 0
  {
  }

  predicate Serves(t: Box, b: Box, canvasWidth: nat, canvasHeight: nat) {
    && Covers(t, b) && t.Within(canvasWidth, canvasHeight)
    && (t.width >= 32 || t.width == canvasWidth) && (t.height >= 32 || t.height == canvasHeight)
    && (canvasWidth % 2 == 0 && canvasHeight % 2 == 0 ==> EvenEdges(t))
  }

  predicate IsCanvas(canvasWidth: nat, canvasHeight: nat) {
    canvasWidth + 64 <= USIZE_MAX && canvasHeight + 64 <= USIZE_MAX
  }

  lemma AlignType7Rect32Sound(b: Box, canvasWidth: nat, canvasHeight: nat)
    requires b.Nonempty() && b.Within(canvasWidth, canvasHeight) && IsCanvas(canvasWidth, canvasHeight)
    ensures var t := AlignType7Rect32(b, canvasWidth, canvasHeight);
            t.Some? && Serves(t.value, b, canvasWidth, canvasHeight)
  {
    AxisSound(b.x, b.width, canvasWidth);
    AxisSound(b.y, b.height, canvasHeight);
    hide LowEdge, HighEdge, Widen;
  }

  /** For every nonempty dirty box of a canvas there is a rectangle to send; it holds the box, stays
      in the canvas, is 32 wide and high unless the canvas is smaller, and has even edges in an even
      canvas. */
  lemma Type7UpdateRectSound(b: Box, canvasWidth: nat, canvasHeight: nat, mode: RectMode)
    requires b.Nonempty() && b.Within(canvasWidth, canvasHeight) && IsCanvas(canvasWidth, canvasHeight)
    ensures var t := Type7UpdateRect(b, canvasWidth, canvasHeight, mode);
            t.Some? && Serves(t.value, b, canvasWidth, canvasHeight)
  {
    AlignType7Rect32Sound(b, canvasWidth, canvasHeight);
    hide AlignType7Rect32, SatMul;
  }
}
