/** Turning a picture into display orientation (the Orientation tag of TIFF Revision 6.0, section 8). */
module Orientation {
  type Color = nat

  predicate Turns(orientation: int) {
    2 <= orientation <= 8
  }

  function Width(orientation: int, w: nat, h: nat): nat {
    if orientation >= 5 then h else w
  }

  function Height(orientation: int, w: nat, h: nat): nat {
    if orientation >= 5 then w else h
  }

  /** Where the pixel of column x and row y of a w by h picture goes. */
  function Place(orientation: int, w: nat, h: nat, x: nat, y: nat): (int, int)
    requires Turns(orientation)
  {
    match orientation
    case 2 => (w - 1 - x, y)
    case 3 => (w - 1 - x, h - 1 - y)
    case 4 => (x, h - 1 - y)
    case 5 => (y, x)
    case 6 => (h - 1 - y, x)
    case 7 => (h - 1 - y, w - 1 - x)
    case _ => (y, w - 1 - x)
  }

  /** The orientation that turns back. */
  function Inverse(orientation: int): int {
    if orientation == 6 then 8 else if orientation == 8 then 6 else orientation
  }

  /** Every pixel goes to a pixel of the turned picture, and the inverse orientation brings it back:
      so every orientation permutes the pixels. */
  lemma PlaceInverts(orientation: int, w: nat, h: nat, x: nat, y: nat)
    requires Turns(orientation) && x < w && y < h
    ensures var (nx, ny) := Place(orientation, w, h, x, y);
      && 0 <= nx < Width(orientation, w, h) && 0 <= ny < Height(orientation, w, h)
      && Place(Inverse(orientation), Width(orientation, w, h), Height(orientation, w, h), nx, ny) == (x, y)
  {
  }

  /** The pixel (x, y) of `src` is at its place in `dst`. */
  ghost predicate PixelTurned(orientation: int, src: array2<Color>, dst: array2<Color>, x: nat, y: nat)
    requires Turns(orientation) && x < src.Length0 && y < src.Length1
    requires dst.Length0 == Width(orientation, src.Length0, src.Length1)
    requires dst.Length1 == Height(orientation, src.Length0, src.Length1)
    reads src, dst
  {
    PlaceInverts(orientation, src.Length0, src.Length1, x, y);
    var (nx, ny) := Place(orientation, src.Length0, src.Length1, x, y);
    dst[nx, ny] == src[x, y]
  }

  /** `dst` is `src` turned. */
  ghost predicate IsTurned(orientation: int, src: array2<Color>, dst: array2<Color>)
    requires Turns(orientation)
    reads src, dst
  {
    && dst.Length0 == Width(orientation, src.Length0, src.Length1)
    && dst.Length1 == Height(orientation, src.Length0, src.Length1)
    && forall x: nat, y: nat {:trigger PixelTurned(orientation, src, dst, x, y)} ::
         x < src.Length0 && y < src.Length1 ==> PixelTurned(orientation, src, dst, x, y)
  }

  /** Copies the picture pixel by pixel, row by row; other orientations leave it as it is. */
  method ApplyOrientation(src: array2<Color>, orientation: int) returns (dst: array2<Color>)
    ensures !Turns(orientation) ==> dst == src
    ensures Turns(orientation) ==> fresh(dst) && IsTurned(orientation, src, dst)
  {
    if orientation <= 1 || orientation > 8 {
      return src;
    }
    var sw, sh := src.Length0, src.Length1;
    var dw, dh := sw, sh;
    if orientation >= 5 {
      dw, dh := sh, sw;
    }
    dst := new Color[dw, dh];
    for y := 0 to sh
      invariant forall i: nat, j: nat {:trigger PixelTurned(orientation, src, dst, i, j)} :: i < sw && j < y ==>
        PixelTurned(orientation, src, dst, i, j)
    {
      for x := 0 to sw
        invariant forall i: nat, j: nat {:trigger PixelTurned(orientation, src, dst, i, j)} ::
          i < sw && (j < y || (j == y && i < x)) ==> PixelTurned(orientation, src, dst, i, j)
      {
        PlaceInverts(orientation, sw, sh, x, y);
        var (nx, ny) := Place(orientation, sw, sh, x, y);
        label before:
        dst[nx, ny] := src[x, y];
        forall i: nat, j: nat | i < sw && (j < y || (j == y && i <= x))
          ensures PixelTurned(orientation, src, dst, i, j)
        {
          PlaceInverts(orientation, sw, sh, i, j);
          assert (i, j) != (x, y) ==> old@before(PixelTurned(orientation, src, dst, i, j));
        }
      }
    }
  }

  // ---------- What each orientation means ----------

  datatype Side = Top | Bottom | Left | Right

  /** The side of the display at which the first row of the stored picture appears. */
  function FirstRowSide(orientation: int): Side {
    match orientation
    case 3 => Bottom
    case 4 => Bottom
    case 5 => Left
    case 6 => Right
    case 7 => Right
    case 8 => Left
    case _ => Top
  }

  /** The side of the display at which the first column of the stored picture appears. */
  function FirstColumnSide(orientation: int): Side {
    match orientation
    case 2 => Right
    case 3 => Right
    case 5 => Top
    case 6 => Top
    case 7 => Bottom
    case 8 => Bottom
    case _ => Left
  }

  /** The position `d` steps in from one side of a w by h picture and `e` steps in from a side next to it. */
  function InFrom(w: nat, h: nat, side: Side, d: nat, beside: Side, e: nat): (int, int) {
    match side
    case Left => (d, if beside == Top then e else h - 1 - e)
    case Right => (w - 1 - d, if beside == Top then e else h - 1 - e)
    case Top => (if beside == Left then e else w - 1 - e, d)
    case Bottom => (if beside == Left then e else w - 1 - e, h - 1 - d)
  }

  /** The turned picture shows the first row and the first column at the sides that the orientation names,
      and the others in order behind them. */
  lemma SidesShown(orientation: int, src: array2<Color>, dst: array2<Color>, x: nat, y: nat)
    requires Turns(orientation) && IsTurned(orientation, src, dst) && x < src.Length0 && y < src.Length1
    ensures var (nx, ny) :=
        InFrom(dst.Length0, dst.Length1, FirstRowSide(orientation), y, FirstColumnSide(orientation), x);
      0 <= nx < dst.Length0 && 0 <= ny < dst.Length1 && dst[nx, ny] == src[x, y]
  {
    PlaceInverts(orientation, src.Length0, src.Length1, x, y);
    assert PixelTurned(orientation, src, dst, x, y);
  }

  /** Turning and turning back restores every picture. */
  lemma TurningBackRestores(orientation: int, src: array2<Color>, turned: array2<Color>, back: array2<Color>)
    requires Turns(orientation) && IsTurned(orientation, src, turned) && IsTurned(Inverse(orientation), turned, back)
    ensures back.Length0 == src.Length0 && back.Length1 == src.Length1
    ensures forall x, y :: 0 <= x < src.Length0 && 0 <= y < src.Length1 ==> back[x, y] == src[x, y]
  {
    forall x, y | 0 <= x < src.Length0 && 0 <= y < src.Length1
      ensures back[x, y] == src[x, y]
    {
      PlaceInverts(orientation, src.Length0, src.Length1, x, y);
      var (nx, ny) := Place(orientation, src.Length0, src.Length1, x, y);
      assert PixelTurned(orientation, src, turned, x, y);
      assert PixelTurned(Inverse(orientation), turned, back, nx, ny);
    }
  }
}
