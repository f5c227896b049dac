/**
 * The visualisation frame of the region grower: a three-channel image whose channels
 * 0 and 1 hold the grayscale input and whose channel 2 (red, in OpenCV's BGR order)
 * holds the pixel-wise maximum of the current mask and the input, so the region shows
 * up tinted. The grower keeps one such buffer and overwrites channel 2 in place on
 * every pass.
 */
module FrameRenderer {
  import opened Grids

  datatype Pixel = Pixel(ch0: real, ch1: real, ch2: real)

  type Frame = seq<seq<Pixel>>

  /**
   * Channel 2 of the frame for `mask`: the mask divided by its maximum when that
   * maximum is nonzero (left as it is otherwise), then the pixel-wise maximum with the image.
   */
  function RegionChannel(image: Grid, mask: Grid): (ch: Grid)
    requires IsNonemptyGrid(image) && SameShape(mask, image)
    ensures IsGrid(ch) && SameShape(ch, image)
  {
    var top := GridMax(mask);
    seq(|image|, i requires 0 <= i < |image| =>
      seq(Width(image), j requires 0 <= j < Width(image) =>
        Max(if top != 0.0 then mask[i][j] / top else mask[i][j], image[i][j])))
  }

  /** The frame emitted for `mask`: the image in channels 0 and 1, RegionChannel in channel 2. */
  function Overlay(image: Grid, mask: Grid): (f: Frame)
    requires IsNonemptyGrid(image) && SameShape(mask, image)
    ensures |f| == |image| && forall i | 0 <= i < |f| :: |f[i]| == Width(image)
  {
    var ch := RegionChannel(image, mask);
    seq(|image|, i requires 0 <= i < |image| =>
      seq(Width(image), j requires 0 <= j < Width(image) => Pixel(image[i][j], image[i][j], ch[i][j])))
  }

  /**
   * For a 0/1 mask the frame shows the image unchanged in channels 0 and 1 and, in
   * channel 2, 1 on the region and the image elsewhere.
   */
  lemma OverlayOfBinaryMask(image: Grid, mask: Grid)
    requires IsNonemptyGrid(image) && SameShape(mask, image) && IsBinary(mask)
    ensures forall i, j | InBounds(image, i, j) ::
      Overlay(image, mask)[i][j] == Pixel(image[i][j], image[i][j], Max(mask[i][j], image[i][j]))
  {
    BinaryMax(mask);
    var top := GridMax(mask);
    forall i, j | InBounds(image, i, j)
      ensures Overlay(image, mask)[i][j] == Pixel(image[i][j], image[i][j], Max(mask[i][j], image[i][j]))
    {
      if top != 0.0 {
        assert top == 1.0 && mask[i][j] / top == mask[i][j];
      }
    }
  }

  /** The frame an overlay buffer holds: channel c of cell (i, j) is buf[i, j, c]. */
  ghost function Snapshot(buf: array3<real>): (f: Frame)
    requires buf.Length2 == 3
    reads buf
  {
    seq(buf.Length0, i requires 0 <= i < buf.Length0 reads buf =>
      seq(buf.Length1, j requires 0 <= j < buf.Length1 reads buf => Pixel(buf[i, j, 0], buf[i, j, 1], buf[i, j, 2])))
  }

  /** Holds when `buf` has the shape of `image` and channels 0 and 1 equal the image. */
  ghost predicate HoldsImage(buf: array3<real>, image: Grid)
    reads buf
  {
    IsNonemptyGrid(image) && buf.Length0 == |image| && buf.Length1 == Width(image) && buf.Length2 == 3 &&
    forall i, j | 0 <= i < buf.Length0 && 0 <= j < buf.Length1 :: buf[i, j, 0] == image[i][j] && buf[i, j, 1] == image[i][j]
  }

  /** Overwrites channel `c` of `buf` with `values` (numpy's `buf[:, :, c] = values`). */
  method FillChannel(buf: array3<real>, c: nat, values: Grid)
    requires buf.Length2 == 3 && c < 3
    requires IsGrid(values) && |values| == buf.Length0 && Width(values) == buf.Length1
    modifies buf
    ensures forall i, j, k | 0 <= i < buf.Length0 && 0 <= j < buf.Length1 && 0 <= k < 3 ::
      buf[i, j, k] == if k == c then values[i][j] else old(buf[i, j, k])
  {
    for i := 0 to buf.Length0
      invariant forall a, b, k | 0 <= a < buf.Length0 && 0 <= b < buf.Length1 && 0 <= k < 3 ::
        buf[a, b, k] == if k == c && a < i then values[a][b] else old(buf[a, b, k])
    {
      for j := 0 to buf.Length1
        invariant forall a, b, k | 0 <= a < buf.Length0 && 0 <= b < buf.Length1 && 0 <= k < 3 ::
          buf[a, b, k] == if k == c && (a < i || (a == i && b < j)) then values[a][b] else old(buf[a, b, k])
      {
        buf[i, j, c] := values[i][j];
      }
    }
  }

  /** The zero-initialised buffer with the image copied into each of its three channels. */
  method NewOverlayBuffer(image: Grid) returns (buf: array3<real>)
    requires IsNonemptyGrid(image)
    ensures fresh(buf) && HoldsImage(buf, image)
    ensures forall i, j | 0 <= i < buf.Length0 && 0 <= j < buf.Length1 :: buf[i, j, 2] == image[i][j]
  {
    buf := new real[|image|, Width(image), 3];
    for c := 0 to 3
      invariant forall i, j, k | 0 <= i < buf.Length0 && 0 <= j < buf.Length1 && 0 <= k < c ::
        buf[i, j, k] == image[i][j]
    {
      FillChannel(buf, c, image);
    }
  }

  /**
   * A buffer holding the image in channels 0 and 1 and the region channel for `mask` in
   * channel 2 shows exactly Overlay(image, mask).
   */
  lemma ShowsOverlay(buf: array3<real>, image: Grid, mask: Grid)
    requires HoldsImage(buf, image) && SameShape(mask, image)
    requires forall i, j | 0 <= i < buf.Length0 && 0 <= j < buf.Length1 :: buf[i, j, 2] == RegionChannel(image, mask)[i][j]
    ensures Snapshot(buf) == Overlay(image, mask)
  {
    var f, g := Snapshot(buf), Overlay(image, mask);
    forall i | 0 <= i < |image|
      ensures f[i] == g[i]
    {
      assert forall j | 0 <= j < Width(image) :: f[i][j] == g[i][j];
    }
  }

  /** Writes the region channel for `mask`; afterwards the buffer holds exactly Overlay(image, mask). */
  method PaintRegion(buf: array3<real>, image: Grid, mask: Grid)
    requires HoldsImage(buf, image) && SameShape(mask, image)
    modifies buf
    ensures HoldsImage(buf, image)
    ensures forall i, j | 0 <= i < buf.Length0 && 0 <= j < buf.Length1 :: buf[i, j, 2] == RegionChannel(image, mask)[i][j]
    ensures Snapshot(buf) == Overlay(image, mask)
  {
    FillChannel(buf, 2, RegionChannel(image, mask));
    ShowsOverlay(buf, image, mask);
  }
}
