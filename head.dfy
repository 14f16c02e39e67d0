/**
 * The head thumbnail of `generateHead`: crop the face (8,8)-(16,16) and the
 * hat overlay (40,8)-(48,16) from the skin, scale them with nearest-neighbour
 * sampling to 32x32 and 36x36, and paste both, each masked by its own alpha,
 * onto a transparent 36x36 canvas at (2,2) and (0,0).
 *
 * Images are `array2<Pixel>` indexed `[x, y]`: Length0 is the width and
 * Length1 the height, as in the (x, y) boxes of the imaging library.
 */
module Head {

  datatype Pixel = Pixel(r: int, g: int, b: int, a: int)

  /** The fill of a new RGBA canvas and of a crop outside the source image. */
  const Clear: Pixel := Pixel(0, 0, 0, 0)

  const Size: int := 36
  const FaceSize: int := 32

  /** Pixels whose alpha is fully transparent or fully opaque. */
  predicate BinaryAlpha(p: Pixel) {
    p.a == 0 || p.a == 255
  }

  ghost predicate AllBinaryAlpha(img: array2<Pixel>)
    reads img
  {
    forall x, y :: 0 <= x < img.Length0 && 0 <= y < img.Length1 ==> BinaryAlpha(img[x, y])
  }

  /**
   * A mask-weighted mix of one channel (alpha included): the mask value `m`
   * in 0..255 weighs the pasted value against the canvas value. It rounds
   * down, where the imaging library's masked paste rounds to nearest, so it
   * agrees with that paste at alpha 0 and 255, the only values `Over` meets.
   */
  function Blend(under: int, over: int, m: int): int {
    (over * m + under * (255 - m)) / 255
  }

  function MaskBlend(under: Pixel, over: Pixel, m: int): Pixel {
    Pixel(Blend(under.r, over.r, m), Blend(under.g, over.g, m), Blend(under.b, over.b, m), Blend(under.a, over.a, m))
  }

  /**
   * One pixel of a paste with the pasted image's alpha as mask: where the
   * mask is 255 the pasted pixel replaces the canvas, where it is 0 the canvas
   * stays.
   */
  function Over(under: Pixel, over: Pixel): (p: Pixel)
    requires BinaryAlpha(over)
    ensures over.a == 255 ==> p == over
    ensures over.a == 0 ==> p == under
  {
    if over.a == 0 then under else over
  }

  /** On binary alpha the two-way choice of `Over` is the masked blend with the pasted alpha as mask. */
  lemma OverIsMaskBlend(under: Pixel, over: Pixel)
    requires BinaryAlpha(over)
    ensures Over(under, over) == MaskBlend(under, over, over.a)
  {
  }

  /** The source pixel of a crop: outside the image a crop reads (0, 0, 0, 0). */
  function At(img: array2<Pixel>, x: int, y: int): Pixel
    reads img
  {
    if 0 <= x < img.Length0 && 0 <= y < img.Length1 then img[x, y] else Clear
  }

  /**
   * The source index of destination index `i` in a nearest-neighbour resize
   * from `src` to `dst` pixels: floor((i + 0.5) * src / dst), sampling at the
   * centre of the destination pixel.
   */
  function Nearest(i: nat, src: nat, dst: nat): nat
    requires dst > 0
  {
    MulMono(0, 2 * i + 1, src);
    ((2 * i + 1) * src) / (2 * dst)
  }

  lemma NearestInRange(i: nat, src: nat, dst: nat)
    requires i < dst
    ensures Nearest(i, src, dst) <= src
    ensures src > 0 ==> Nearest(i, src, dst) < src
  {
    assert (2 * i + 1) * src <= 2 * dst * src by {
      assert 2 * i + 1 <= 2 * dst;
      MulMono(2 * i + 1, 2 * dst, src);
    }
    if src > 0 {
      assert (2 * i + 1) * src < 2 * dst * src by {
        assert 2 * i + 1 < 2 * dst;
        MulStrict(2 * i + 1, 2 * dst, src);
      }
      DivBelow((2 * i + 1) * src, 2 * dst, src);
    }
  }

  lemma MulMono(a: nat, b: nat, c: nat)
    requires a <= b
    ensures a * c <= b * c
  {
  }

  lemma MulStrict(a: nat, b: nat, c: nat)
    requires a < b && c > 0
    ensures a * c < b * c
  {
  }

  lemma DivBelow(n: nat, d: nat, q: nat)
    requires d > 0 && n < d * q
    ensures n / d < q
  {
  }

  /** The face layer: the skin's (8,8)-(16,16) block scaled to 32x32. */
  function FaceLayer(skin: array2<Pixel>, x: nat, y: nat): Pixel
    reads skin
    requires x < FaceSize && y < FaceSize
  {
    At(skin, 8 + Nearest(x, 8, FaceSize), 8 + Nearest(y, 8, FaceSize))
  }

  /** The hat layer: the skin's (40,8)-(48,16) block scaled to 36x36. */
  function HatLayer(skin: array2<Pixel>, x: nat, y: nat): Pixel
    reads skin
    requires x < Size && y < Size
  {
    At(skin, 40 + Nearest(x, 8, Size), 8 + Nearest(y, 8, Size))
  }

  predicate InFace(x: int, y: int) {
    2 <= x < 2 + FaceSize && 2 <= y < 2 + FaceSize
  }

  /** The canvas after the first paste: the face layer over transparency. */
  function FacePixel(skin: array2<Pixel>, x: nat, y: nat): Pixel
    reads skin
    requires x < Size && y < Size
    requires AllBinaryAlpha(skin)
  {
    if InFace(x, y) then Over(Clear, FaceLayer(skin, x - 2, y - 2)) else Clear
  }

  /** The pixel at (x, y) of the finished head. */
  function HeadPixel(skin: array2<Pixel>, x: nat, y: nat): Pixel
    reads skin
    requires x < Size && y < Size
    requires AllBinaryAlpha(skin)
  {
    Over(FacePixel(skin, x, y), HatLayer(skin, x, y))
  }

  /**
   * `skin.crop((left, top, left + w, top + h))`: a fresh w x h image whose
   * pixel (x, y) is the skin's (left + x, top + y), transparent where that
   * lies outside the skin.
   */
  method Crop(skin: array2<Pixel>, left: nat, top: nat, w: nat, h: nat) returns (c: array2<Pixel>)
    ensures fresh(c) && c.Length0 == w && c.Length1 == h
    ensures forall x, y :: 0 <= x < w && 0 <= y < h ==> c[x, y] == At(skin, left + x, top + y)
  {
    c := new Pixel[w, h];
    var x := 0;
    while x < w
      invariant 0 <= x <= w
      invariant forall i, j :: 0 <= i < x && 0 <= j < h ==> c[i, j] == At(skin, left + i, top + j)
    {
      var y := 0;
      while y < h
        invariant 0 <= y <= h
        invariant forall i, j :: 0 <= i < x && 0 <= j < h ==> c[i, j] == At(skin, left + i, top + j)
        invariant forall j :: 0 <= j < y ==> c[x, j] == At(skin, left + x, top + j)
      {
        c[x, y] := At(skin, left + x, top + y);
        y := y + 1;
      }
      x := x + 1;
    }
  }

  /** `img.resize((w, h), NEAREST)`: pixel (x, y) samples the source at the nearest centre. */
  method ResizeNearest(img: array2<Pixel>, w: nat, h: nat) returns (r: array2<Pixel>)
    ensures fresh(r) && r.Length0 == w && r.Length1 == h
    ensures forall x, y :: 0 <= x < w && 0 <= y < h ==>
      r[x, y] == At(img, Nearest(x, img.Length0, w), Nearest(y, img.Length1, h))
  {
    r := new Pixel[w, h];
    var x := 0;
    while x < w
      invariant 0 <= x <= w
      invariant forall i, j :: 0 <= i < x && 0 <= j < h ==>
        r[i, j] == At(img, Nearest(i, img.Length0, w), Nearest(j, img.Length1, h))
    {
      var sx := Nearest(x, img.Length0, w);
      var y := 0;
      while y < h
        invariant 0 <= y <= h
        invariant forall i, j :: 0 <= i < x && 0 <= j < h ==>
          r[i, j] == At(img, Nearest(i, img.Length0, w), Nearest(j, img.Length1, h))
        invariant forall j :: 0 <= j < y ==> r[x, j] == At(img, sx, Nearest(j, img.Length1, h))
      {
        r[x, y] := At(img, sx, Nearest(y, img.Length1, h));
        y := y + 1;
      }
      x := x + 1;
    }
  }

  /**
   * `canvas.paste(layer, (ox, oy), layer)`: inside the pasted box each pixel
   * becomes Over(old pixel, layer pixel); outside it nothing changes.
   */
  method Paste(canvas: array2<Pixel>, layer: array2<Pixel>, ox: nat, oy: nat)
    requires canvas != layer
    requires ox + layer.Length0 <= canvas.Length0 && oy + layer.Length1 <= canvas.Length1
    requires AllBinaryAlpha(layer)
    modifies canvas
    ensures forall x, y :: 0 <= x < canvas.Length0 && 0 <= y < canvas.Length1 ==>
      canvas[x, y] ==
        if ox <= x < ox + layer.Length0 && oy <= y < oy + layer.Length1
        then Over(old(canvas[x, y]), layer[x - ox, y - oy])
        else old(canvas[x, y])
  {
    var x := 0;
    while x < layer.Length0
      invariant 0 <= x <= layer.Length0
      invariant forall i, j :: 0 <= i < canvas.Length0 && 0 <= j < canvas.Length1 ==>
        canvas[i, j] ==
          if ox <= i < ox + x && oy <= j < oy + layer.Length1
          then Over(old(canvas[i, j]), layer[i - ox, j - oy])
          else old(canvas[i, j])
    {
      var y := 0;
      while y < layer.Length1
        invariant 0 <= y <= layer.Length1
        invariant forall i, j :: 0 <= i < canvas.Length0 && 0 <= j < canvas.Length1 ==>
          canvas[i, j] ==
            if (ox <= i < ox + x && oy <= j < oy + layer.Length1) || (i == ox + x && oy <= j < oy + y)
            then Over(old(canvas[i, j]), layer[i - ox, j - oy])
            else old(canvas[i, j])
      {
        canvas[ox + x, oy + y] := Over(canvas[ox + x, oy + y], layer[x, y]);
        y := y + 1;
      }
      x := x + 1;
    }
  }

  /** The 32x32 first layer of `generateHead`, as a fresh image. */
  method MakeFaceLayer(skin: array2<Pixel>) returns (first: array2<Pixel>)
    requires AllBinaryAlpha(skin)
    ensures fresh(first) && first.Length0 == FaceSize && first.Length1 == FaceSize
    ensures forall x, y :: 0 <= x < FaceSize && 0 <= y < FaceSize ==> first[x, y] == FaceLayer(skin, x, y)
    ensures AllBinaryAlpha(first)
  {
    var crop := Crop(skin, 8, 8, 8, 8);
    first := ResizeNearest(crop, FaceSize, FaceSize);
    forall x, y | 0 <= x < FaceSize && 0 <= y < FaceSize
      ensures first[x, y] == FaceLayer(skin, x, y) && BinaryAlpha(first[x, y])
    {
      NearestInRange(x, 8, FaceSize);
      NearestInRange(y, 8, FaceSize);
    }
  }

  /** The 36x36 second layer of `generateHead`, as a fresh image. */
  method MakeHatLayer(skin: array2<Pixel>) returns (second: array2<Pixel>)
    requires AllBinaryAlpha(skin)
    ensures fresh(second) && second.Length0 == Size && second.Length1 == Size
    ensures forall x, y :: 0 <= x < Size && 0 <= y < Size ==> second[x, y] == HatLayer(skin, x, y)
    ensures AllBinaryAlpha(second)
  {
    var crop := Crop(skin, 40, 8, 8, 8);
    second := ResizeNearest(crop, Size, Size);
    forall x, y | 0 <= x < Size && 0 <= y < Size
      ensures second[x, y] == HatLayer(skin, x, y) && BinaryAlpha(second[x, y])
    {
      NearestInRange(x, 8, Size);
      NearestInRange(y, 8, Size);
    }
  }

  /**
   * `generateHead`: a fresh 36x36 image whose every pixel is HeadPixel; the
   * skin is only read.
   */
  method GenerateHead(skin: array2<Pixel>) returns (head: array2<Pixel>)
    requires AllBinaryAlpha(skin)
    ensures fresh(head) && head.Length0 == Size && head.Length1 == Size
    ensures forall x, y :: 0 <= x < Size && 0 <= y < Size ==> head[x, y] == HeadPixel(skin, x, y)
  {
    head := new Pixel[Size, Size]((x, y) => Clear);
    var first := MakeFaceLayer(skin);
    var second := MakeHatLayer(skin);
    Paste(head, first, 2, 2);
    assert forall x, y :: 0 <= x < Size && 0 <= y < Size ==> head[x, y] == FacePixel(skin, x, y);
    Paste(head, second, 0, 0);
  }

  /** Each destination index of the 4x face scaling reads source index `i` for a block of four. */
  lemma FaceNearest(i: nat, d: nat)
    requires i < 8 && d < 4
    ensures Nearest(4 * i + d, 8, FaceSize) == i
  {
    assert (2 * (4 * i + d) + 1) * 8 == 64 * i + 16 * d + 8;
  }

  /**
   * The face pixel (8 + i, 8 + j) of the skin fills the 4x4 block of the head
   * at (2 + 4i, 2 + 4j), wherever the hat above it is transparent.
   */
  lemma FaceBlock(skin: array2<Pixel>, i: nat, j: nat, dx: nat, dy: nat)
    requires AllBinaryAlpha(skin)
    requires i < 8 && j < 8 && dx < 4 && dy < 4
    requires HatLayer(skin, 2 + 4 * i + dx, 2 + 4 * j + dy).a == 0
    ensures HeadPixel(skin, 2 + 4 * i + dx, 2 + 4 * j + dy) == Over(Clear, At(skin, 8 + i, 8 + j))
  {
    FaceNearest(i, dx);
    FaceNearest(j, dy);
  }

  /** Wherever the hat layer is opaque, the head shows the hat. */
  lemma HatOnTop(skin: array2<Pixel>, x: nat, y: nat)
    requires AllBinaryAlpha(skin)
    requires x < Size && y < Size
    requires HatLayer(skin, x, y).a == 255
    ensures HeadPixel(skin, x, y) == HatLayer(skin, x, y)
  {
  }

  /** The overlay block (40,8)-(48,16) of a skin is fully transparent. */
  ghost predicate HatTransparent(skin: array2<Pixel>)
    reads skin
  {
    forall x, y :: 40 <= x < 48 && 8 <= y < 16 ==> At(skin, x, y).a == 0
  }

  /**
   * With a transparent overlay the head is the scaled face with a
   * transparent two-pixel border.
   */
  lemma TransparentHatLeavesFace(skin: array2<Pixel>, x: nat, y: nat)
    requires AllBinaryAlpha(skin) && HatTransparent(skin)
    requires x < Size && y < Size
    ensures HeadPixel(skin, x, y) == FacePixel(skin, x, y)
    ensures !InFace(x, y) ==> HeadPixel(skin, x, y) == Clear
  {
    NearestInRange(x, 8, Size);
    NearestInRange(y, 8, Size);
  }
}
