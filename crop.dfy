/** The crop rectangle `cropAndResizeImage` asks `sharp` to extract before it
    resizes: the largest centred region of the source whose shape is as close
    to the fixed 450:350 output as whole pixels allow.

    The source compares and rounds JavaScript doubles; here the same
    quantities are exact rationals. The ratio test `width / height > 450 / 350`
    becomes `width * 350 > height * 450`, and `Math.round(p / q)` becomes
    `floor(p / q + 1/2)`, which is `(2p + q) / (2q)` in integer division. */
module CropGeometry {

  const TargetWidth: int := 450
  const TargetHeight: int := 350

  /** `Math.round(p / q)` for q > 0: the nearest integer, halves going up. */
  function Round(p: int, q: int): int
    requires q > 0
  {
    (2 * p + q) / (2 * q)
  }

  /** Round(p, q) is within one half of p / q, and a half rounds up. */
  lemma RoundBounds(p: int, q: int)
    requires q > 0
    ensures 2 * q * Round(p, q) - q <= 2 * p < 2 * q * Round(p, q) + q
  {
    var n, d := 2 * p + q, 2 * q;
    assert n == d * (n / d) + n % d;
    assert 0 <= n % d < d;
  }

  lemma ScaledBelowOne(d: int, m: int)
    requires d > 0 && d * m < d
    ensures m < 1
  {
  }

  /** Only one integer satisfies those bounds, so they define Round. */
  lemma RoundUnique(p: int, q: int, k: int)
    requires q > 0
    requires 2 * q * k - q <= 2 * p < 2 * q * k + q
    ensures Round(p, q) == k
  {
    var r := Round(p, q);
    RoundBounds(p, q);
    assert 2 * q * (r - k) < 2 * q by {
      assert 2 * q * (r - k) == 2 * q * r - 2 * q * k;
    }
    assert 2 * q * (k - r) < 2 * q by {
      assert 2 * q * (k - r) == 2 * q * k - 2 * q * r;
    }
    ScaledBelowOne(2 * q, r - k);
    ScaledBelowOne(2 * q, k - r);
  }

  /** A rectangle of pixels: offsets from the top-left corner and size. */
  datatype Rect = Rect(left: int, top: int, width: int, height: int)

  /** The region `extract` accepts for a width x height source:
      non-empty and entirely inside the picture. */
  predicate InsideSource(area: Rect, width: int, height: int)
  {
    && 0 <= area.left && 0 <= area.top
    && 1 <= area.width && 1 <= area.height
    && area.left + area.width <= width
    && area.top + area.height <= height
  }

  /** `width / height > targetWidth / targetHeight`: the source is relatively
      wider than the output and loses columns; otherwise it loses rows. */
  predicate WiderThanTarget(width: nat, height: nat)
  {
    width * TargetHeight > height * TargetWidth
  }

  /** The crop computed at imageProcessor.js before the `extract` call. */
  function CropRect(width: nat, height: nat): Rect
  {
    if WiderThanTarget(width, height) then
      var cropWidth := Round(height * TargetWidth, TargetHeight);
      Rect(Round(width - cropWidth, 2), 0, cropWidth, height)
    else
      var cropHeight := Round(width * TargetHeight, TargetWidth);
      Rect(0, Round(height - cropHeight, 2), width, cropHeight)
  }

  /** A wider source keeps its full height; the crop width is the integer
      nearest to height * 450 / 350, and the left offset is half of the
      discarded width, rounded up. */
  lemma CropWhenWider(width: nat, height: nat)
    requires WiderThanTarget(width, height)
    ensures var r := CropRect(width, height);
      && r.top == 0 && r.height == height
      && 700 * r.width - 350 <= 900 * height < 700 * r.width + 350
      && 2 * r.left - 1 <= width - r.width < 2 * r.left + 1
  {
    var r := CropRect(width, height);
    RoundBounds(height * TargetWidth, TargetHeight);
    RoundBounds(width - r.width, 2);
  }

  /** A source that is not wider keeps its full width; the crop height is the
      integer nearest to width * 350 / 450, and the top offset is half of the
      discarded height, rounded up. */
  lemma CropWhenNotWider(width: nat, height: nat)
    requires !WiderThanTarget(width, height)
    ensures var r := CropRect(width, height);
      && r.left == 0 && r.width == width
      && 900 * r.height - 450 <= 700 * width < 900 * r.height + 450
      && 2 * r.top - 1 <= height - r.height < 2 * r.top + 1
  {
    var r := CropRect(width, height);
    RoundBounds(width * TargetHeight, TargetWidth);
    RoundBounds(height - r.height, 2);
  }

  /** For any real picture the crop is a valid `extract` region: never empty
      and never past the right or bottom edge. */
  lemma CropInsideSource(width: nat, height: nat)
    requires width >= 1 && height >= 1
    ensures InsideSource(CropRect(width, height), width, height)
  {
    if WiderThanTarget(width, height) {
      CropWhenWider(width, height);
    } else {
      CropWhenNotWider(width, height);
    }
  }

  /** The crop is centred: the margin cut on the left (top) equals the margin
      cut on the right (bottom), or exceeds it by the one odd pixel. */
  lemma CropCentred(width: nat, height: nat)
    ensures var r := CropRect(width, height);
      && 0 <= r.left - (width - r.left - r.width) <= 1
      && 0 <= r.top - (height - r.top - r.height) <= 1
  {
    if WiderThanTarget(width, height) {
      CropWhenWider(width, height);
    } else {
      CropWhenNotWider(width, height);
    }
  }

  /** The crop has the output's shape up to rounding: width * 350 and
      height * 450 differ by at most half of 450. */
  lemma CropMatchesTargetRatio(width: nat, height: nat)
    ensures var r := CropRect(width, height);
      -TargetWidth / 2 <= r.width * TargetHeight - r.height * TargetWidth <= TargetWidth / 2
  {
    if WiderThanTarget(width, height) {
      CropWhenWider(width, height);
    } else {
      CropWhenNotWider(width, height);
    }
  }

  /** A source already at 450:350 (450 x 350, 900 x 700, ...) is not cropped. */
  lemma CropIdentityAtTargetRatio(width: nat, height: nat)
    requires width * TargetHeight == height * TargetWidth
    ensures CropRect(width, height) == Rect(0, 0, width, height)
  {
    RoundUnique(width * TargetHeight, TargetWidth, height);
    RoundUnique(0, 2, 0);
  }
}
