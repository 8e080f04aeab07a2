/**
 * `color_to_rgb`: scaling a raw sample to 8-bit red, green and blue relative
 * to its clear channel.
 */
module Normalizer {
  import opened Bytes
  import opened Controller

  /** A normalised colour, as the three `uint8_t` outputs of `color_to_rgb`. */
  datatype Rgb = Rgb(r: Byte, g: Byte, b: Byte)

  /**
   * One channel of `color_to_rgb`: `(uint8_t)((raw * 255) / clear)`. The C
   * product is computed in `int` and is at most 65535 * 255, so it does not
   * overflow; both operands are non-negative, so C's truncating division
   * agrees with Dafny's; the cast to `uint8_t` keeps the quotient modulo 256.
   * When `raw <= clear` the cast drops nothing.
   */
  function Scale(raw: Word, clear: Word): (s: Byte)
    requires clear > 0
    ensures raw <= clear ==> s == raw * 255 / clear
  {
    var q := raw * 255 / clear;
    if raw <= clear then
      QuotientBelow(raw, clear);
      q % 0x100
    else
      q % 0x100
  }

  /** Floor division by a positive number lies between the two multiples around it. */
  lemma DivBounds(x: int, d: int)
    requires x >= 0 && d > 0
    ensures (x / d) * d <= x < (x / d + 1) * d
  {
  }

  /** Floor division is determined by the multiples around the dividend. */
  lemma DivUnique(x: int, d: int, q: int)
    requires d > 0 && 0 <= q * d <= x < (q + 1) * d
    ensures x / d == q
  {
    DivBounds(x, d);
    var p := x / d;
    if p > q {
      MulMonotone(q + 1, p, d);
    } else if p < q {
      MulMonotone(p + 1, q, d);
    }
  }

  /** Multiplying by the same non-negative number keeps the order. */
  lemma MulMonotone(a: int, b: int, d: int)
    requires a <= b && d >= 0
    ensures a * d <= b * d
  {
    assert b * d - a * d == (b - a) * d;
  }

  /** Dividing by the same positive number keeps the order. */
  lemma DivMonotone(x: int, y: int, d: int)
    requires 0 <= x <= y && d > 0
    ensures x / d <= y / d
  {
    var qx, qy := x / d, y / d;
    assert qx * d <= x;
    assert y < (qy + 1) * d;
  }

  /** Without wrap-around, the quotient is at most 255, so the cast keeps it whole. */
  lemma QuotientBelow(raw: Word, clear: Word)
    requires 0 < clear && raw <= clear
    ensures raw * 255 / clear <= 255
  {
    DivMonotone(raw * 255, clear * 255, clear);
    DivUnique(clear * 255, clear, 255);
  }

  /**
   * Without wrap-around, a channel's output is its share of the clear count
   * on a 0..255 scale, rounded down: the largest `s` with `s * clear <= raw * 255`.
   */
  lemma ScaleShare(raw: Word, clear: Word)
    requires 0 < clear && raw <= clear
    ensures Scale(raw, clear) * clear <= raw * 255 < (Scale(raw, clear) + 1) * clear
  {
    DivBounds(raw * 255, clear);
  }

  /**
   * `color_to_rgb`: black for an invalid sample or a sample with no clear
   * light (the guard against dividing by zero); otherwise each of red, green
   * and blue scaled by the clear channel, independently.
   */
  function ColorToRgb(c: ColorData): (out: Rgb)
    ensures !c.valid || c.clear == 0 ==> out == Rgb(0, 0, 0)
  {
    if !c.valid || c.clear == 0 then Rgb(0, 0, 0)
    else Rgb(Scale(c.red, c.clear), Scale(c.green, c.clear), Scale(c.blue, c.clear))
  }

  /** A channel with no light maps to 0, and a channel as bright as clear maps to 255. */
  lemma ScaleEnds(clear: Word)
    requires clear > 0
    ensures Scale(0, clear) == 0
    ensures Scale(clear, clear) == 255
  {
    DivUnique(clear * 255, clear, 255);
  }

  /** Up to the clear count the result reaches 255 only at the clear count itself. */
  lemma ScaleFullOnlyAtClear(raw: Word, clear: Word)
    requires 0 < clear && raw <= clear
    ensures Scale(raw, clear) == 255 <==> raw == clear
  {
    ScaleShare(raw, clear);
    ScaleEnds(clear);
  }

  /** Floor division stays below `n` exactly when the dividend stays below `n` multiples. */
  lemma DivBelow(x: int, d: int, n: int)
    requires x >= 0 && d > 0 && n >= 0
    ensures x / d < n <==> x < n * d
  {
    DivBounds(x, d);
    var q := x / d;
    if q < n {
      MulMonotone(q + 1, n, d);
    } else {
      MulMonotone(n, q, d);
    }
  }

  /**
   * The cast keeps the quotient whole exactly when `raw * 255 < 256 * clear`,
   * that is, when the quotient is at most 255. A channel somewhat above the
   * clear count can still come out exact (1001 against 1000 gives 255).
   */
  lemma ScaleExact(raw: Word, clear: Word)
    requires clear > 0
    ensures Scale(raw, clear) == raw * 255 / clear <==> raw * 255 < 256 * clear
  {
    var q := raw * 255 / clear;
    DivBelow(raw * 255, clear, 256);
    assert Scale(raw, clear) == q % 0x100;
    CastKeeps(q);
  }

  /** Keeping a non-negative number modulo 256 leaves it whole exactly when it is below 256. */
  lemma CastKeeps(q: int)
    requires q >= 0
    ensures q % 0x100 == q <==> q < 0x100
  {
  }

  /**
   * Wherever the cast keeps the quotient whole the scaling is monotone: a
   * brighter channel never maps lower. This covers every channel up to the
   * clear count.
   */
  lemma ScaleMonotone(a: Word, b: Word, clear: Word)
    requires 0 < clear && a <= b && b * 255 < 256 * clear
    ensures Scale(a, clear) <= Scale(b, clear)
  {
    ScaleExact(a, clear);
    ScaleExact(b, clear);
    DivMonotone(a * 255, b * 255, clear);
  }

  /**
   * Once `raw * 255` reaches `256 * clear` the `uint8_t` cast drops the high
   * bits and monotonicity fails: with a clear count of 1, a red count of 1
   * maps to 255 but a red count of 2 maps to 254 (510 modulo 256).
   */
  lemma ScaleWrapsPastClear()
    ensures Scale(1, 1) == 255 && Scale(2, 1) == 254
    ensures exists a: Word, b: Word :: a <= b && Scale(b, 1) < Scale(a, 1)
  {
    assert Scale(2, 1) < Scale(1, 1);
  }

  /**
   * For a sane sample (no colour channel brighter than clear), each output
   * is the channel's share of the clear count on a 0..255 scale, rounded down.
   */
  lemma ColorToRgbShare(c: ColorData)
    requires c.valid && c.clear > 0
    requires c.red <= c.clear && c.green <= c.clear && c.blue <= c.clear
    ensures var out := ColorToRgb(c);
      && out.r * c.clear <= c.red * 255 < (out.r + 1) * c.clear
      && out.g * c.clear <= c.green * 255 < (out.g + 1) * c.clear
      && out.b * c.clear <= c.blue * 255 < (out.b + 1) * c.clear
  {
    ScaleShare(c.red, c.clear);
    ScaleShare(c.green, c.clear);
    ScaleShare(c.blue, c.clear);
  }

  /**
   * Raising any colour counts of a sample, none past the clear count, never
   * lowers an output, and a channel whose count is unchanged keeps its output.
   */
  lemma ColorToRgbMonotone(c: ColorData, d: ColorData)
    requires d.valid == c.valid && d.clear == c.clear
    requires c.red <= d.red <= c.clear && c.green <= d.green <= c.clear && c.blue <= d.blue <= c.clear
    ensures var before, after := ColorToRgb(c), ColorToRgb(d);
      && before.r <= after.r && before.g <= after.g && before.b <= after.b
      && (c.red == d.red ==> before.r == after.r)
      && (c.green == d.green ==> before.g == after.g)
      && (c.blue == d.blue ==> before.b == after.b)
  {
    if c.valid && c.clear > 0 {
      ScaleMonotone(c.red, d.red, c.clear);
      ScaleMonotone(c.green, d.green, c.clear);
      ScaleMonotone(c.blue, d.blue, c.clear);
    }
  }
}
