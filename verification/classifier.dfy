/**
 * The dominant-colour verdict the sampling loop prints for each valid
 * sample, from the clear count and the normalised colour.
 */
module Classifier {
  import opened Bytes
  import Controller
  import opened Normalizer

  /** The verdicts, in the order the loop tests them; `Dark` when there is too little light. */
  datatype Verdict = Reddish | Greenish | Bluish | White | Black | Mixed | Dark

  /** Clear counts at or below this are too dark to judge. */
  const DarkLimit: nat := 100

  /** A channel must exceed this to be called dominant. */
  const DominantFloor: nat := 80

  /** All three channels above this read as white. */
  const WhiteFloor: nat := 150

  /** All three channels below this read as black. */
  const BlackCeiling: nat := 50

  /** `x` strictly exceeds both other channels and the dominance floor. */
  predicate Dominates(x: Byte, y: Byte, z: Byte) {
    x > y && x > z && x > DominantFloor
  }

  /**
   * The verdict chain of the sampling loop: with enough light, the first of
   * red, green or blue dominance, then white, then black, else mixed.
   */
  function Classify(clear: Word, c: Rgb): (v: Verdict)
    ensures v == Dark <==> clear <= DarkLimit
    ensures v == Black <==> clear > DarkLimit && c.r < BlackCeiling && c.g < BlackCeiling && c.b < BlackCeiling
    ensures v == White ==> c.r > WhiteFloor && c.g > WhiteFloor && c.b > WhiteFloor
    ensures v == Reddish ==> c.r > c.g && c.r > c.b
    ensures v == Greenish ==> c.g > c.r && c.g > c.b
    ensures v == Bluish ==> c.b > c.r && c.b > c.g
  {
    if clear <= DarkLimit then Dark
    else if Dominates(c.r, c.g, c.b) then Reddish
    else if Dominates(c.g, c.r, c.b) then Greenish
    else if Dominates(c.b, c.r, c.g) then Bluish
    else if c.r > WhiteFloor && c.g > WhiteFloor && c.b > WhiteFloor then White
    else if c.r < BlackCeiling && c.g < BlackCeiling && c.b < BlackCeiling then Black
    else Mixed
  }

  /** The largest of three channels, as a reference for "the strongest channel". */
  function Max3(x: Byte, y: Byte, z: Byte): (m: Byte)
    ensures m == x || m == y || m == z
    ensures m >= x && m >= y && m >= z
  {
    if x >= y && x >= z then x else if y >= z then y else z
  }

  /** The strongest channel is held by exactly one of the three. */
  predicate UniqueMax(c: Rgb) {
    var m := Max3(c.r, c.g, c.b);
    (if c.r == m then 1 else 0) + (if c.g == m then 1 else 0) + (if c.b == m then 1 else 0) == 1
  }

  /**
   * A colour verdict is given exactly when there is enough light and one
   * channel is strictly the strongest and above the dominance floor; the
   * verdict names that channel.
   */
  lemma ColourVerdicts(clear: Word, c: Rgb)
    ensures var v := Classify(clear, c); var m := Max3(c.r, c.g, c.b);
      && (v in {Reddish, Greenish, Bluish} <==> clear > DarkLimit && UniqueMax(c) && m > DominantFloor)
      && (v == Reddish <==> clear > DarkLimit && UniqueMax(c) && m > DominantFloor && m == c.r)
      && (v == Greenish <==> clear > DarkLimit && UniqueMax(c) && m > DominantFloor && m == c.g)
      && (v == Bluish <==> clear > DarkLimit && UniqueMax(c) && m > DominantFloor && m == c.b)
  {
  }

  /**
   * White is given exactly when there is enough light, all three channels
   * are above the white floor, and no single channel is strictly strongest.
   */
  lemma WhiteVerdict(clear: Word, c: Rgb)
    ensures Classify(clear, c) == White <==>
      clear > DarkLimit && c.r > WhiteFloor && c.g > WhiteFloor && c.b > WhiteFloor && !UniqueMax(c)
  {
  }

  /**
   * The verdict of a raw sample the loop reports: a sample whose clear count
   * is at most the dark limit is dark whatever its colour counts.
   */
  lemma DarkSample(s: Controller.ColorData)
    requires s.clear <= DarkLimit
    ensures Classify(s.clear, ColorToRgb(s)) == Dark
  {
  }
}
