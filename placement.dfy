/** The placement of an image watermark: its top-left corner is put at half the
    base's extent minus half the overlay's, computed exactly (division of numbers,
    not integer division). */
module Placement {

  /** The offset, along one axis, that centres an overlay of extent `overlay` on a
      base of extent `base`. */
  function CentreOffset(base: nat, overlay: nat): (x: real)
    ensures x + overlay as real / 2.0 == base as real / 2.0
    ensures x == base as real - (x + overlay as real)
    ensures 2.0 * x == (base - overlay) as real
    ensures x < 0.0 <==> overlay > base
  {
    base as real / 2.0 - overlay as real / 2.0
  }

  /** The offset is a whole number of pixels exactly when the two extents have the
      same parity; otherwise it lies halfway between two pixels. */
  lemma WholeOffsetIffSameParity(base: nat, overlay: nat)
    ensures (CentreOffset(base, overlay) == CentreOffset(base, overlay).Floor as real)
        <==> (base - overlay) % 2 == 0
  {
    var x := CentreOffset(base, overlay);
    var d := base - overlay;
    if d % 2 == 0 {
      assert x == (d / 2) as real;
    } else {
      assert x == (d / 2) as real + 0.5;
      assert x.Floor == d / 2;
    }
  }
}
