/** `editImage`: the optional cosmetic filter, chosen by the menu string the user
    picked, or `undefined` (here `None`) when the user declined to edit. */
module Editing {
  import opened Wrappers
  import opened Imaging

  const MakeBrighter: string := "Make image brighter"
  const IncreaseContrast: string := "Increase contrast"
  const MakeBlackAndWhite: string := "Make image b&w"
  const InvertColours: string := "Invert image"

  /** The edit modes the prompt offers, in menu order. */
  const EditChoices: seq<string> := [MakeBrighter, IncreaseContrast, MakeBlackAndWhite, InvertColours]

  /** The operations the dispatch applies for `editType`: one filter for each
      menu choice, nothing for any other value. */
  function EditOps(editType: Option<string>): (ops: seq<Op>)
    ensures |ops| <= 1
    ensures forall i :: 0 <= i < |ops| ==> IsFilter(ops[i])
    ensures ops == [] <==> !(editType.Some? && editType.value in EditChoices)
  {
    match editType
    case None => []
    case Some(t) =>
      if t == MakeBrighter then [Brightness(0.5)]
      else if t == IncreaseContrast then [Contrast(0.5)]
      else if t == MakeBlackAndWhite then [Greyscale]
      else if t == InvertColours then [Invert]
      else []
  }

  /** Applies the selected filter to `image` in place and hands back the same object. */
  method EditImage(image: Image, editType: Option<string>) returns (r: Image)
    modifies image
    ensures r == image
    ensures image.ops == old(image.ops) + EditOps(editType)
    ensures editType.None? ==> unchanged(image)
  {
    if editType == Some(MakeBrighter) {
      image.Brightness(0.5);
    } else if editType == Some(IncreaseContrast) {
      image.Contrast(0.5);
    } else if editType == Some(MakeBlackAndWhite) {
      image.Greyscale();
    } else if editType == Some(InvertColours) {
      image.Invert();
    } else {
      // any other value, `undefined` included, is ignored
    }
    r := image;
  }

  /** Each menu choice selects its own filter, with the fixed strength 0.5 for the
      two adjustable ones; distinct choices give distinct filters. */
  lemma EachChoiceSelectsOneFilter(i: nat, j: nat)
    requires i < |EditChoices| && j < |EditChoices|
    ensures EditOps(Some(EditChoices[i])) == [[Brightness(0.5), Contrast(0.5), Greyscale, Invert][i]]
    ensures i != j ==> EditOps(Some(EditChoices[i])) != EditOps(Some(EditChoices[j]))
  {
  }

  /** Declining to edit leaves the image untouched. */
  lemma NoEditIsIdentity(ops: seq<Op>)
    ensures ops + EditOps(None) == ops
  {
  }
}
