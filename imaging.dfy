/** An abstract stand-in for the raster library the tool drives. Pixels are not
    modelled: a decoded image keeps its source path and its fixed dimensions, and
    every library operation applied to it is appended, as an opaque tag with its
    arguments, to the image's log of operations. The object is updated in place,
    as the library's image object is. */
module Imaging {

  datatype HorizontalAlign = AlignLeft | AlignCenter | AlignRight

  datatype VerticalAlign = AlignTop | AlignMiddle | AlignBottom

  /** The bitmap fonts the tool can load; it only ever uses the 32px black sans font. */
  datatype Font = FontSans32Black

  datatype BlendMode = BlendSourceOver

  /** One operation applied to an image, with the arguments it was given. */
  datatype Op =
    | Brightness(amount: real)
    | Contrast(amount: real)
    | Greyscale
    | Invert
    | Print(font: Font, x: real, y: real, text: string,
            alignX: HorizontalAlign, alignY: VerticalAlign, maxWidth: nat, maxHeight: nat)
    | Composite(source: string, sourceWidth: nat, sourceHeight: nat,
                x: real, y: real, mode: BlendMode, opacitySource: real)

  /** The pixel filters (as opposed to the watermarking operations). */
  predicate IsFilter(op: Op)
  {
    op.Brightness? || op.Contrast? || op.Greyscale? || op.Invert?
  }

  class Image {
    /** The file the image was decoded from. */
    const source: string
    const width: nat
    const height: nat
    /** Every operation applied since decoding, oldest first. */
    var ops: seq<Op>

    /** A freshly decoded image, with nothing applied to it yet. */
    constructor Read(source: string, width: nat, height: nat)
      ensures this.source == source && this.width == width && this.height == height
      ensures ops == []
    {
      this.source := source;
      this.width := width;
      this.height := height;
      ops := [];
    }

    method Brightness(amount: real)
      modifies this
      ensures ops == old(ops) + [Op.Brightness(amount)]
    {
      ops := ops + [Op.Brightness(amount)];
    }

    method Contrast(amount: real)
      modifies this
      ensures ops == old(ops) + [Op.Contrast(amount)]
    {
      ops := ops + [Op.Contrast(amount)];
    }

    method Greyscale()
      modifies this
      ensures ops == old(ops) + [Op.Greyscale]
    {
      ops := ops + [Op.Greyscale];
    }

    method Invert()
      modifies this
      ensures ops == old(ops) + [Op.Invert]
    {
      ops := ops + [Op.Invert];
    }

    /** Renders `text` in `font` inside the box at (x, y) of the given extent. */
    method Print(font: Font, x: real, y: real, text: string,
                 alignX: HorizontalAlign, alignY: VerticalAlign, maxWidth: nat, maxHeight: nat)
      modifies this
      ensures ops == old(ops) + [Op.Print(font, x, y, text, alignX, alignY, maxWidth, maxHeight)]
    {
      ops := ops + [Op.Print(font, x, y, text, alignX, alignY, maxWidth, maxHeight)];
    }

    /** Blends `src` over this image with its top-left corner at (x, y). */
    method Composite(src: Image, x: real, y: real, mode: BlendMode, opacitySource: real)
      modifies this
      ensures ops == old(ops) + [Op.Composite(src.source, src.width, src.height, x, y, mode, opacitySource)]
    {
      ops := ops + [Op.Composite(src.source, src.width, src.height, x, y, mode, opacitySource)];
    }
  }
}
