/** The parsed per-file record the loader, the processor and the statistics
    work on. The file-format parser itself is outside the model: a record
    only carries the attributes the core reads, each of which may be absent. */
module Dataset {
  import opened Wrappers
  import opened Grids

  /** The patient-space position of a slice (ImagePositionPatient). */
  datatype Position = Position(x: real, y: real, z: real)

  /** Pixel data: one 2-D image, or an array of rank three whose first axis
      is iterated (a multi-frame file). */
  datatype PixelArray = Single(image: Grid) | Frames(frames: seq<Grid>)

  /** One parsed file: InstanceNumber, ImagePositionPatient, PixelSpacing
      (row and column spacing), SliceThickness and the pixel array.
      InstanceNumber is an IS (integer string) element; the core only ever
      uses its text, which the parsed value keeps, so that text is recorded. */
  datatype Record = Record(
    instanceNumber: Option<string>,
    imagePosition: Option<Position>,
    pixelSpacing: Option<(real, real)>,
    sliceThickness: Option<real>,
    pixels: PixelArray)

  /** Physical spacing in millimetres: row spacing, column spacing, slice thickness. */
  datatype Spacing = Spacing(row: real, col: real, thickness: real)
}
