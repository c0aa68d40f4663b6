# Watermark manager — a Dafny model of its core

The watermark manager is an interactive command-line tool. It stamps a text or
image watermark onto a picture from `images/`. It can also apply one cosmetic
filter, and it writes the result to
`images/outputs/<name>-with-watermark.<ext>`. All pixel work is done by the Jimp
image library. This project models the logic the tool implements itself:

- **Output-path resolver** (`prepareOutputFilename`, module `Paths`). The file
  name is split on `.` exactly as JavaScript's `split('.')` does. The first
  segment is the name and the second segment is the format. The name must be
  non-empty, and the format must be one of `jpg jpeg png bmp tiff gif`, matched
  case-sensitively. Otherwise the resolver throws. `Paths.Split` and joining
  with dots are proved inverse in both directions: joining the segments gives back
  the input, and splitting dot-free segments joined with dots gives back the
  segments. The lemmas state both directions of acceptance, each way a name is
  rejected, and where dots can appear in an output path. That last fact means no `..` component can appear in the path. They also
  prove that the output path records the name and the format.
- **Edit dispatch** (`editImage`, module `Editing`). The four menu strings select
  brightness(0.5), contrast(0.5), greyscale or invert. Any other value does
  nothing, including `undefined` (here `None`). The method works on the same image
  object and returns it.
- **Overlay placement** (module `Placement`). The offset is `W/2 - w/2` along each
  axis, computed exactly. It centres the overlay and gives equal margins on both
  sides. It is negative exactly when the overlay is larger than the base, and it
  is a whole number exactly when `W` and `w` have the same parity.
- **The two pipelines** (`addTextWatermarkToImage`, `addImageWatermarkToImage`,
  module `Pipeline`). Each is an imperative method that updates a Jimp-like
  `Image` object in place (module `Imaging`). The outside world is a parameter:
  which files exist, which decode and to what size, whether the font loads, and
  which output paths can be written. Each method is proved against a fixed
  schedule of steps and the generic rule "stop after the first step that throws"
  (`Pipeline.Completed`). From that rule the lemmas derive three facts. A run
  writes, and then restarts the prompt, exactly when every check passes. The image
  variant checks the input before the watermark. The restart happens only after a
  successful write.

## Model

| member | source | states |
|---|---|---|
| Paths.Split | app.js:84 | `split('.')` returns at least one segment, no segment contains a dot, and joining the segments with dots gives back the input |
| Paths.SplitJoin | app.js:84 | splitting a non-empty list of dot-free segments joined with dots gives back exactly that list, so `split('.')` and joining are inverse |
| Paths.Name | app.js:84 | `name` is the longest dot-free prefix of the file name: it ends at the first dot, or at the end when there is none |
| Paths.Format | app.js:84 | `format` is undefined exactly when the name has no dot; otherwise it is the dot-free stretch after the first dot, up to the next dot or the end |
| Paths.SplitNoDot | app.js:84 | a name without dots splits into itself alone |
| Paths.SplitAtDot | app.js:84 | everything before the first dot is the first segment; the rest is split independently |
| Paths.PrepareOutputFilename | app.js:83-92 | a failure carries the offending file name; a success lies under `./images/outputs/` and implies a non-empty name and a present format |
| Paths.AcceptsNameDotFormat | app.js:84-91 | `name.ext[.more]` with a non-empty dot-free name and an allowed `ext` yields exactly `./images/outputs/name-with-watermark.ext` |
| Paths.AcceptedHasNameDotFormat | app.js:84-91 | conversely, every accepted name has the form `name.ext` followed by nothing or a further dot-segment, and the path is built from exactly that name and format |
| Paths.RejectsWithoutDot | app.js:84-90 | a name with no dot has an undefined format and is rejected with `WrongFileFormat` |
| Paths.RejectsLeadingDot | app.js:84-90 | a name starting with a dot (`.png`, `../x.png`) has an empty name part and is rejected |
| Paths.RejectsUnsupportedFormat | app.js:84-90 | a second segment outside the allow-list is rejected whatever follows it (exact, case-sensitive comparison) |
| Paths.OutputPathSegments | app.js:91 | an output path has dots only at its start and before the format, so its name part holds no `..` and the format is its last segment |
| Paths.OutputDeterminesNameAndFormat | app.js:84-91 | two accepted names that give the same output path agree on name and format |
| Paths.ExampleDefaultInput | app.js:83-91 | `test.jpg` resolves to `./images/outputs/test-with-watermark.jpg` |
| Paths.ExampleThirdSegmentIgnored | app.js:84-91 | `a.jpg.png` resolves to `./images/outputs/a-with-watermark.jpg` |
| Paths.ExampleSecondSegmentDecides | app.js:84-90 | `a.b.jpg` is rejected because `b` is not a supported format |
| Paths.ExampleCaseSensitive | app.js:85-86 | `x.JPG` and `x.Png` are rejected |
| Editing.EditOps | app.js:8-23 | at most one operation and always a filter; no operation exactly when the value is not one of the menu's four choices (`undefined` included) |
| Editing.EditImage | app.js:5-26 | returns the very object it was given, whose log gains exactly the selected filter; with `undefined` the image is left untouched |
| Editing.EachChoiceSelectsOneFilter | app.js:9-20 | the four menu choices select brightness(0.5), contrast(0.5), greyscale and invert respectively, all distinct |
| Editing.NoEditIsIdentity | app.js:21-25 | declining to edit (`undefined`) leaves the image's operations unchanged |
| Placement.CentreOffset | app.js:66-67 | `x + w/2 = W/2`, equal margins on both sides, `2x = W - w`, and `x < 0` exactly when the overlay is larger than the base |
| Placement.WholeOffsetIffSameParity | app.js:66-67 | the offset is a whole number exactly when base and overlay extents have the same parity |
| Pipeline.InputPath | app.js:30 | input and watermark files are looked up under `./images/`, and the file name can be read back from the path |
| Pipeline.Throws | app.js:30-44 | only the existence checks, the reads, the font load, path resolution and the write can throw; a write throws whenever its name does not resolve |
| Pipeline.TextSchedule | app.js:29-46 | the text pipeline has 8 steps, starts with the input check, ends with the restart, checks each file before reading it and resolves the output path before writing it |
| Pipeline.ImageSchedule | app.js:53-76 | the image pipeline has 9 steps, starts with the input check, ends with the restart, checks each file before reading it and resolves the output path before writing it |
| Pipeline.Completed | app.js:29-49 | the steps before the returned count all succeed and the step at the count (if any) throws: control leaves the try block at the first throw |
| Pipeline.TextStopsAt | app.js:29-46 | the text pipeline stops after the input check, the read, the font load, path resolution or the write, whichever fails first, or runs all 8 steps |
| Pipeline.ImageStopsAt | app.js:53-76 | the image pipeline stops at the input check, the watermark check, either read, path resolution or the write, whichever fails first, or runs all 9 steps |
| Pipeline.AddTextWatermarkToImage | app.js:28-50 | the completed steps are the schedule up to the first throw; it writes exactly when nothing threw, at the resolved path, with the input's dimensions and the centred text print followed by the selected filter |
| Pipeline.AddImageWatermarkToImage | app.js:52-81 | the completed steps are the schedule up to the first throw; it writes exactly when nothing threw, at the resolved path, with the input's dimensions and the centred composite (opacity 0.5) followed by the selected filter |
| Pipeline.CompletesIffNothingThrows | app.js:29-49 | a schedule runs to its end exactly when none of its steps throws |
| Pipeline.TextWritesIff | app.js:30-46 | the text pipeline writes and restarts exactly when the input exists and decodes, the font loads, the name resolves and the path is writable |
| Pipeline.ImageWritesIff | app.js:54-76 | the image pipeline writes and restarts exactly when both files exist and decode, the name resolves and the path is writable |
| Pipeline.ImageChecksInputFirst | app.js:54-63 | a missing input stops the image pipeline before the watermark is checked; a missing watermark stops it right after the input check |
| Pipeline.RestartOnlyAfterWrite | app.js:74-76 | a run restarts the prompt exactly when it ran to the end, and then the output path was resolved and written |
| Pipeline.SchedulesEndWithWriteThenRestart | app.js:44-46 | both pipelines resolve the path, then write, then restart, and restart nowhere else |

The Jimp stand-in in `Imaging` (the `Image` class and its `Brightness`,
`Contrast`, `Greyscale`, `Invert`, `Print` and `Composite` methods) is library
behaviour, not code of this repository. It only appends a tag for each operation
to the image's log.

Three behaviours of the code are easy to misread, and the model follows the code
in each:

- A failed run does not return to the prompt. The catch blocks (app.js:47-49,
  app.js:78-80) only log a message, and `startApp` is called only after a
  successful write.
- The file name is not split only "on the first dot". Only the second
  `.`-segment is taken as the format, so `a.b.jpg` is rejected.
- The overlay offset uses exact division, not integer or floor division. It can
  be a half pixel.

## Left out

- Pixel data and the Jimp library itself are not modelled: decoding, encoding at
  quality 100, font loading, glyph rendering, the blend maths of `composite`, and
  the brightness, contrast, greyscale and invert transforms. Operations are opaque
  tags on an image. For the same reason nothing is claimed about invert being an
  involution or greyscale being idempotent.
- How Jimp rounds a half-pixel overlay offset is not modelled. It is floating
  point inside foreign code.
- `fs.existsSync`, `Jimp.read`, `Jimp.loadFont` and `writeAsync` are not real
  I/O here. They are answered by the `World` parameter (sets and a map), which
  does not change during a run.
- A failure of `writeAsync` is modelled per output path. The reason (disk,
  encoding) is not.
- The interactive prompt flow of `startApp` is not modelled: the `inquirer`
  questions, `process.exit`, and what the restarted prompt does. A restart is a
  step recorded in the run.
- Console messages (`console.log`, `console.warn`) are not modelled.
- Pipeline.Throws treats `image.print`, `image.composite`, the four filters,
  `quality(100)` and the call to `startApp()` as never throwing. With the constant
  arguments the code passes, Jimp's argument checks accept them. `startApp` is
  async, so calling it cannot throw synchronously inside the try block.
- Async scheduling is not modelled. Every awaited step runs to completion before
  the next one, so the steps are ordinary sequential steps.
