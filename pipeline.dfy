/** The two watermarking pipelines (`addTextWatermarkToImage` and
    `addImageWatermarkToImage`). Each runs a fixed schedule of steps inside one
    try/catch: the first step that throws sends control to the catch, which only
    logs, so nothing after it runs; in particular nothing is written and the prompt
    is not restarted. The outside world (which files exist, which decode and to what
    size, whether the font loads, which output paths can be written) is a parameter. */
module Pipeline {
  import opened Wrappers
  import opened Paths
  import opened Imaging
  import opened Editing
  import opened Placement

  datatype Size = Size(width: nat, height: nat)

  /** What the file system and the image library will answer during one run. */
  datatype World = World(
    present: set<string>,             // paths for which `fs.existsSync` is true
    decodable: map<string, Size>,     // paths `Jimp.read` decodes, with their dimensions
    fontLoads: bool,                  // whether the bundled font loads
    writable: set<string>)            // output paths `writeAsync` can write

  /** The directory input and watermark files are looked up in. */
  const ImagesDir: string := "./images/"

  /** Where input and watermark files are looked up: the file name under `ImagesDir`,
      from which it can be read back. */
  function InputPath(fileName: string): (path: string)
    ensures ImagesDir <= path && path[|ImagesDir|..] == fileName
  {
    ImagesDir + fileName
  }

  /** One step of a pipeline, in the order the code performs them. */
  datatype Step =
    | CheckExists(path: string)                 // `fs.existsSync(path)`, throws when false
    | ReadImage(path: string)                   // `Jimp.read(path)`
    | LoadFont                                  // `Jimp.loadFont(FONT_SANS_32_BLACK)`
    | PrintText(text: string)                   // `image.print(...)`, centred
    | CompositeWatermark                        // `image.composite(watermark, x, y, ...)`
    | Edit(editType: Option<string>)            // `editImage(image, editType)`
    | ResolveOutput(fileName: string)           // `prepareOutputFilename(fileName)`
    | WriteOutput(fileName: string)             // `writeAsync` of the path resolved from fileName
    | Restart                                   // `startApp()`

  /** Whether a step throws in `world`. Only the checks, the reads, the font load,
      path resolution and the write can throw; the image operations, the edit and
      the restart never do. A write throws whenever its path does not resolve. */
  predicate Throws(world: World, step: Step): (throws: bool)
    ensures throws ==> step.CheckExists? || step.ReadImage? || step.LoadFont?
                       || step.ResolveOutput? || step.WriteOutput?
    ensures step.WriteOutput? && PrepareOutputFilename(step.fileName).Failure? ==> throws
  {
    match step
    case CheckExists(p) => p !in world.present
    case ReadImage(p) => p !in world.decodable
    case LoadFont => !world.fontLoads
    case ResolveOutput(f) => PrepareOutputFilename(f).Failure?
    case WriteOutput(f) =>
      PrepareOutputFilename(f).Failure? || PrepareOutputFilename(f).value !in world.writable
    case _ => false
  }

  /** How many steps of `schedule` complete before the first one that throws:
      all steps before that point succeed, and the step at that point (if any) throws. */
  function Completed(world: World, schedule: seq<Step>): (n: nat)
    ensures n <= |schedule|
    ensures forall i :: 0 <= i < n ==> !Throws(world, schedule[i])
    ensures n < |schedule| ==> Throws(world, schedule[n])
  {
    if schedule == [] || Throws(world, schedule[0]) then 0
    else 1 + Completed(world, schedule[1..])
  }

  /** Each file is checked for existence before it is read, and each output path is
      resolved before it is written. */
  predicate CheckedBeforeUse(schedule: seq<Step>)
  {
    && (forall i :: 0 <= i < |schedule| && schedule[i].ReadImage? ==>
          CheckExists(schedule[i].path) in schedule[..i])
    && (forall i :: 0 <= i < |schedule| && schedule[i].WriteOutput? ==>
          ResolveOutput(schedule[i].fileName) in schedule[..i])
  }

  /** The steps of the text pipeline (app.js:28-50). */
  function TextSchedule(inputFile: string, text: string, editType: Option<string>): (s: seq<Step>)
    ensures |s| == 8 && CheckedBeforeUse(s)
    ensures s[0] == CheckExists(InputPath(inputFile)) && s[|s| - 1] == Restart
  {
    var s := [CheckExists(InputPath(inputFile)), ReadImage(InputPath(inputFile)), LoadFont,
              PrintText(text), Edit(editType), ResolveOutput(inputFile), WriteOutput(inputFile), Restart];
    assert s[0] in s[..1] && s[5] in s[..6];
    s
  }

  /** The steps of the image pipeline (app.js:52-81): both existence checks, input first,
      come before both reads. */
  function ImageSchedule(inputFile: string, watermarkFile: string, editType: Option<string>): (s: seq<Step>)
    ensures |s| == 9 && CheckedBeforeUse(s)
    ensures s[0] == CheckExists(InputPath(inputFile)) && s[|s| - 1] == Restart
  {
    var s := [CheckExists(InputPath(inputFile)), CheckExists(InputPath(watermarkFile)),
              ReadImage(InputPath(inputFile)), ReadImage(InputPath(watermarkFile)),
              CompositeWatermark, Edit(editType), ResolveOutput(inputFile), WriteOutput(inputFile), Restart];
    assert s[0] in s[..2] && s[1] in s[..3] && s[6] in s[..7];
    s
  }

  /** The file a run writes: its path, the dimensions, and what was applied to the image. */
  datatype Output = Output(path: string, width: nat, height: nat, ops: seq<Op>)

  /** What one run did: the steps that completed, in order; whether control reached
      the catch; and the file written, if any. */
  datatype Run = Run(trace: seq<Step>, caught: bool, written: Option<Output>)

  /** None of the first `k` steps of `schedule` throws. */
  ghost predicate NoneThrowsBefore(world: World, schedule: seq<Step>, k: nat)
    requires k <= |schedule|
  {
    k == 0 || (NoneThrowsBefore(world, schedule, k - 1) && !Throws(world, schedule[k - 1]))
  }

  /** The step count is determined by the first throwing step: once the first `k`
      steps have run without throwing and the next one (if any) throws, exactly `k`
      steps complete. */
  lemma {:induction false} CompletedAt(world: World, schedule: seq<Step>, k: nat)
    requires k <= |schedule| && NoneThrowsBefore(world, schedule, k)
    requires k < |schedule| ==> Throws(world, schedule[k])
    ensures Completed(world, schedule) == k
  {
    if k > 0 {
      assert !Throws(world, schedule[0]) by {
        NoneThrowsPrefix(world, schedule, k, 1);
      }
      NoneThrowsShift(world, schedule, k);
      CompletedAt(world, schedule[1..], k - 1);
    }
  }

  /** A run that got past `k` steps got past every earlier point. */
  lemma {:induction false} NoneThrowsPrefix(world: World, schedule: seq<Step>, k: nat, j: nat)
    requires j <= k <= |schedule| && NoneThrowsBefore(world, schedule, k)
    ensures NoneThrowsBefore(world, schedule, j)
    decreases k
  {
    if j < k {
      NoneThrowsPrefix(world, schedule, k - 1, j);
    }
  }

  /** Dropping the first (non-throwing) step shifts the count by one. */
  lemma {:induction false} NoneThrowsShift(world: World, schedule: seq<Step>, k: nat)
    requires 0 < k <= |schedule| && NoneThrowsBefore(world, schedule, k)
    ensures NoneThrowsBefore(world, schedule[1..], k - 1)
  {
    if k > 1 {
      NoneThrowsShift(world, schedule, k - 1);
    }
  }

  /** Where the text pipeline stops: after the first step that throws, or at the end. */
  lemma TextStopsAt(world: World, inputFile: string, text: string, editType: Option<string>)
    ensures Completed(world, TextSchedule(inputFile, text, editType)) ==
      if InputPath(inputFile) !in world.present then 0
      else if InputPath(inputFile) !in world.decodable then 1
      else if !world.fontLoads then 2
      else if PrepareOutputFilename(inputFile).Failure? then 5
      else if PrepareOutputFilename(inputFile).value !in world.writable then 6
      else 8
  {
    var s := TextSchedule(inputFile, text, editType);
    assert NoneThrowsBefore(world, s, 0);
    if InputPath(inputFile) !in world.present { CompletedAt(world, s, 0); return; }
    assert NoneThrowsBefore(world, s, 1);
    if InputPath(inputFile) !in world.decodable { CompletedAt(world, s, 1); return; }
    assert NoneThrowsBefore(world, s, 2);
    if !world.fontLoads { CompletedAt(world, s, 2); return; }
    assert NoneThrowsBefore(world, s, 3);
    assert NoneThrowsBefore(world, s, 4);
    assert NoneThrowsBefore(world, s, 5);
    if PrepareOutputFilename(inputFile).Failure? { CompletedAt(world, s, 5); return; }
    assert NoneThrowsBefore(world, s, 6);
    if PrepareOutputFilename(inputFile).value !in world.writable { CompletedAt(world, s, 6); return; }
    assert NoneThrowsBefore(world, s, 7);
    assert NoneThrowsBefore(world, s, 8);
    CompletedAt(world, s, 8);
  }

  /** Where the image pipeline stops: after the first step that throws, or at the end. */
  lemma ImageStopsAt(world: World, inputFile: string, watermarkFile: string, editType: Option<string>)
    ensures Completed(world, ImageSchedule(inputFile, watermarkFile, editType)) ==
      if InputPath(inputFile) !in world.present then 0
      else if InputPath(watermarkFile) !in world.present then 1
      else if InputPath(inputFile) !in world.decodable then 2
      else if InputPath(watermarkFile) !in world.decodable then 3
      else if PrepareOutputFilename(inputFile).Failure? then 6
      else if PrepareOutputFilename(inputFile).value !in world.writable then 7
      else 9
  {
    var s := ImageSchedule(inputFile, watermarkFile, editType);
    assert NoneThrowsBefore(world, s, 0);
    if InputPath(inputFile) !in world.present { CompletedAt(world, s, 0); return; }
    assert NoneThrowsBefore(world, s, 1);
    if InputPath(watermarkFile) !in world.present { CompletedAt(world, s, 1); return; }
    assert NoneThrowsBefore(world, s, 2);
    if InputPath(inputFile) !in world.decodable { CompletedAt(world, s, 2); return; }
    assert NoneThrowsBefore(world, s, 3);
    if InputPath(watermarkFile) !in world.decodable { CompletedAt(world, s, 3); return; }
    assert NoneThrowsBefore(world, s, 4);
    assert NoneThrowsBefore(world, s, 5);
    assert NoneThrowsBefore(world, s, 6);
    if PrepareOutputFilename(inputFile).Failure? { CompletedAt(world, s, 6); return; }
    assert NoneThrowsBefore(world, s, 7);
    if PrepareOutputFilename(inputFile).value !in world.writable { CompletedAt(world, s, 7); return; }
    assert NoneThrowsBefore(world, s, 8);
    assert NoneThrowsBefore(world, s, 9);
    CompletedAt(world, s, 9);
  }

  /** `addTextWatermarkToImage(inputFile, text, editType)`. */
  method AddTextWatermarkToImage(world: World, inputFile: string, text: string, editType: Option<string>)
    returns (run: Run)
    ensures var s := TextSchedule(inputFile, text, editType);
      && run.trace == s[..Completed(world, s)]
      && (run.caught <==> Completed(world, s) < |s|)
    ensures run.written.Some? <==> !run.caught
    ensures run.written.Some? ==> PrepareOutputFilename(inputFile) == Success(run.written.value.path)
    ensures run.written.Some? ==>
      && InputPath(inputFile) in world.decodable
      && var size := world.decodable[InputPath(inputFile)];
      && run.written.value.width == size.width && run.written.value.height == size.height
      && run.written.value.ops
         == [Print(FontSans32Black, 0.0, 0.0, text, AlignCenter, AlignMiddle, size.width, size.height)]
            + EditOps(editType)
  {
    TextStopsAt(world, inputFile, text, editType);
    var steps := TextSchedule(inputFile, text, editType);
    var input := InputPath(inputFile);
    // each early return is a throw: the catch only logs, so the run ends there
    if input !in world.present {
      return Run(steps[..0], true, None);
    }
    if input !in world.decodable {
      return Run(steps[..1], true, None);
    }
    var size := world.decodable[input];
    var image := new Image.Read(input, size.width, size.height);
    if !world.fontLoads {
      return Run(steps[..2], true, None);
    }
    var font := FontSans32Black;
    image.Print(font, 0.0, 0.0, text, AlignCenter, AlignMiddle, image.width, image.height);
    ghost var marked := [Print(font, 0.0, 0.0, text, AlignCenter, AlignMiddle, size.width, size.height)];
    assert image.ops == marked;
    var _ := EditImage(image, editType);
    assert image.ops == marked + EditOps(editType);
    // the path is the argument of the write, so it is resolved before writing
    var path := PrepareOutputFilename(inputFile);
    if path.Failure? {
      return Run(steps[..5], true, None);
    }
    if path.value !in world.writable {
      return Run(steps[..6], true, None);
    }
    var output := Output(path.value, image.width, image.height, image.ops);
    // startApp() is reached only once the write has succeeded
    run := Run(steps, false, Some(output));
  }

  /** `addImageWatermarkToImage(inputFile, watermarkFile, editType)`. */
  method AddImageWatermarkToImage(world: World, inputFile: string, watermarkFile: string, editType: Option<string>)
    returns (run: Run)
    ensures var s := ImageSchedule(inputFile, watermarkFile, editType);
      && run.trace == s[..Completed(world, s)]
      && (run.caught <==> Completed(world, s) < |s|)
    ensures run.written.Some? <==> !run.caught
    ensures run.written.Some? ==> PrepareOutputFilename(inputFile) == Success(run.written.value.path)
    ensures run.written.Some? ==>
      && InputPath(inputFile) in world.decodable
      && InputPath(watermarkFile) in world.decodable
      && var base, mark := world.decodable[InputPath(inputFile)], world.decodable[InputPath(watermarkFile)];
      && run.written.value.width == base.width && run.written.value.height == base.height
      && run.written.value.ops
         == [Composite(InputPath(watermarkFile), mark.width, mark.height,
                       CentreOffset(base.width, mark.width), CentreOffset(base.height, mark.height),
                       BlendSourceOver, 0.5)]
            + EditOps(editType)
  {
    ImageStopsAt(world, inputFile, watermarkFile, editType);
    var steps := ImageSchedule(inputFile, watermarkFile, editType);
    var input, mark := InputPath(inputFile), InputPath(watermarkFile);
    // each early return is a throw: the catch only logs, so the run ends there
    if input !in world.present {
      return Run(steps[..0], true, None);
    }
    if mark !in world.present {
      return Run(steps[..1], true, None);
    }
    if input !in world.decodable {
      return Run(steps[..2], true, None);
    }
    var baseSize := world.decodable[input];
    var image := new Image.Read(input, baseSize.width, baseSize.height);
    if mark !in world.decodable {
      return Run(steps[..3], true, None);
    }
    var markSize := world.decodable[mark];
    var watermark := new Image.Read(mark, markSize.width, markSize.height);
    var x := CentreOffset(image.width, watermark.width);
    var y := CentreOffset(image.height, watermark.height);
    image.Composite(watermark, x, y, BlendSourceOver, 0.5);
    ghost var marked := [Composite(mark, markSize.width, markSize.height,
      CentreOffset(baseSize.width, markSize.width), CentreOffset(baseSize.height, markSize.height),
      BlendSourceOver, 0.5)];
    assert image.ops == marked;
    var _ := EditImage(image, editType);
    assert image.ops == marked + EditOps(editType);
    // the path is the argument of the write, so it is resolved before writing
    var path := PrepareOutputFilename(inputFile);
    if path.Failure? {
      return Run(steps[..6], true, None);
    }
    if path.value !in world.writable {
      return Run(steps[..7], true, None);
    }
    var output := Output(path.value, image.width, image.height, image.ops);
    // startApp() is reached only once the write has succeeded
    run := Run(steps, false, Some(output));
  }

  // ----- the abort rule, stated over the schedules -----

  /** A schedule runs to its end exactly when none of its steps throws. */
  lemma CompletesIffNothingThrows(world: World, schedule: seq<Step>)
    ensures Completed(world, schedule) == |schedule|
        <==> forall i :: 0 <= i < |schedule| ==> !Throws(world, schedule[i])
  {
  }

  /** The text pipeline writes (and restarts) exactly when the input exists and
      decodes, the font loads, the name resolves, and the resolved path is writable. */
  lemma TextWritesIff(world: World, inputFile: string, text: string, editType: Option<string>)
    ensures var s := TextSchedule(inputFile, text, editType);
      Completed(world, s) == |s| <==>
        && InputPath(inputFile) in world.present
        && InputPath(inputFile) in world.decodable
        && world.fontLoads
        && PrepareOutputFilename(inputFile).Success?
        && PrepareOutputFilename(inputFile).value in world.writable
  {
    TextStopsAt(world, inputFile, text, editType);
  }

  /** The image pipeline writes (and restarts) exactly when both files exist and
      decode, the name resolves, and the resolved path is writable. */
  lemma ImageWritesIff(world: World, inputFile: string, watermarkFile: string, editType: Option<string>)
    ensures var s := ImageSchedule(inputFile, watermarkFile, editType);
      Completed(world, s) == |s| <==>
        && InputPath(inputFile) in world.present
        && InputPath(watermarkFile) in world.present
        && InputPath(inputFile) in world.decodable
        && InputPath(watermarkFile) in world.decodable
        && PrepareOutputFilename(inputFile).Success?
        && PrepareOutputFilename(inputFile).value in world.writable
  {
    ImageStopsAt(world, inputFile, watermarkFile, editType);
  }

  /** The image pipeline checks the input before the watermark: a missing input is
      reported (nothing completes) whether or not the watermark exists, and a missing
      watermark is reported only after the input's check has passed. */
  lemma ImageChecksInputFirst(world: World, inputFile: string, watermarkFile: string, editType: Option<string>)
    ensures var s := ImageSchedule(inputFile, watermarkFile, editType);
      && (InputPath(inputFile) !in world.present ==> Completed(world, s) == 0)
      && ((InputPath(inputFile) in world.present && InputPath(watermarkFile) !in world.present)
            ==> Completed(world, s) == 1)
  {
    ImageStopsAt(world, inputFile, watermarkFile, editType);
  }

  /** The restart is the last step and the write comes right before it: a run
      restarts the prompt exactly when it ran to the end, and then the output path
      was resolved and written. */
  lemma RestartOnlyAfterWrite(world: World, schedule: seq<Step>, inputFile: string)
    requires |schedule| >= 2
    requires schedule[|schedule| - 1] == Restart && Restart !in schedule[..|schedule| - 1]
    requires schedule[|schedule| - 2] == WriteOutput(inputFile)
    ensures var n := Completed(world, schedule);
      Restart in schedule[..n] <==> n == |schedule|
    ensures Restart in schedule[..Completed(world, schedule)]
        ==> PrepareOutputFilename(inputFile).Success?
            && PrepareOutputFilename(inputFile).value in world.writable
  {
    var n := Completed(world, schedule);
    var last := |schedule| - 1;
    if n == |schedule| {
      assert schedule[..n][last] == Restart;
    }
    if Restart in schedule[..n] {
      var i :| 0 <= i < n && schedule[..n][i] == Restart;
      assert i == last;
      assert !Throws(world, schedule[last - 1]);
    }
  }

  /** Both pipelines end by resolving the path, writing, and restarting, and neither
      restarts anywhere else. */
  lemma SchedulesEndWithWriteThenRestart(inputFile: string, watermarkFile: string, text: string, editType: Option<string>)
    ensures var t := TextSchedule(inputFile, text, editType);
      && t[|t| - 3..] == [ResolveOutput(inputFile), WriteOutput(inputFile), Restart]
      && Restart !in t[..|t| - 1]
    ensures var m := ImageSchedule(inputFile, watermarkFile, editType);
      && m[|m| - 3..] == [ResolveOutput(inputFile), WriteOutput(inputFile), Restart]
      && Restart !in m[..|m| - 1]
  {
  }
}
