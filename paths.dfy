/** The output-path resolver of the watermark tool (`prepareOutputFilename`).
    The input file name is split on every `.` exactly as JavaScript's
    `String.prototype.split('.')` does; only the first two segments are used:
    the first as the name, the second (absent when there is no dot) as the
    format. */
module Paths {
  import opened Wrappers

  /** Directory every output file is written to. */
  const OutputDir: string := "./images/outputs/"

  /** What separates the name from the format in an output file name. */
  const Marker: string := "-with-watermark."

  /** The allow-list of formats, compared exactly (case-sensitively). */
  const SupportedFormats: seq<string> := ["jpg", "jpeg", "png", "bmp", "tiff", "gif"]

  /** The error `prepareOutputFilename` throws ("Wrong file format: <fileName>"). */
  datatype PathError = WrongFileFormat(fileName: string)

  /** Glues segments back together with `.` between them (`Array.prototype.join('.')`). */
  function Join(parts: seq<string>): string
  {
    if |parts| == 0 then ""
    else if |parts| == 1 then parts[0]
    else parts[0] + "." + Join(parts[1..])
  }

  /** `s.split('.')`: never empty, no segment holds a dot, and joining the
      segments with dots gives back `s`. */
  function Split(s: string): (parts: seq<string>)
    ensures |parts| >= 1
    ensures forall i :: 0 <= i < |parts| ==> '.' !in parts[i]
    ensures Join(parts) == s
    decreases |s|
  {
    if s == [] then [""]
    else
      var rest := Split(s[1..]);
      if s[0] == '.' then
        assert ([""] + rest)[1..] == rest;
        [""] + rest
      else
        var parts := [[s[0]] + rest[0]] + rest[1..];
        assert parts[1..] == rest[1..];
        assert |rest| > 1 ==> Join(rest) == rest[0] + "." + Join(rest[1..]);
        assert s == [s[0]] + s[1..];
        parts
  }

  /** The first segment: `name` in `const [name, format] = fileName.split('.')`.
      It is the longest dot-free prefix of the file name. */
  function Name(fileName: string): (name: string)
    ensures '.' !in name && name <= fileName
    ensures |name| < |fileName| ==> fileName[|name|] == '.'
  {
    var parts := Split(fileName);
    JoinHead(parts);
    parts[0]
  }

  /** The second segment, or `None` (JavaScript `undefined`) when there is no dot.
      It is the dot-free stretch between the first dot and the next one (or the end). */
  function Format(fileName: string): (format: Option<string>)
    ensures format.None? <==> '.' !in fileName
    ensures format.Some? ==> '.' !in format.value
    ensures format.Some? ==> var prefix := Name(fileName) + "." + format.value;
      prefix <= fileName && (|prefix| < |fileName| ==> fileName[|prefix|] == '.')
  {
    var parts := Split(fileName);
    JoinHead(parts);
    if |parts| > 1 then
      JoinHead(parts[1..]);
      Some(parts[1])
    else
      None
  }

  /** The first segment starts the joined string and, when more follow, is followed by a dot. */
  lemma JoinHead(parts: seq<string>)
    requires |parts| >= 1
    ensures parts[0] <= Join(parts)
    ensures |parts| > 1 ==> Join(parts) == parts[0] + "." + Join(parts[1..])
  {
  }

  /** `prepareOutputFilename(fileName)`: the output path, or the error it throws
      when the name is empty or the format is missing or not in the allow-list. */
  function PrepareOutputFilename(fileName: string): (r: Result<string, PathError>)
    ensures r.Failure? ==> r.error == WrongFileFormat(fileName)
    ensures r.Success? ==> OutputDir <= r.value && |r.value| > |OutputDir| + |Marker|
    ensures r.Success? ==> Name(fileName) != [] && Format(fileName).Some?
  {
    var name := Name(fileName);
    var format := Format(fileName);
    if name == "" || format.None? || format.value !in SupportedFormats then
      Failure(WrongFileFormat(fileName))
    else
      Success(OutputDir + name + Marker + format.value)
  }

  // ----- facts about Split -----

  /** A string without dots is a single segment. */
  lemma {:induction false} SplitNoDot(s: string)
    requires '.' !in s
    ensures Split(s) == [s]
    decreases |s|
  {
    if s != [] {
      SplitNoDot(s[1..]);
    }
  }

  /** A dot-free prefix followed by a dot is the first segment; the rest is split on its own. */
  lemma {:induction false} SplitAtDot(a: string, t: string)
    requires '.' !in a
    ensures Split(a + "." + t) == [a] + Split(t)
    decreases |a|
  {
    var s := a + "." + t;
    if a == [] {
      assert s[0] == '.' && s[1..] == t;
    } else {
      assert s[1..] == a[1..] + "." + t;
      SplitAtDot(a[1..], t);
      assert [s[0]] + a[1..] == a;
    }
  }

  /** The other direction of the inverse: splitting dot-free segments joined with
      dots gives back exactly those segments. */
  lemma {:induction false} SplitJoin(parts: seq<string>)
    requires |parts| >= 1
    requires forall i :: 0 <= i < |parts| ==> '.' !in parts[i]
    ensures Split(Join(parts)) == parts
    decreases |parts|
  {
    if |parts| == 1 {
      SplitNoDot(parts[0]);
    } else {
      SplitJoin(parts[1..]);
      SplitAtDot(parts[0], Join(parts[1..]));
      assert [parts[0]] + parts[1..] == parts;
    }
  }

  /** The first segment of `ext + rest` is `ext` when `rest` is empty or starts a new segment. */
  lemma SplitHead(ext: string, rest: string)
    requires '.' !in ext
    requires rest == [] || rest[0] == '.'
    ensures Split(ext + rest)[0] == ext
  {
    if rest == [] {
      assert ext + rest == ext;
      SplitNoDot(ext);
    } else {
      assert ext + rest == ext + "." + rest[1..];
      SplitAtDot(ext, rest[1..]);
    }
  }

  /** Every supported format is a plain word without dots. */
  lemma SupportedFormatsHaveNoDot(ext: string)
    requires ext in SupportedFormats
    ensures '.' !in ext && ext != []
  {
  }

  // ----- the resolver's promises -----

  /** `name.ext` with a non-empty dot-free name and an allowed format (optionally followed
      by more `.`-segments, which are ignored) yields `./images/outputs/name-with-watermark.ext`. */
  lemma AcceptsNameDotFormat(name: string, ext: string, rest: string)
    requires name != [] && '.' !in name
    requires ext in SupportedFormats
    requires rest == [] || rest[0] == '.'
    ensures PrepareOutputFilename(name + "." + ext + rest) == Success(OutputDir + name + Marker + ext)
  {
    SupportedFormatsHaveNoDot(ext);
    assert name + "." + ext + rest == name + "." + (ext + rest);
    SplitAtDot(name, ext + rest);
    SplitHead(ext, rest);
  }

  /** Converse of AcceptsNameDotFormat: an accepted file name is a non-empty dot-free name,
      a dot, an allowed format, and then nothing or a further `.`-segment; the path is
      built from exactly those two parts. */
  lemma AcceptedHasNameDotFormat(fileName: string)
    requires PrepareOutputFilename(fileName).Success?
    ensures var name, ext := Name(fileName), Format(fileName).value;
      && name != [] && '.' !in name && ext in SupportedFormats
      && |fileName| >= |name| + 1 + |ext|
      && fileName[..|name| + 1 + |ext|] == name + "." + ext
      && (|fileName| == |name| + 1 + |ext| || fileName[|name| + 1 + |ext|] == '.')
      && PrepareOutputFilename(fileName).value == OutputDir + name + Marker + ext
  {
    var parts := Split(fileName);
    var name, ext := parts[0], parts[1];
    assert Join(parts) == name + "." + Join(parts[1..]);
    if |parts| == 2 {
      assert fileName == name + "." + ext;
    } else {
      assert Join(parts[1..]) == ext + "." + Join(parts[2..]);
      assert fileName == (name + "." + ext) + "." + Join(parts[2..]);
    }
  }

  /** A file name without a dot has no format (`undefined`) and is rejected. */
  lemma RejectsWithoutDot(fileName: string)
    requires '.' !in fileName
    ensures Format(fileName) == None
    ensures PrepareOutputFilename(fileName) == Failure(WrongFileFormat(fileName))
  {
    SplitNoDot(fileName);
  }

  /** A file name starting with a dot (`.png`, `../x.png`) has an empty name and is rejected. */
  lemma RejectsLeadingDot(fileName: string)
    requires |fileName| > 0 && fileName[0] == '.'
    ensures Name(fileName) == []
    ensures PrepareOutputFilename(fileName) == Failure(WrongFileFormat(fileName))
  {
    assert fileName == [] + "." + fileName[1..];
    SplitAtDot([], fileName[1..]);
  }

  /** Whatever follows the name, a second segment outside the allow-list is rejected:
      the comparison is exact, so `JPG` or `Png` fail, and so does `b` in `a.b.jpg`. */
  lemma RejectsUnsupportedFormat(name: string, ext: string, rest: string)
    requires '.' !in name && '.' !in ext
    requires ext !in SupportedFormats
    requires rest == [] || rest[0] == '.'
    ensures Format(name + "." + ext + rest) == Some(ext)
    ensures PrepareOutputFilename(name + "." + ext + rest).Failure?
  {
    assert name + "." + ext + rest == name + "." + (ext + rest);
    SplitAtDot(name, ext + rest);
    SplitHead(ext, rest);
  }

  /** Concatenating dot-free strings gives a dot-free string. */
  lemma NoDotInConcat(a: string, b: string)
    requires '.' !in a && '.' !in b
    ensures '.' !in a + b
  {
    assert forall c :: c in a + b ==> c in a || c in b;
  }

  /** The output directory is a dot followed by a dot-free folder name. */
  lemma OutputDirShape()
    ensures OutputDir == "." + "/images/outputs/" && '.' !in "/images/outputs/"
  {
  }

  /** The marker is a dot-free word followed by a dot. */
  lemma MarkerShape()
    ensures Marker == "-with-watermark" + "." && '.' !in "-with-watermark"
  {
  }

  /** Regrouping the pieces of an output path around its two dots. */
  lemma Regroup(dir: string, name: string, tag: string, ext: string)
    ensures ("." + dir) + name + (tag + ".") + ext == [] + "." + ((dir + name + tag) + "." + ext)
  {
  }

  /** How an output path built from a dot-free name and format splits on dots. */
  lemma SplitOutputPath(name: string, ext: string)
    requires '.' !in name && '.' !in ext
    ensures Split(OutputDir + name + Marker + ext) == ["", "/images/outputs/" + name + "-with-watermark", ext]
  {
    var dir, tag := "/images/outputs/", "-with-watermark";
    OutputDirShape();
    MarkerShape();
    NoDotInConcat(dir, name);
    NoDotInConcat(dir + name, tag);
    Regroup(dir, name, tag, ext);
    SplitAtDot([], (dir + name + tag) + "." + ext);
    SplitAtDot(dir + name + tag, ext);
    SplitNoDot(ext);
  }

  /** The dots of an output path: the leading one of `./images/outputs/` and the one
      before the format. So the name part can hold no `..` component, and the path stays
      inside the output directory; the format is the last segment. */
  lemma OutputPathSegments(fileName: string)
    requires PrepareOutputFilename(fileName).Success?
    ensures Split(PrepareOutputFilename(fileName).value)
      == ["", "/images/outputs/" + Name(fileName) + "-with-watermark", Format(fileName).value]
  {
    AcceptedHasNameDotFormat(fileName);
    SupportedFormatsHaveNoDot(Format(fileName).value);
    SplitOutputPath(Name(fileName), Format(fileName).value);
  }

  /** The output path records the name and the format: two accepted file names that
      resolve to the same path agree on their first two segments. */
  lemma OutputDeterminesNameAndFormat(a: string, b: string)
    requires PrepareOutputFilename(a).Success? && PrepareOutputFilename(b).Success?
    requires PrepareOutputFilename(a).value == PrepareOutputFilename(b).value
    ensures Name(a) == Name(b) && Format(a) == Format(b)
  {
    OutputPathSegments(a);
    OutputPathSegments(b);
    var ma := "/images/outputs/" + Name(a) + "-with-watermark";
    var mb := "/images/outputs/" + Name(b) + "-with-watermark";
    assert ma == mb;
    assert |Name(a)| == |Name(b)|;
    assert Name(a) == ma[16..|ma| - 15];
    assert Name(b) == mb[16..|mb| - 15];
  }

  /** `test.jpg`, the prompt's default input, resolves to its marked copy. */
  lemma ExampleDefaultInput()
    ensures PrepareOutputFilename("test.jpg") == Success("./images/outputs/test-with-watermark.jpg")
  {
    assert "test" + "." + "jpg" + "" == "test.jpg" by {}
    assert OutputDir + "test" + Marker + "jpg" == "./images/outputs/test-with-watermark.jpg" by {}
    AcceptsNameDotFormat("test", "jpg", "");
  }

  /** Segments after the second are ignored: `a.jpg.png` keeps `jpg`. */
  lemma ExampleThirdSegmentIgnored()
    ensures PrepareOutputFilename("a.jpg.png") == Success("./images/outputs/a-with-watermark.jpg")
  {
    assert "a" + "." + "jpg" + ".png" == "a.jpg.png" by {}
    assert OutputDir + "a" + Marker + "jpg" == "./images/outputs/a-with-watermark.jpg" by {}
    AcceptsNameDotFormat("a", "jpg", ".png");
  }

  /** Only the second segment is the format: `a.b.jpg` is rejected because of `b`. */
  lemma ExampleSecondSegmentDecides()
    ensures PrepareOutputFilename("a.b.jpg").Failure?
  {
    assert "a" + "." + "b" + ".jpg" == "a.b.jpg" by {}
    RejectsUnsupportedFormat("a", "b", ".jpg");
  }

  /** The allow-list is compared case-sensitively. */
  lemma ExampleCaseSensitive()
    ensures PrepareOutputFilename("x.JPG").Failure?
    ensures PrepareOutputFilename("x.Png").Failure?
  {
    assert "x" + "." + "JPG" + "" == "x.JPG" by {}
    assert "x" + "." + "Png" + "" == "x.Png" by {}
    RejectsUnsupportedFormat("x", "JPG", "");
    RejectsUnsupportedFormat("x", "Png", "");
  }
}
