/** The file service's string logic: the name and place of each output file,
    and the listing of the images in a folder. The file system is given as
    data: whether the folder exists, its entries and which paths are files. */
module FileService {
  import opened Text
  import opened Config
  import opened Paths
  import Sorting
  import Canvas

  /** Extensions, lower-cased and with their dot, of the images the
      application reads. */
  const SupportedFormats: set<string> := {".jpg", ".jpeg", ".png", ".gif", ".bmp", ".tiff", ".webp"}

  function IsSupported(name: string): (b: bool)
    ensures b ==> HasSuffix(name) && 4 <= |Suffix(name)| <= 5
    ensures b ==> EndsWith(name, Suffix(name)) && Suffix(name)[0] == '.'
  {
    Lower(Suffix(name)) in SupportedFormats
  }

  /** The file to be watermarked, split the way `pathlib` splits it: its
      parent directory (`.` when it has none) and its name. */
  datatype InputFile = InputFile(parent: string, name: string)

  /** The configured output directory, or a `watermarked` folder next to the
      input. */
  function OutputDir(input: InputFile, cfg: OutputConfig): (d: string)
    ensures cfg.outputDir != "" ==> d == cfg.outputDir
    ensures cfg.outputDir == "" ==> d == PathJoin(input.parent, "watermarked")
  {
    if cfg.outputDir != "" then cfg.outputDir else PathJoin(input.parent, "watermarked")
  }

  /** `_` and the configured suffix, or nothing when it is empty. */
  function SuffixPart(suffix: string): (r: string)
    ensures suffix == "" <==> r == ""
    ensures suffix != "" ==> r[0] == '_' && r[1..] == suffix
  {
    if suffix != "" then "_" + suffix else ""
  }

  /** The new stem. "numbered" appends the one-based index with three digits,
      "timestamp" appends `token` (eight characters of a random UUID), and any
      other rule keeps the stem; a non-empty configured suffix then follows
      after one more underscore. */
  function NewName(stem: string, cfg: OutputConfig, index: int, token: string): (r: string)
    ensures |stem| <= |r| && r[..|stem|] == stem
    ensures EndsWith(r, SuffixPart(cfg.suffix))
    ensures cfg.nameRule != "numbered" && cfg.nameRule != "timestamp" ==>
      r == stem + SuffixPart(cfg.suffix)
  {
    var base :=
      if cfg.nameRule == "original" then stem
      else if cfg.nameRule == "numbered" then stem + "_" + FormatZeroPadded(index + 1, 3)
      else if cfg.nameRule == "timestamp" then stem + "_" + token
      else stem;
    var r := base + SuffixPart(cfg.suffix);
    assert r[..|stem|] == base[..|stem|];
    assert r[|r| - |SuffixPart(cfg.suffix)|..] == SuffixPart(cfg.suffix);
    r
  }

  /** The input's own extension in lower case when the format is
      "keep_original", otherwise a dot and the format in lower case. */
  function Extension(name: string, cfg: OutputConfig): (e: string)
    ensures cfg.outputFormat == "keep_original" ==> e == Lower(Suffix(name))
    ensures cfg.outputFormat != "keep_original" ==>
      |e| == |cfg.outputFormat| + 1 && e[0] == '.' && e[1..] == Lower(cfg.outputFormat)
  {
    if cfg.outputFormat == "keep_original" then Lower(Suffix(name))
    else "." + Lower(cfg.outputFormat)
  }

  function OutputFileName(input: InputFile, cfg: OutputConfig, index: int, token: string): string {
    NewName(Stem(input.name), cfg, index, token) + Extension(input.name, cfg)
  }

  /** `generate_output_path`: the output file name inside the output
      directory. */
  function GenerateOutputPath(input: InputFile, cfg: OutputConfig, index: int, token: string): (p: string)
    ensures EndsWith(p, OutputFileName(input, cfg, index, token))
    ensures cfg.outputDir != "" && cfg.outputDir != "." && !EndsWith(cfg.outputDir, "/") ==>
      p == cfg.outputDir + "/" + OutputFileName(input, cfg, index, token)
    ensures cfg.outputDir == "" ==>
      p == PathJoin(PathJoin(input.parent, "watermarked"), OutputFileName(input, cfg, index, token))
  {
    var name := OutputFileName(input, cfg, index, token);
    var p := PathJoin(OutputDir(input, cfg), name);
    p
  }

  /** The default output settings keep the stem, add `_` and the default
      suffix `_watermarked` (two underscores in all) and write JPEG. */
  lemma DefaultOutputName(parent: string, index: int, token: string)
    ensures OutputFileName(InputFile(parent, "photo.PNG"), DefaultOutput, index, token) ==
      "photo__watermarked.jpg"
    ensures GenerateOutputPath(InputFile(parent, "photo.PNG"), DefaultOutput, index, token) ==
      PathJoin(PathJoin(parent, "watermarked"), "photo__watermarked.jpg")
  {
    DefaultNameParts(index, token);
  }

  lemma DefaultNameParts(index: int, token: string)
    ensures Stem("photo.PNG") == "photo"
    ensures NewName("photo", DefaultOutput, index, token) == "photo__watermarked"
    ensures Extension("photo.PNG", DefaultOutput) == ".jpg"
  {
    PhotoStem();
    DefaultNewName(index, token);
    DefaultExtension();
  }

  lemma PhotoStem()
    ensures Stem("photo.PNG") == "photo"
  {
    LastDotAt("photo.PNG", 5);
  }

  lemma DefaultNewName(index: int, token: string)
    ensures NewName("photo", DefaultOutput, index, token) == "photo__watermarked"
  {
    var rule := DefaultOutput.nameRule;
    assert rule[0] == 's';
    assert rule != "numbered" && rule != "timestamp";
    DefaultSuffixPart();
  }

  lemma DefaultSuffixPart()
    ensures "photo" + SuffixPart(DefaultOutput.suffix) == "photo__watermarked"
  {
    var sp := SuffixPart(DefaultOutput.suffix);
    assert sp == "_" + "_watermarked";
  }

  lemma DefaultExtension()
    ensures Extension("photo.PNG", DefaultOutput) == ".jpg"
  {
    assert Lower("JPG") == "jpg";
  }

  /** The output path ends in the chosen extension. */
  lemma OutputEndsWithExtension(input: InputFile, cfg: OutputConfig, index: int, token: string)
    ensures EndsWith(GenerateOutputPath(input, cfg, index, token), Extension(input.name, cfg))
  {
    var p := GenerateOutputPath(input, cfg, index, token);
    var name := OutputFileName(input, cfg, index, token);
    var e := Extension(input.name, cfg);
    assert name[|name| - |e|..] == e;
    EndsWithTrans(p, name, e);
  }

  lemma EndsWithTrans(s: string, t: string, u: string)
    requires EndsWith(s, t) && EndsWith(t, u)
    ensures EndsWith(s, u)
  {
    assert s[|s| - |u|..] == t[|t| - |u|..];
  }

  /** A path ending in an extension that lower-cases to `.jpg` or `.jpeg` is
      written as JPEG. */
  lemma JpegExtension(p: string, e: string)
    requires EndsWith(p, e) && Lower(e) in {".jpg", ".jpeg"}
    ensures Canvas.IsJpegPath(p)
  {
    LowerEnd(p, e);
  }

  /** A path ending in `.png` in any case is not. */
  lemma PngExtension(p: string, e: string)
    requires EndsWith(p, e) && Lower(e) == ".png"
    ensures !Canvas.IsJpegPath(p)
  {
    LowerEnd(p, e);
    assert Lower(p)[|p| - 4..] == ".png";
    if |p| >= 5 {
      assert Lower(p)[|p| - 5..][1] == '.';
    }
  }

  lemma LowerEnd(s: string, e: string)
    requires EndsWith(s, e)
    ensures EndsWith(Lower(s), Lower(e))
  {
    assert Lower(s)[|s| - |e|..] == Lower(e);
  }

  /** The output format decides whether the engine flattens the output,
      whatever the naming rule: "JPG" and "jpeg" always do, "PNG" never does,
      and "keep_original" follows the input's own extension. */
  lemma OutputFormatDecidesFlatten(input: InputFile, cfg: OutputConfig, index: int, token: string)
    ensures cfg.outputFormat in {"JPG", "jpg", "JPEG", "jpeg"} ==>
      Canvas.IsJpegPath(GenerateOutputPath(input, cfg, index, token))
    ensures cfg.outputFormat == "PNG" ==>
      !Canvas.IsJpegPath(GenerateOutputPath(input, cfg, index, token))
    ensures cfg.outputFormat == "keep_original" && Lower(Suffix(input.name)) in {".jpg", ".jpeg"} ==>
      Canvas.IsJpegPath(GenerateOutputPath(input, cfg, index, token))
  {
    var p := GenerateOutputPath(input, cfg, index, token);
    var e := Extension(input.name, cfg);
    OutputEndsWithExtension(input, cfg, index, token);
    ExtensionCase(input.name, cfg);
    if Lower(e) in {".jpg", ".jpeg"} {
      JpegExtension(p, e);
    } else if Lower(e) == ".png" {
      PngExtension(p, e);
    }
  }

  lemma ExtensionCase(name: string, cfg: OutputConfig)
    ensures cfg.outputFormat in {"JPG", "jpg", "JPEG", "jpeg"} ==>
      Lower(Extension(name, cfg)) in {".jpg", ".jpeg"}
    ensures cfg.outputFormat == "PNG" ==> Lower(Extension(name, cfg)) == ".png"
    ensures cfg.outputFormat == "keep_original" && Lower(Suffix(name)) in {".jpg", ".jpeg"} ==>
      Lower(Extension(name, cfg)) in {".jpg", ".jpeg"}
  {
    var f := cfg.outputFormat;
    if f in {"JPG", "jpg"} {
      assert Lower(Extension(name, cfg)) == ".jpg";
    } else if f in {"JPEG", "jpeg"} {
      assert Lower(Extension(name, cfg)) == ".jpeg";
    } else if f == "PNG" {
      assert Lower(Extension(name, cfg)) == ".png";
    } else if f == "keep_original" && Lower(Suffix(name)) in {".jpg", ".jpeg"} {
      assert Lower(Extension(name, cfg)) == Extension(name, cfg);
    }
  }

  /** With the "numbered" rule, different non-negative indexes give different
      names for the same input. */
  lemma NumberedNamesDistinct(input: InputFile, cfg: OutputConfig, i: nat, j: nat, token: string)
    requires cfg.nameRule == "numbered" && i != j
    ensures OutputFileName(input, cfg, i, token) != OutputFileName(input, cfg, j, token)
  {
    PaddedDistinct(i + 1, j + 1);
    var head := Stem(input.name) + "_";
    var tail := SuffixPart(cfg.suffix) + Extension(input.name, cfg);
    var di, dj := FormatZeroPadded(i + 1, 3), FormatZeroPadded(j + 1, 3);
    NumberedName(input, cfg, i, token);
    NumberedName(input, cfg, j, token);
    DistinctMiddle(OutputFileName(input, cfg, i, token), OutputFileName(input, cfg, j, token),
                   head, di, dj, tail);
  }

  lemma PaddedDistinct(m: nat, n: nat)
    requires m != n
    ensures FormatZeroPadded(m, 3) != FormatZeroPadded(n, 3)
  {
    ZeroPaddedRoundTrip(m, 3);
    ZeroPaddedRoundTrip(n, 3);
  }

  lemma DistinctMiddle(m: string, n: string, a: string, x: string, y: string, b: string)
    requires m == a + x + b && n == a + y + b && x != y
    ensures m != n
  {
    if a + x + b == a + y + b {
      MiddleEqual(a, x, y, b);
    }
  }

  lemma NumberedName(input: InputFile, cfg: OutputConfig, index: int, token: string)
    requires cfg.nameRule == "numbered"
    ensures OutputFileName(input, cfg, index, token) ==
      (Stem(input.name) + "_") + FormatZeroPadded(index + 1, 3)
        + (SuffixPart(cfg.suffix) + Extension(input.name, cfg))
  {
  }

  lemma MiddleEqual(a: string, x: string, y: string, b: string)
    requires a + x + b == a + y + b
    ensures x == y
  {
    assert |x| == |y|;
    assert x == (a + x + b)[|a|..|a| + |x|];
    assert y == (a + y + b)[|a|..|a| + |y|];
  }

  lemma TimestampName(stem: string, cfg: OutputConfig, index: int, token: string)
    requires cfg.nameRule == "timestamp"
    ensures NewName(stem, cfg, index, token) == (stem + "_") + token + SuffixPart(cfg.suffix)
  {
    assert cfg.nameRule != "original" && cfg.nameRule != "numbered";
  }

  /** With the "timestamp" rule, different tokens give different names, and
      the index plays no part. */
  lemma TimestampNamesDistinct(stem: string, cfg: OutputConfig, i: int, j: int, t1: string, t2: string)
    requires cfg.nameRule == "timestamp"
    ensures t1 != t2 ==> NewName(stem, cfg, i, t1) != NewName(stem, cfg, j, t2)
    ensures NewName(stem, cfg, i, t1) == NewName(stem, cfg, j, t1)
  {
    TimestampName(stem, cfg, i, t1);
    TimestampName(stem, cfg, j, t1);
    TimestampName(stem, cfg, j, t2);
    if t1 != t2 {
      DistinctMiddle(NewName(stem, cfg, i, t1), NewName(stem, cfg, j, t2),
                     stem + "_", t1, t2, SuffixPart(cfg.suffix));
    }
  }

  /** The first name of a numbered batch ends its stem with `_001`. */
  lemma FirstNumberedName(stem: string, cfg: OutputConfig, token: string)
    requires cfg.nameRule == "numbered" && cfg.suffix == ""
    ensures NewName(stem, cfg, 0, token) == stem + "_001"
  {
    assert NatString(1) == "1";
  }

  // ------------------------------------------------------------ listing

  /** The paths under `dir` of the entries `keep` accepts, in listing order. */
  function Select(dir: string, entries: seq<string>, keep: string -> bool): (r: seq<string>)
    ensures |r| <= |entries|
  {
    if |entries| == 0 then []
    else
      var rest := Select(dir, entries[..|entries| - 1], keep);
      var e := entries[|entries| - 1];
      if keep(e) then rest + [OsJoin(dir, e)] else rest
  }

  /** A path is selected exactly when an accepted entry joins to it. */
  lemma {:induction false} SelectMembers(dir: string, entries: seq<string>, keep: string -> bool, p: string)
    ensures p in Select(dir, entries, keep) <==>
      exists k :: 0 <= k < |entries| && keep(entries[k]) && p == OsJoin(dir, entries[k])
    decreases |entries|
  {
    if |entries| > 0 {
      var init := entries[..|entries| - 1];
      SelectMembers(dir, init, keep, p);
      if exists k :: 0 <= k < |init| && keep(init[k]) && p == OsJoin(dir, init[k]) {
        var k :| 0 <= k < |init| && keep(init[k]) && p == OsJoin(dir, init[k]);
        assert entries[k] == init[k];
      }
      if exists k :: 0 <= k < |entries| && keep(entries[k]) && p == OsJoin(dir, entries[k]) {
        var k :| 0 <= k < |entries| && keep(entries[k]) && p == OsJoin(dir, entries[k]);
        if k < |init| {
          assert init[k] == entries[k];
        }
      }
    }
  }

  /** The test `get_supported_images` applies to each entry of `dir`: the
      joined path is a file and the entry's extension is supported. */
  function KeepImage(dir: string, isFile: string -> bool): string -> bool {
    e => isFile(OsJoin(dir, e)) && IsSupported(e)
  }

  /** `get_supported_images`: nothing for a folder that does not exist,
      otherwise the supported image files in it, sorted. */
  function GetSupportedImages(isDir: bool, dir: string, entries: seq<string>,
                              isFile: string -> bool): (r: seq<string>)
    ensures !isDir ==> r == []
    ensures Sorting.Sorted(r)
    ensures isDir ==> multiset(r) == multiset(Select(dir, entries, KeepImage(dir, isFile)))
  {
    if isDir then Sorting.Sort(Select(dir, entries, KeepImage(dir, isFile))) else []
  }

  /** The listing holds exactly the paths of the supported image files of an
      existing folder. */
  lemma GetSupportedImagesMembers(isDir: bool, dir: string, entries: seq<string>,
                                  isFile: string -> bool, p: string)
    ensures p in GetSupportedImages(isDir, dir, entries, isFile) <==>
      isDir && (exists k :: 0 <= k < |entries| && p == OsJoin(dir, entries[k])
                  && isFile(OsJoin(dir, entries[k])) && IsSupported(entries[k]))
  {
    if isDir {
      var keep := KeepImage(dir, isFile);
      var s := Select(dir, entries, keep);
      SelectMembers(dir, entries, keep, p);
      assert p in s <==> p in multiset(s);
      assert p in Sorting.Sort(s) <==> p in multiset(Sorting.Sort(s));
    }
  }

  /** A file named just `.png` has no suffix (its only dot starts the name),
      so it is not listed. */
  lemma DotfileUnsupported()
    ensures !IsSupported(".png")
  {
    LeadingDotIsNoSuffix("png");
    NoSuffixUnsupported(".png");
  }

  /** A name without a suffix is never an image. */
  lemma NoSuffixUnsupported(name: string)
    requires Suffix(name) == ""
    ensures !IsSupported(name)
  {
    assert Lower("") == "";
  }

  /** The extension test ignores case. */
  lemma SupportedUpper()
    ensures IsSupported("a.JPG")
  {
    LastDotAt("a.JPG", 1);
    assert Lower(".JPG") == ".jpg";
  }

  lemma SupportedTiff()
    ensures IsSupported("scan.TIFF")
  {
    LastDotAt("scan.TIFF", 4);
    assert Lower(".TIFF") == ".tiff";
  }

  /** `.tif` is not in the list, only `.tiff`. */
  lemma UnsupportedTif()
    ensures !IsSupported("a.tif")
  {
    LastDotAt("a.tif", 1);
    assert Lower(".tif") == ".tif";
  }
}
