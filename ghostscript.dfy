/** `reduce_pdf_with_ghostscript`: the Ghostscript command line built from
    the reduction percent and the optional tuning overrides, and the
    outcome of running it. Whether `gs` is installed and whether the run
    succeeds are inputs of the model. */
module Ghostscript {

  import opened Wrappers
  import opened Text
  import opened Settings

  /** The preset: a non-empty override, else the table's preset. */
  function Preset(percent: int, pdfsettings: Option<string>): (p: string)
    ensures pdfsettings.Some? && pdfsettings.value != "" ==> p == pdfsettings.value
    ensures pdfsettings.None? || pdfsettings.value == "" ==> p in Presets
  {
    if pdfsettings.Some? && pdfsettings.value != "" then pdfsettings.value
    else GhostscriptSettings(percent).setting
  }

  /** The resolution: a non-zero override, else the table's resolution. */
  function Dpi(percent: int, dpi: Option<int>): (d: int)
    ensures dpi.Some? && dpi.value != 0 ==> d == dpi.value
    ensures dpi.None? || dpi.value == 0 ==> d in {72, 150, 300}
  {
    if dpi.Some? && dpi.value != 0 then dpi.value
    else GhostscriptSettings(percent).resolution
  }

  /** The JPEG quality handed to Ghostscript, clamped to [1, 95]. */
  function JpegQuality(q: int): (jq: int)
    ensures 1 <= jq <= 95
    ensures 1 <= q <= 95 ==> jq == q
    ensures q < 1 ==> jq == 1
    ensures q > 95 ==> jq == 95
  {
    Max(1, Min(95, q))
  }

  /** The device, the compatibility level, the preset and batch mode. */
  function DeviceFlags(preset: string): (f: seq<string>)
    ensures |f| == 7
  {
    ["gs", "-sDEVICE=pdfwrite", "-dCompatibilityLevel=1.4", "-dPDFSETTINGS=" + preset,
     "-dNOPAUSE", "-dQUIET", "-dBATCH"]
  }

  /** Font compression and bicubic downsampling of every kind of image. */
  function ImageFlags(): (f: seq<string>)
    ensures |f| == 8
  {
    ["-dCompressFonts=true", "-dSubsetFonts=true",
     "-dDownsampleColorImages=true", "-dDownsampleGrayImages=true", "-dDownsampleMonoImages=true",
     "-dColorImageDownsampleType=/Bicubic", "-dGrayImageDownsampleType=/Bicubic",
     "-dMonoImageDownsampleType=/Bicubic"]
  }

  /** The target resolution of each kind of image. */
  function ResolutionFlags(d: string): (f: seq<string>)
    ensures |f| == 3
  {
    ["-dColorImageResolution=" + d, "-dGrayImageResolution=" + d, "-dMonoImageResolution=" + d]
  }

  /** JPEG encoding, chosen outright, for colour and grey images. */
  function EncodingFlags(): (f: seq<string>)
    ensures |f| == 6
  {
    ["-dAutoFilterColorImages=false", "-dAutoFilterGrayImages=false",
     "-dEncodeColorImages=true", "-dEncodeGrayImages=true",
     "-sColorImageFilter=/DCTEncode", "-sGrayImageFilter=/DCTEncode"]
  }

  /** The 25 arguments that every run starts with: the device, the preset,
      the resolution (also as the target of image downsampling) and JPEG
      encoding of colour and grey images. */
  function Flags(preset: string, dpi: int): (f: seq<string>)
    ensures |f| == 25
  {
    var d := IntToString(dpi);
    DeviceFlags(preset) + ["-r" + d] + ImageFlags() + ResolutionFlags(d) + EncodingFlags()
  }

  /** The `-dJPEGQ` argument, present only when a quality is given. */
  function JpegFlag(jpegq: Option<int>): (f: seq<string>)
    ensures |f| == if jpegq.Some? then 1 else 0
  {
    if jpegq.Some? then ["-dJPEGQ=" + IntToString(JpegQuality(jpegq.value))] else []
  }

  /** The whole argument list: the fixed flags, the optional quality, the
      output file and, last, the input path. */
  function Command(input: string, output: string, percent: int, dpi: Option<int>,
                   jpegq: Option<int>, pdfsettings: Option<string>): seq<string>
  {
    Flags(Preset(percent, pdfsettings), Dpi(percent, dpi)) + JpegFlag(jpegq)
      + ["-sOutputFile=" + output, input]
  }

  /** `reduce_pdf_with_ghostscript`: without `gs` nothing runs and the
      answer is `false`; otherwise the command is built by appending to the
      fixed flags and the answer is whether the run succeeded. `ran` is the
      command handed to Ghostscript, if any. */
  method ReducePdfWithGhostscript(input: string, output: string, percent: int, dpi: Option<int>,
                                  jpegq: Option<int>, pdfsettings: Option<string>,
                                  available: bool, run: seq<string> -> bool)
    returns (ok: bool, ran: Option<seq<string>>)
    ensures !available ==> !ok && ran.None?
    ensures available ==> ran == Some(Command(input, output, percent, dpi, jpegq, pdfsettings))
    ensures ok <==> ran.Some? && run(ran.value)
  {
    if !available {
      return false, None;
    }
    var preset := Preset(percent, pdfsettings);
    var d := Dpi(percent, dpi);
    var cmd := Flags(preset, d);
    if jpegq.Some? {
      cmd := cmd + ["-dJPEGQ=" + IntToString(JpegQuality(jpegq.value))];
    } else {
      assert cmd + [] == cmd;
    }
    cmd := cmd + ["-sOutputFile=" + output, input];
    ok := run(cmd);
    ran := Some(cmd);
  }

  // ---------------------------------------------------------------------
  // Properties

  /** Within the fixed flags: `gs` first, the preset at 3 and the
      resolution at 7 and in the three image-resolution flags at 16 to 18. */
  lemma FlagsShape(preset: string, dpi: int)
    ensures var f := Flags(preset, dpi);
            var d := IntToString(dpi);
            && f[0] == "gs"
            && f[3] == "-dPDFSETTINGS=" + preset
            && f[7] == "-r" + d
            && f[16] == "-dColorImageResolution=" + d
            && f[17] == "-dGrayImageResolution=" + d
            && f[18] == "-dMonoImageResolution=" + d
  {
    var d := IntToString(dpi);
    var head := DeviceFlags(preset) + ["-r" + d];
    assert Flags(preset, dpi)[..8] == head;
    assert Flags(preset, dpi)[16..19] == ResolutionFlags(d);
  }

  /** The arguments sit where Ghostscript expects them: the fixed flags with
      the chosen preset and resolution, then the quality flag at 25 when a
      quality is given, and the output file and the input path last. */
  lemma CommandShape(input: string, output: string, percent: int, dpi: Option<int>,
                     jpegq: Option<int>, pdfsettings: Option<string>)
    ensures var cmd := Command(input, output, percent, dpi, jpegq, pdfsettings);
            var d := IntToString(Dpi(percent, dpi));
            && |cmd| == (if jpegq.Some? then 28 else 27)
            && cmd[0] == "gs"
            && cmd[3] == "-dPDFSETTINGS=" + Preset(percent, pdfsettings)
            && cmd[7] == "-r" + d
            && cmd[16] == "-dColorImageResolution=" + d
            && cmd[17] == "-dGrayImageResolution=" + d
            && cmd[18] == "-dMonoImageResolution=" + d
            && (jpegq.Some? ==> cmd[25] == "-dJPEGQ=" + IntToString(JpegQuality(jpegq.value)))
            && cmd[|cmd| - 2] == "-sOutputFile=" + output
            && cmd[|cmd| - 1] == input
  {
    var f := Flags(Preset(percent, pdfsettings), Dpi(percent, dpi));
    FlagsShape(Preset(percent, pdfsettings), Dpi(percent, dpi));
    var cmd := Command(input, output, percent, dpi, jpegq, pdfsettings);
    assert cmd[..25] == f;
  }

  /** An argument is the quality flag when it starts with `-dJPEGQ=`. */
  predicate IsJpegFlag(s: string) {
    |s| >= 8 && s[..8] == "-dJPEGQ="
  }

  /** An argument whose third character is not `J` is no quality flag. */
  lemma NotJpegFlag(s: string)
    requires |s| >= 3 && s[2] != 'J'
    ensures !IsJpegFlag(s)
  {
    assert "-dJPEGQ="[2] == 'J';
  }

  /** No device, mode or `-r` argument is a quality flag. */
  lemma DeviceFlagsNotJpeg(preset: string, dpi: int)
    ensures forall s :: s in DeviceFlags(preset) + ["-r" + IntToString(dpi)] ==> !IsJpegFlag(s)
  {
    var d := IntToString(dpi);
    forall s | s in DeviceFlags(preset) + ["-r" + d]
      ensures !IsJpegFlag(s)
    {
      if s != "gs" {
        NotJpegFlag(s);
      }
    }
  }

  /** No font or downsampling argument is a quality flag. */
  lemma ImageFlagsNotJpeg()
    ensures forall s :: s in ImageFlags() ==> !IsJpegFlag(s)
  {
    forall s | s in ImageFlags() ensures !IsJpegFlag(s) {
      NotJpegFlag(s);
    }
  }

  /** No image-resolution argument is a quality flag. */
  lemma ResolutionFlagsNotJpeg(d: string)
    ensures forall s :: s in ResolutionFlags(d) ==> !IsJpegFlag(s)
  {
    forall s | s in ResolutionFlags(d) ensures !IsJpegFlag(s) {
      NotJpegFlag(s);
    }
  }

  /** No encoding argument is a quality flag. */
  lemma EncodingFlagsNotJpeg()
    ensures forall s :: s in EncodingFlags() ==> !IsJpegFlag(s)
  {
    forall s | s in EncodingFlags() ensures !IsJpegFlag(s) {
      NotJpegFlag(s);
    }
  }

  /** None of the fixed flags is a quality flag. */
  lemma FlagsNotJpeg(preset: string, dpi: int)
    ensures forall s :: s in Flags(preset, dpi) ==> !IsJpegFlag(s)
  {
    var d := IntToString(dpi);
    DeviceFlagsNotJpeg(preset, dpi);
    ImageFlagsNotJpeg();
    ResolutionFlagsNotJpeg(d);
    EncodingFlagsNotJpeg();
  }

  /** Among the options (everything before the input path), a quality flag
      appears exactly when a quality is given, and only once. */
  lemma JpegFlagIffGiven(input: string, output: string, percent: int, dpi: Option<int>,
                         jpegq: Option<int>, pdfsettings: Option<string>)
    ensures var cmd := Command(input, output, percent, dpi, jpegq, pdfsettings);
            forall i :: 0 <= i < |cmd| - 1 ==> (IsJpegFlag(cmd[i]) <==> jpegq.Some? && i == 25)
  {
    var cmd := Command(input, output, percent, dpi, jpegq, pdfsettings);
    var f := Flags(Preset(percent, pdfsettings), Dpi(percent, dpi));
    FlagsNotJpeg(Preset(percent, pdfsettings), Dpi(percent, dpi));
    var o := "-sOutputFile=" + output;
    assert o[2] == 'O';
    forall i | 0 <= i < |cmd| - 1
      ensures IsJpegFlag(cmd[i]) <==> jpegq.Some? && i == 25
    {
      if i < 25 {
        assert cmd[i] == f[i] && f[i] in f;
      } else if jpegq.Some? && i == 25 {
        assert cmd[i] == "-dJPEGQ=" + IntToString(JpegQuality(jpegq.value));
        assert cmd[i][..8] == "-dJPEGQ=";
      } else {
        assert cmd[i] == o;
      }
    }
  }

  /** An empty preset override is no override, and a zero resolution
      override is no override: both are falsy. */
  lemma FalsyOverridesIgnored(input: string, output: string, percent: int, jpegq: Option<int>,
                              dpi: Option<int>, pdfsettings: Option<string>)
    ensures Command(input, output, percent, Some(0), jpegq, pdfsettings)
            == Command(input, output, percent, None, jpegq, pdfsettings)
    ensures Command(input, output, percent, dpi, jpegq, Some(""))
            == Command(input, output, percent, dpi, jpegq, None)
  {
  }

  /** A non-empty preset override is the preset the command uses, whatever
      the percent and the resolution override. */
  lemma PresetOverrideWins(input: string, output: string, percent: int, dpi: Option<int>,
                           jpegq: Option<int>, s: string)
    requires s != ""
    ensures Command(input, output, percent, dpi, jpegq, Some(s))[3] == "-dPDFSETTINGS=" + s
  {
    CommandShape(input, output, percent, dpi, jpegq, Some(s));
  }

  /** A non-zero resolution override is the resolution the command uses,
      for `-r` and for every kind of image, whatever the percent and the
      preset override. */
  lemma DpiOverrideWins(input: string, output: string, percent: int, d: int,
                        jpegq: Option<int>, pdfsettings: Option<string>)
    requires d != 0
    ensures var cmd := Command(input, output, percent, Some(d), jpegq, pdfsettings);
            var ds := IntToString(d);
            && cmd[7] == "-r" + ds
            && cmd[16] == "-dColorImageResolution=" + ds
            && cmd[17] == "-dGrayImageResolution=" + ds
            && cmd[18] == "-dMonoImageResolution=" + ds
  {
    CommandShape(input, output, percent, Some(d), jpegq, pdfsettings);
  }

  /** With both overrides given, the percent no longer changes the
      command. */
  lemma OverriddenCommandIgnoresPercent(input: string, output: string, p1: int, p2: int,
                                        jpegq: Option<int>, d: int, s: string)
    requires d != 0 && s != ""
    ensures Command(input, output, p1, Some(d), jpegq, Some(s))
            == Command(input, output, p2, Some(d), jpegq, Some(s))
  {
  }

  /** Without overrides, the preset and the resolution are the table's:
      `/screen` at 72 dpi above 60 percent, for example. */
  lemma TableWithoutOverrides(input: string, output: string, percent: int, jpegq: Option<int>)
    ensures var cmd := Command(input, output, percent, None, jpegq, None);
            var s := GhostscriptSettings(percent);
            cmd[3] == "-dPDFSETTINGS=" + s.setting && cmd[7] == "-r" + IntToString(s.resolution)
  {
    CommandShape(input, output, percent, None, jpegq, None);
  }
}
