/**
 * The ffmpeg argument list that `Predictor.predict` builds before handing it to
 * the external tool: the `ffmpeg -y` prefix, one `-i <path>` declaration per input
 * (video, then audio, then subtitle), the codec/map/filter flags chosen by which
 * optional inputs are present, and the output path.
 *
 * File references are modelled by their string form (`str(path)`), which is what
 * the source puts into the list.
 */
module Predict {
  import opened Wrappers

  /** The three container formats the `output_format` argument accepts. */
  datatype Format = Mp4 | Mov | Avi

  const FormatChoices: seq<string> := ["mp4", "mov", "avi"]

  function FormatName(f: Format): (name: string)
    ensures name in FormatChoices
  {
    match f
    case Mp4 => "mp4"
    case Mov => "mov"
    case Avi => "avi"
  }

  /** The `choices` restriction on `output_format`: only the three names are accepted. */
  function ParseFormat(s: string): (r: Option<Format>)
    ensures r.Some? <==> s in FormatChoices
    ensures r.Some? ==> FormatName(r.value) == s
  {
    if s == "mp4" then Some(Mp4)
    else if s == "mov" then Some(Mov)
    else if s == "avi" then Some(Avi)
    else None
  }

  const OutputDir: string := "/tmp/output."

  /** The output file: a fixed name under /tmp whose extension is the format's name. */
  function OutputPath(f: Format): (p: string)
    ensures |OutputDir| < |p| && p[..|OutputDir|] == OutputDir
    ensures ParseFormat(p[|OutputDir|..]) == Some(f)
  {
    var p := OutputDir + FormatName(f);
    assert p[|OutputDir|..] == FormatName(f);
    p
  }

  /**
   * The four composition modes, one per combination of the two presence bits;
   * each mode carries the paths of the optional inputs it has.
   */
  datatype Mode =
    | VideoOnly
    | VideoPlusAudio(audio: string)
    | VideoPlusSubtitle(subtitle: string)
    | VideoPlusAudioPlusSubtitle(audio: string, subtitle: string)
  {
    function AudioFile(): Option<string> {
      match this
      case VideoPlusAudio(a) => Some(a)
      case VideoPlusAudioPlusSubtitle(a, _) => Some(a)
      case _ => None
    }

    function SubtitleFile(): Option<string> {
      match this
      case VideoPlusSubtitle(s) => Some(s)
      case VideoPlusAudioPlusSubtitle(_, s) => Some(s)
      case _ => None
    }
  }

  /** Which mode applies; the mode gives back exactly the optional inputs it came from. */
  function Classify(audio: Option<string>, subtitle: Option<string>): (m: Mode)
    ensures m.AudioFile() == audio && m.SubtitleFile() == subtitle
  {
    match (audio, subtitle)
    case (None, None) => VideoOnly
    case (Some(a), None) => VideoPlusAudio(a)
    case (None, Some(s)) => VideoPlusSubtitle(s)
    case (Some(a), Some(s)) => VideoPlusAudioPlusSubtitle(a, s)
  }

  function Present(o: Option<string>): nat {
    if o.Some? then 1 else 0
  }

  /** The input files in declaration order: video, then audio if any, then subtitle if any. */
  function InputPaths(video: string, m: Mode): (paths: seq<string>)
    ensures |paths| == 1 + Present(m.AudioFile()) + Present(m.SubtitleFile())
    ensures paths[0] == video
    ensures m.AudioFile().Some? ==> paths[1] == m.AudioFile().value
    ensures m.SubtitleFile().Some? ==> paths[|paths| - 1] == m.SubtitleFile().value
  {
    match m
    case VideoOnly => [video]
    case VideoPlusAudio(a) => [video, a]
    case VideoPlusSubtitle(s) => [video, s]
    case VideoPlusAudioPlusSubtitle(a, s) => [video, a, s]
  }

  /** One `-i <path>` pair per input, in the order given. */
  function Declarations(paths: seq<string>): (args: seq<string>)
    ensures |args| == 2 * |paths|
  {
    if paths == [] then [] else ["-i", paths[0]] + Declarations(paths[1..])
  }

  /** Pair `k` of the declarations is `-i` followed by the `k`-th path. */
  lemma {:induction false} DeclarationsAt(paths: seq<string>, k: nat)
    requires k < |paths|
    ensures Declarations(paths)[2 * k] == "-i" && Declarations(paths)[2 * k + 1] == paths[k]
  {
    if k > 0 {
      DeclarationsAt(paths[1..], k - 1);
      assert Declarations(paths)[2 * k] == Declarations(paths[1..])[2 * (k - 1)];
      assert Declarations(paths)[2 * k + 1] == Declarations(paths[1..])[2 * (k - 1) + 1];
    }
  }

  /** Declaring two lists of inputs one after the other declares their concatenation. */
  lemma {:induction false} DeclarationsAppend(xs: seq<string>, ys: seq<string>)
    ensures Declarations(xs + ys) == Declarations(xs) + Declarations(ys)
  {
    if xs == [] {
      assert xs + ys == ys;
    } else {
      assert (xs + ys)[0] == xs[0];
      assert (xs + ys)[1..] == xs[1..] + ys;
      DeclarationsAppend(xs[1..], ys);
    }
  }

  /** The `-vf` argument that burns the subtitle in: the raw path, with no escaping. */
  function SubtitleFilter(subtitle: string): string {
    "subtitles=" + subtitle
  }

  /** The filter argument is `subtitles=` followed by the subtitle path exactly as given. */
  lemma SubtitleFilterIsRaw(subtitle: string)
    ensures |SubtitleFilter(subtitle)| == 10 + |subtitle|
    ensures SubtitleFilter(subtitle)[..10] == "subtitles=" && SubtitleFilter(subtitle)[10..] == subtitle
  {
  }

  /** The codec, map and filter flags of each mode, between the inputs and the output path. */
  function CodecFlags(m: Mode): seq<string> {
    match m
    case VideoOnly => ["-c", "copy"]
    case VideoPlusAudio(_) => ["-c:v", "copy", "-c:a", "aac", "-map", "0:v:0", "-map", "1:a:0"]
    case VideoPlusSubtitle(s) => ["-vf", SubtitleFilter(s), "-c:a", "copy"]
    case VideoPlusAudioPlusSubtitle(_, s) =>
      ["-c:v", "copy", "-c:a", "aac", "-map", "0:v:0", "-map", "1:a:0", "-vf", SubtitleFilter(s)]
  }

  /** The whole argument list for one request, assembled mode by mode. */
  function Command(video: string, m: Mode, f: Format): seq<string> {
    ["ffmpeg", "-y"] + Declarations(InputPaths(video, m)) + CodecFlags(m) + [OutputPath(f)]
  }

  /**
   * The builder as the source runs it: a list extended step by step along a chain
   * of independent `if`s on the two presence bits. It yields the per-mode command
   * and the path the caller gets back.
   */
  method BuildCommand(video: string, audio: Option<string>, subtitle: Option<string>, f: Format)
    returns (cmd: seq<string>, outputPath: string)
    ensures outputPath == OutputPath(f)
    ensures cmd == Command(video, Classify(audio, subtitle), f)
  {
    ghost var declared: seq<string> := [video];
    cmd := ["ffmpeg", "-y"];
    cmd := cmd + ["-i", video];
    assert cmd == ["ffmpeg", "-y"] + Declarations(declared);
    if audio.Some? {
      ghost var before := declared;
      declared := declared + [audio.value];
      cmd := cmd + ["-i", audio.value];
      assert cmd == ["ffmpeg", "-y"] + Declarations(declared) by {
        DeclarationsAppend(before, [audio.value]);
        assert Declarations([audio.value]) == ["-i", audio.value];
      }
    }
    if subtitle.Some? {
      ghost var before := declared;
      declared := declared + [subtitle.value];
      cmd := cmd + ["-i", subtitle.value];
      assert cmd == ["ffmpeg", "-y"] + Declarations(declared) by {
        DeclarationsAppend(before, [subtitle.value]);
        assert Declarations([subtitle.value]) == ["-i", subtitle.value];
      }
    }
    assert declared == InputPaths(video, Classify(audio, subtitle));
    ghost var prefix := cmd;
    ghost var mode := Classify(audio, subtitle);
    if audio.Some? {
      cmd := cmd + ["-c:v", "copy"];
      cmd := cmd + ["-c:a", "aac"];
      cmd := cmd + ["-map", "0:v:0"];
      cmd := cmd + ["-map", "1:a:0"];
      assert cmd == prefix + ["-c:v", "copy", "-c:a", "aac", "-map", "0:v:0", "-map", "1:a:0"];
    }
    if subtitle.Some? {
      if audio.Some? {
        cmd := cmd + ["-vf", SubtitleFilter(subtitle.value)];
      } else {
        cmd := cmd + ["-vf", SubtitleFilter(subtitle.value)];
        cmd := cmd + ["-c:a", "copy"];
      }
    }
    if audio.None? && subtitle.None? {
      cmd := cmd + ["-c", "copy"];
    }
    assert cmd == prefix + CodecFlags(mode);
    assert prefix == ["ffmpeg", "-y"] + Declarations(InputPaths(video, mode));
    outputPath := OutputPath(f);
    cmd := cmd + [outputPath];
  }
}
