/**
 * What the argument list built by `Predictor.predict` promises, stated about
 * the whole command. Statements about flags are made over the flag section (the
 * tokens after the last `-i <path>` pair and before the output path), so that
 * a user path that happens to read like a flag does not affect them.
 */
module PredictProperties {
  import opened Wrappers
  import opened Predict

  /** How often `x` occurs in `s`. */
  function Count(s: seq<string>, x: string): nat {
    multiset(s)[x]
  }

  /** The tokens between the `inputCount` declarations and the final output path. */
  function FlagSection(cmd: seq<string>, inputCount: nat): seq<string>
    requires 2 + 2 * inputCount < |cmd|
  {
    cmd[2 + 2 * inputCount .. |cmd| - 1]
  }

  /** Some occurrence of `a` is immediately followed by `b`. */
  predicate HasPair(s: seq<string>, a: string, b: string) {
    exists j :: 0 <= j < |s| - 1 && s[j] == a && s[j + 1] == b
  }

  /** An ffmpeg stream specifier of the form `<input>:<type>:<index>` with one-digit numbers. */
  datatype StreamSpecifier = StreamSpecifier(input: nat, kind: char, index: nat)

  predicate IsDigit(c: char) {
    '0' <= c <= '9'
  }

  function ParseStreamSpecifier(s: string): Option<StreamSpecifier> {
    if |s| == 5 && IsDigit(s[0]) && s[1] == ':' && s[3] == ':' && IsDigit(s[4])
    then Some(StreamSpecifier(s[0] as int - '0' as int, s[2], s[4] as int - '0' as int))
    else None
  }

  /** The flag section of the command built for `video`, mode `m` and format `f`. */
  function Flags(video: string, m: Mode, f: Format): seq<string> {
    CommandSplits(video, m, f);
    FlagSection(Command(video, m, f), |InputPaths(video, m)|)
  }

  /** The command is the prefix, the declarations, the mode's flags and the output path, in that order. */
  lemma CommandSplits(video: string, m: Mode, f: Format)
    ensures var cmd := Command(video, m, f);
            var n := |InputPaths(video, m)|;
            2 + 2 * n < |cmd| &&
            cmd[..2] == ["ffmpeg", "-y"] &&
            cmd[2 .. 2 + 2 * n] == Declarations(InputPaths(video, m)) &&
            FlagSection(cmd, n) == CodecFlags(m) &&
            cmd[|cmd| - 1] == OutputPath(f)
  {
    var cmd := Command(video, m, f);
    var decls := Declarations(InputPaths(video, m));
    var n := |InputPaths(video, m)|;
    var head := ["ffmpeg", "-y"] + decls;
    assert cmd == head + (CodecFlags(m) + [OutputPath(f)]);
    assert cmd[..|head|] == head;
    assert cmd[2 .. 2 + 2 * n] == head[2..] == decls;
    assert cmd[2 + 2 * n .. |cmd| - 1] == CodecFlags(m);
  }

  /** The command starts with `ffmpeg -y` and ends with the output path, which is one of three fixed files. */
  lemma CommandStartsAndEnds(video: string, m: Mode, f: Format)
    ensures var cmd := Command(video, m, f);
            |cmd| >= 3 && cmd[0] == "ffmpeg" && cmd[1] == "-y" &&
            cmd[|cmd| - 1] == OutputPath(f) &&
            cmd[|cmd| - 1] in ["/tmp/output.mp4", "/tmp/output.mov", "/tmp/output.avi"]
  {
    CommandSplits(video, m, f);
    var cmd := Command(video, m, f);
    assert cmd[0] == cmd[..2][0] && cmd[1] == cmd[..2][1];
    OutputPathChoices(f);
  }

  /** The output path is one of three fixed files, and different formats never share one. */
  lemma OutputPathChoices(f: Format)
    ensures OutputPath(f) in ["/tmp/output.mp4", "/tmp/output.mov", "/tmp/output.avi"]
    ensures forall g :: OutputPath(g) == OutputPath(f) ==> g == f
  {
    match f
    case Mp4 => assert OutputPath(f) == "/tmp/output.mp4";
    case Mov => assert OutputPath(f) == "/tmp/output.mov";
    case Avi => assert OutputPath(f) == "/tmp/output.avi";
  }

  /** The format names and the accepted choices are in one-to-one correspondence. */
  lemma FormatNameRoundTrip(f: Format, s: string)
    ensures ParseFormat(FormatName(f)) == Some(f)
    ensures ParseFormat(s) == Some(f) <==> s == FormatName(f)
  {
  }

  /** Every mode comes from exactly one combination of the optional inputs. */
  lemma ClassifyIsExhaustive(m: Mode)
    ensures Classify(m.AudioFile(), m.SubtitleFile()) == m
  {
  }

  /**
   * Right after the prefix come the inputs as `-i <path>` pairs: the video first,
   * then the audio if present, then the subtitle if present.
   */
  lemma CommandDeclaresInputsInOrder(video: string, m: Mode, f: Format)
    ensures var cmd := Command(video, m, f);
            var paths := InputPaths(video, m);
            2 + 2 * |paths| < |cmd| &&
            (forall k :: 0 <= k < |paths| ==> cmd[2 + 2 * k] == "-i" && cmd[3 + 2 * k] == paths[k]) &&
            cmd[3] == video &&
            (m.AudioFile().Some? ==> cmd[5] == m.AudioFile().value) &&
            (m.SubtitleFile().Some? ==> cmd[1 + 2 * |paths|] == m.SubtitleFile().value)
  {
    CommandSplits(video, m, f);
    var cmd := Command(video, m, f);
    var paths := InputPaths(video, m);
    forall k | 0 <= k < |paths|
      ensures cmd[2 + 2 * k] == "-i" && cmd[3 + 2 * k] == paths[k]
    {
      DeclarationsAt(paths, k);
      assert cmd[2 + 2 * k] == cmd[2 .. 2 + 2 * |paths|][2 * k];
      assert cmd[3 + 2 * k] == cmd[2 .. 2 + 2 * |paths|][2 * k + 1];
    }
    assert cmd[3] == paths[0];
    if m.AudioFile().Some? {
      assert cmd[3 + 2 * 1] == paths[1];
    }
    if m.SubtitleFile().Some? {
      assert cmd[3 + 2 * (|paths| - 1)] == paths[|paths| - 1];
    }
  }

  /** `n` declarations contribute `n` `-i` tokens plus any input path that is itself `-i`. */
  lemma {:induction false} CountDeclarations(paths: seq<string>)
    ensures Count(Declarations(paths), "-i") == |paths| + Count(paths, "-i")
  {
    if paths != [] {
      CountDeclarations(paths[1..]);
      assert Declarations(paths) == ["-i", paths[0]] + Declarations(paths[1..]);
      assert paths == [paths[0]] + paths[1..];
    }
  }

  /** No flag of any mode is `-i`: the subtitle filter always starts with `subtitles=`. */
  lemma FlagsHaveNoInputToken(m: Mode)
    ensures "-i" !in CodecFlags(m)
  {
    if m.SubtitleFile().Some? {
      assert SubtitleFilter(m.SubtitleFile().value)[0] == 's';
    }
  }

  /** Pieces that do not hold `x` add nothing to its count. */
  lemma CountAroundMiddle(prefix: seq<string>, middle: seq<string>, flags: seq<string>, last: string, x: string)
    requires x !in prefix && x !in flags && last != x
    ensures Count(prefix + middle + flags + [last], x) == Count(middle, x)
  {
    assert multiset(prefix + middle + flags + [last]) ==
      multiset(prefix) + multiset(middle) + multiset(flags) + multiset{last};
  }

  /**
   * The command holds one `-i` token per input (1 + [audio present] + [subtitle present]),
   * plus one for each input path that is literally `-i`.
   */
  lemma CountInputTokens(video: string, m: Mode, f: Format)
    ensures var paths := InputPaths(video, m);
            Count(Command(video, m, f), "-i") == |paths| + Count(paths, "-i")
    ensures "-i" !in InputPaths(video, m) ==>
              Count(Command(video, m, f), "-i") == 1 + Present(m.AudioFile()) + Present(m.SubtitleFile())
  {
    var paths := InputPaths(video, m);
    CountDeclarations(paths);
    FlagsHaveNoInputToken(m);
    var out := OutputPath(f);
    assert out != "-i" by {
      assert out[0] == '/';
    }
    assert "-i" !in ["ffmpeg", "-y"] by {
      assert "ffmpeg"[0] != "-i"[0] && "-y"[1] != "-i"[1];
    }
    CountAroundMiddle(["ffmpeg", "-y"], Declarations(paths), CodecFlags(m), out, "-i");
  }

  /**
   * With an audio file the flags open with `-c:v copy -c:a aac -map 0:v:0 -map 1:a:0`,
   * and without a subtitle they are exactly that; without an audio file there is
   * no `-c:v`, no `aac` and no `-map` at all.
   */
  lemma AudioReplacesTrack(video: string, m: Mode, f: Format)
    ensures var fl := Flags(video, m, f);
            (m.AudioFile().Some? ==>
               |fl| >= 8 && fl[..8] == ["-c:v", "copy", "-c:a", "aac", "-map", "0:v:0", "-map", "1:a:0"]) &&
            (m.VideoPlusAudio? ==>
               fl == ["-c:v", "copy", "-c:a", "aac", "-map", "0:v:0", "-map", "1:a:0"]) &&
            ("-map" in fl <==> m.AudioFile().Some?) &&
            ("-c:v" in fl <==> m.AudioFile().Some?) &&
            ("aac" in fl <==> m.AudioFile().Some?)
  {
    CommandSplits(video, m, f);
    if m.SubtitleFile().Some? {
      assert SubtitleFilter(m.SubtitleFile().value)[0] == 's';
    }
  }

  /**
   * Every `-map` is followed by a stream specifier whose input index is a declared
   * input: video streams come from input 0 (the video), audio streams from input 1
   * (the audio file).
   */
  lemma MapsSelectDeclaredInputs(video: string, m: Mode, f: Format)
    ensures var fl := Flags(video, m, f);
            var paths := InputPaths(video, m);
            forall j :: 0 <= j < |fl| && fl[j] == "-map" ==>
              j + 1 < |fl| && ParseStreamSpecifier(fl[j + 1]).Some? &&
              var spec := ParseStreamSpecifier(fl[j + 1]).value;
              spec.input < |paths| && spec.index == 0 &&
              (spec.kind == 'v' ==> spec.input == 0 && paths[spec.input] == video) &&
              (spec.kind == 'a' ==> spec.input == 1 && m.AudioFile().Some? && paths[spec.input] == m.AudioFile().value) &&
              (spec.kind == 'v' || spec.kind == 'a')
  {
    CommandSplits(video, m, f);
    var fl := Flags(video, m, f);
    var paths := InputPaths(video, m);
    assert fl == CodecFlags(m);
    if m.SubtitleFile().Some? {
      assert SubtitleFilter(m.SubtitleFile().value)[0] == 's';
    }
    assert ParseStreamSpecifier("0:v:0") == Some(StreamSpecifier(0, 'v', 0));
    assert ParseStreamSpecifier("1:a:0") == Some(StreamSpecifier(1, 'a', 0));
    forall j | 0 <= j < |fl| && fl[j] == "-map"
      ensures j + 1 < |fl| && (fl[j + 1] == "0:v:0" || fl[j + 1] == "1:a:0") && m.AudioFile().Some?
    {
      assert m.AudioFile().Some? && (j == 4 || j == 6);
    }
  }

  /**
   * A subtitle file adds exactly one `-vf`, right after the audio flags if any, and
   * its argument is `subtitles=` followed by the raw subtitle path, unescaped.
   * Without a subtitle there is no `-vf`.
   */
  lemma SubtitleBurnIn(video: string, m: Mode, f: Format)
    ensures var fl := Flags(video, m, f);
            ("-vf" in fl <==> m.SubtitleFile().Some?) &&
            (m.SubtitleFile().Some? ==>
               var j := if m.AudioFile().Some? then 8 else 0;
               j + 1 < |fl| && fl[j] == "-vf" &&
               (forall i :: 0 <= i < |fl| && fl[i] == "-vf" ==> i == j) &&
               |fl[j + 1]| == 10 + |m.SubtitleFile().value| &&
               fl[j + 1][..10] == "subtitles=" && fl[j + 1][10..] == m.SubtitleFile().value)
  {
    CommandSplits(video, m, f);
    var fl := Flags(video, m, f);
    assert fl == CodecFlags(m);
    match m
    case VideoOnly =>
      assert fl == ["-c", "copy"];
    case VideoPlusAudio(_) =>
      assert fl == ["-c:v", "copy", "-c:a", "aac", "-map", "0:v:0", "-map", "1:a:0"];
    case VideoPlusSubtitle(s) =>
      var filter := SubtitleFilter(s);
      assert filter[0] == 's';
      assert filter[..10] == "subtitles=" && filter[10..] == s;
      assert fl == ["-vf", filter, "-c:a", "copy"];
      forall i | 0 <= i < |fl| && fl[i] == "-vf"
        ensures i == 0
      {
      }
    case VideoPlusAudioPlusSubtitle(_, s) =>
      var filter := SubtitleFilter(s);
      assert filter[0] == 's';
      assert filter[..10] == "subtitles=" && filter[10..] == s;
      assert fl == ["-c:v", "copy", "-c:a", "aac", "-map", "0:v:0", "-map", "1:a:0", "-vf", filter];
      forall i | 0 <= i < |fl| && fl[i] == "-vf"
        ensures i == 8
      {
      }
  }

  /**
   * Subtitle without audio: the flags are `-vf subtitles=<path> -c:a copy`, with no
   * `-map` and no `-c:v`, so the video codec is left to ffmpeg's default.
   */
  lemma SubtitleOnlyKeepsAudio(video: string, s: string, f: Format)
    ensures var fl := Flags(video, VideoPlusSubtitle(s), f);
            fl == ["-vf", "subtitles=" + s, "-c:a", "copy"] &&
            "-map" !in fl && "-c:v" !in fl && "-c" !in fl
  {
    CommandSplits(video, VideoPlusSubtitle(s), f);
    assert SubtitleFilter(s)[0] == 's';
  }

  /** Exactly when neither optional input is given, the flags are the single `-c copy`. */
  lemma VideoOnlyCopiesAllStreams(video: string, m: Mode, f: Format)
    ensures var fl := Flags(video, m, f);
            ("-c" in fl <==> m.VideoOnly?) &&
            (m.VideoOnly? ==> fl == ["-c", "copy"] && "-map" !in fl && "-vf" !in fl)
  {
    CommandSplits(video, m, f);
    if m.SubtitleFile().Some? {
      assert SubtitleFilter(m.SubtitleFile().value)[0] == 's';
    }
  }

  /**
   * Audio and subtitle together: the flags are exactly
   * `-c:v copy -c:a aac -map 0:v:0 -map 1:a:0 -vf subtitles=<path>`, with no
   * `-c:a copy` and no `-c copy`.
   */
  lemma AudioAndSubtitleFlags(video: string, a: string, s: string, f: Format)
    ensures var fl := Flags(video, VideoPlusAudioPlusSubtitle(a, s), f);
            fl == ["-c:v", "copy", "-c:a", "aac", "-map", "0:v:0", "-map", "1:a:0", "-vf", "subtitles=" + s] &&
            !HasPair(fl, "-c:a", "copy") && "-c" !in fl
  {
    CommandSplits(video, VideoPlusAudioPlusSubtitle(a, s), f);
    var fl := Flags(video, VideoPlusAudioPlusSubtitle(a, s), f);
    assert SubtitleFilter(s)[0] == 's';
    forall j | 0 <= j < |fl| - 1 && fl[j] == "-c:a"
      ensures fl[j + 1] != "copy"
    {
      assert j == 2;
    }
  }

  /**
   * The video stream is copied (`-c:v copy`) while a video filter (`-vf`) is
   * requested in exactly one mode: audio and subtitle together. A filter needs
   * decoded frames, so that command asks ffmpeg for two incompatible things.
   */
  lemma FilterOnCopiedVideo(video: string, m: Mode, f: Format)
    ensures var fl := Flags(video, m, f);
            (HasPair(fl, "-c:v", "copy") && "-vf" in fl) <==> m.VideoPlusAudioPlusSubtitle?
  {
    CommandSplits(video, m, f);
    var fl := Flags(video, m, f);
    if m.SubtitleFile().Some? {
      assert SubtitleFilter(m.SubtitleFile().value)[0] == 's';
    }
    if m.AudioFile().Some? {
      assert fl[0] == "-c:v" && fl[1] == "copy";
    }
  }
}
