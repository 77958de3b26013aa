# ffmpeg command builder of the video merger predictor

This project models the one piece of decision logic in `predict.py`: the argument
list that `Predictor.predict` builds for `ffmpeg` from a video file, an optional
replacement audio file, an optional subtitle file and an output format
(`mp4`, `mov` or `avi`). The list is:

- `ffmpeg -y`;
- one `-i <path>` pair per input: video, then audio if given, then subtitle if given;
- codec, map and filter flags that depend on which optional inputs are given;
- the output path `/tmp/output.<format>`.

Files:

- `wrappers.dfy`: module `Wrappers`, the `Option` type used for the optional files.
- `predict.dfy`: module `Predict`. It holds the formats, the four composition
  modes (`Classify`), the input order (`InputPaths`, `Declarations`) and the flags
  of each mode (`CodecFlags`). `Command` assembles the per-mode reference command.
  `BuildCommand` is the builder as the source runs it: a list extended step by step
  along independent `if`s on the two presence bits. Its postcondition says it
  yields the reference command.
- `predict_properties.dfy`: module `PredictProperties`, the lemmas about the command.
  Flag statements are made over the flag section. That is the tokens after the last
  `-i <path>` pair and before the output path. An input path that happens to read
  `-map` or `-vf` therefore does not affect them.

The model follows the code, including its quirk. With both audio and subtitle, the
command asks for `-c:v copy` and also for `-vf subtitles=<path>`. A video filter
needs decoded frames, so it cannot be applied to a stream-copied video.
`FilterOnCopiedVideo` shows that this combination occurs in exactly that mode.

## Model

| member | source | states |
|---|---|---|
| `Predict.ParseFormat` | predict.py:12-16 | only `mp4`, `mov` and `avi` are accepted, and an accepted string is the name of the format it yields |
| `Predict.FormatName` | predict.py:14 | the name of a format is one of the three accepted choices `mp4`, `mov`, `avi` |
| `Predict.OutputPath` | predict.py:20 | the output path is `/tmp/output.` followed by a suffix that parses back to the requested format |
| `Predict.Classify` | predict.py:29-59 | the mode chosen from the two presence tests gives back exactly the audio and subtitle inputs it came from |
| `Predict.InputPaths` | predict.py:26-34 | the inputs number 1 + [audio] + [subtitle]; the video is first, the audio second when present, the subtitle last when present |
| `Predict.Declarations` | predict.py:26-34 | one `-i <path>` pair per input: twice as many tokens as inputs |
| `Predict.DeclarationsAt` | predict.py:26-34 | pair k of the declarations is `-i` followed by the k-th input path |
| `Predict.DeclarationsAppend` | predict.py:26-34 | extending the list with further declarations declares the concatenated inputs |
| `Predict.SubtitleFilter` | predict.py:52-55 | no contract of its own: builds `subtitles=` + the subtitle path; `Predict.SubtitleFilterIsRaw` states what it yields |
| `Predict.SubtitleFilterIsRaw` | predict.py:52-55 | the filter argument is `subtitles=` followed by the subtitle path exactly as given, with no escaping or quoting |
| `Predict.CodecFlags` | predict.py:40-60 | no contract of its own: the flags each of the four branches emits; specified by `PredictProperties.AudioReplacesTrack`, `SubtitleBurnIn`, `SubtitleOnlyKeepsAudio`, `VideoOnlyCopiesAllStreams`, `AudioAndSubtitleFlags` and `FilterOnCopiedVideo` |
| `Predict.Command` | predict.py:19-63 | no contract of its own: the per-mode reference command that `BuildCommand` is proved to return; specified by the `PredictProperties` lemmas below |
| `Predict.BuildCommand` | predict.py:19-63 | the step-by-step builder returns the per-mode command, and the path it returns is the output path |
| `PredictProperties.CommandSplits` | predict.py:23-63 | helper for the lemmas below: the command splits into the `ffmpeg -y` prefix, the declarations, the mode's flags and the output path, in that order |
| `PredictProperties.CommandStartsAndEnds` | predict.py:20-63 | the command starts with `ffmpeg`, `-y` and ends with the output path, one of three fixed files |
| `PredictProperties.OutputPathChoices` | predict.py:12-20 | the output path is one of `/tmp/output.mp4`, `/tmp/output.mov`, `/tmp/output.avi`, and distinct formats give distinct paths |
| `PredictProperties.FormatNameRoundTrip` | predict.py:12-16 | a format's name parses back to it, and only its name does |
| `PredictProperties.ClassifyIsExhaustive` | predict.py:29-59 | every mode comes from exactly one combination of present and absent optional inputs |
| `PredictProperties.CommandDeclaresInputsInOrder` | predict.py:23-34 | right after the prefix, each input appears as `-i <path>`, the video at index 3, the audio at index 5 when present, the subtitle last |
| `PredictProperties.CountDeclarations` | predict.py:26-34 | the declarations hold one `-i` token per input plus any input path that is literally `-i` |
| `PredictProperties.FlagsHaveNoInputToken` | predict.py:41-60 | no flag of any mode is `-i` |
| `PredictProperties.CountInputTokens` | predict.py:23-63 | the command holds exactly 1 + [audio] + [subtitle] `-i` tokens, plus one for each input path that is itself `-i` |
| `PredictProperties.AudioReplacesTrack` | predict.py:41-45 | with audio the flags open with `-c:v copy -c:a aac -map 0:v:0 -map 1:a:0`, and with audio but no subtitle they are exactly that; `-map`, `-c:v` and `aac` appear if and only if audio is present |
| `PredictProperties.MapsSelectDeclaredInputs` | predict.py:26-45 | every `-map` names a declared input: video streams come from input 0, the video file, and audio streams from input 1, the audio file |
| `PredictProperties.SubtitleBurnIn` | predict.py:49-55 | `-vf` appears if and only if a subtitle is present, exactly once, after the audio flags, followed by `subtitles=` and the raw subtitle path |
| `PredictProperties.SubtitleOnlyKeepsAudio` | predict.py:53-56 | subtitle without audio gives exactly `-vf subtitles=<path> -c:a copy`, with no `-map`, no `-c:v` and no `-c` |
| `PredictProperties.VideoOnlyCopiesAllStreams` | predict.py:59-60 | `-c` appears if and only if neither optional input is present, and then the flags are exactly `-c copy` |
| `PredictProperties.AudioAndSubtitleFlags` | predict.py:41-52 | audio and subtitle together give exactly `-c:v copy -c:a aac -map 0:v:0 -map 1:a:0 -vf subtitles=<path>`, with no `-c:a copy` and no `-c` |
| `PredictProperties.FilterOnCopiedVideo` | predict.py:41-55 | `-c:v copy` and `-vf` occur together if and only if both audio and subtitle are present |

## Left out

- Running ffmpeg (`subprocess.run`, capturing its output, turning a non-zero exit into an exception, predict.py:68-78): process I/O around an external tool.
- The `print` logging (predict.py:65, 75, 77): output only, no effect on the command.
- The `cog` wrapper types `BasePredictor`, `Input` and `Path`, and the default `mp4`: files are their string form. A `Path` object is always truthy, so `if audio_file:` is modelled as "the audio file is given".
- Any normalisation `str()` applies to a `Path`: the model takes the string form as given.
- The locals `filter_parts` and `input_count` (predict.py:37-38, 46): they are never read.
- The code does none of the following, and the model adds none of it: re-encoding the subtitle to UTF-8 (the filter uses the raw path), naming `libx264`, a preset or a `crf` (in the subtitle-only mode the video codec is left to ffmpeg's default, in the audio+subtitle mode it is `copy`), escaping or quoting the path inside `subtitles=`, and a deadline on the child process.
