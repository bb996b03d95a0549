# DLP API core in Dafny

DLP API is a small HTTP service around the yt-dlp extraction engine. A
client posts a media URL with a quality string, an optional maximum height
and an output format. The service builds a yt-dlp format selector and
downloads into a fresh per-request directory. It then locates the file the
engine produced and, when that file does not already have the requested
extension, transcodes it with ffmpeg and deletes the intermediate. An
optional bearer token guards the endpoints. Settings come from environment
variables, then a JSON configuration file, then defaults.

This project models that core and proves properties of the model:

- `wrappers.dfy`: `Option` and `Result`.
- `pystr.dfy`: the Python `str` operations the core depends on, with their
  CPython meaning:
  - `strip()` over the full `isspace()` set;
  - `lower()` and `upper()`;
  - `split` keeps empty pieces;
  - `join`, substring `in`, `startswith`, `lstrip(c)` and `str(int)`;
  - the truthiness of an optional string.
- `extremes.dfy`: `max` and `min` with a tuple key. Both return the *first*
  extreme element, as the builtins do.
- `schemas.dfy`: the three format families, and validation of a download
  request (defaults, resolution bounds, the literal set of formats).
- `selector.dfy`: the format-selector builder. `FormatSelector` is the
  rule-by-rule specification. `BuildFormatSelector` and `BuildCompound` are
  the looping implementation, proved equal to it.
- `ranker.dfy`: the "best audio, least resolution" stream ranker.
- `ffmpeg.dfy`: the ffmpeg argument list for each output format.
- `downloader.dfy`: the pipeline.
  - `PickLatestFile` locates the downloaded file; the suffix and extension
    logic sits beside it.
  - `Workspace` records what the pipeline does to the outside world: the
    request directory's listing, the downloads asked of the engine and the
    ffmpeg command lines run.
  - `Workspace.DownloadAndConvert` is proved against the `Pipeline`
    specification function, and `Workspace.Deliver` against `Delivery`,
    the part of `Pipeline` after the file is located.
- `security.dfy`: the bearer-token rule.
- `config.dfy`: the precedence of settings and the fallback for missing or
  broken configuration files.

External effects are not executed; they become parameters:

- what the engine's probe reports, or that it raised;
- the directory listing after the download, or that the download raised;
- ffmpeg's exit status;
- the modification time of the transcoded file;
- whether removing the intermediate file succeeded;
- the fresh request id.

Two behaviours of the code are modelled as they stand:

- When the probe for the ranking quality raises (app/downloader.py:147),
  the exception propagates and the request fails (`ProbeFailed`). There is
  no fallback to another selector.
- A configuration file that parses to something other than a JSON object
  is not treated as empty. `load_settings` fails at the first `.get` that
  actually runs (app/config.py:49-51). Each `or` short-circuits, so a
  lookup runs only for a setting whose environment value is unset or
  empty. With the token, the download root and the log level all set in
  the environment, such a file is never consulted. This is
  `Config.LoadSettings`'s `Failure` case and `Config.EnvOverridesFile`.

Every run starts from the fresh, empty request directory that `mkdir`
creates (app/downloader.py:142-144), so `DownloadAndConvert` resets the
listing before it does anything else.

## Model

| member | source | states |
|---|---|---|
| `PyStr.StripLeftShape` | app/downloader.py:18 | `lstrip()` keeps a suffix, drops only whitespace before it, and the suffix does not start with whitespace |
| `PyStr.StripRightShape` | app/downloader.py:18 | `rstrip()` keeps a prefix, drops only whitespace after it, and the prefix does not end with whitespace |
| `PyStr.StripIsSlice` | app/downloader.py:18 | `strip()` keeps one contiguous slice, removes only whitespace on both sides, and the slice neither starts nor ends with whitespace |
| `PyStr.StripIdempotent` | app/downloader.py:146 | stripping twice is stripping once |
| `PyStr.JoinSplit` | app/downloader.py:37-45 | joining the pieces of a split gives back the string |
| `PyStr.SplitPiecesAvoid` | app/downloader.py:37-39 | no piece of `split(c)` holds `c` |
| `PyStr.SplitJoin` | app/downloader.py:37-45 | splitting a join of separator-free pieces gives back the pieces |
| `PyStr.ContainsIffOccurs` | app/downloader.py:32 | substring `in` holds exactly when the substring occurs at some index |
| `PyStr.ParseNatToString` | app/downloader.py:27-28 | the decimal rendering of a resolution reads back as the same number |
| `PyStr.NatToStringDigits` | app/downloader.py:27-28 | `str(n)` of a natural number is decimal digits without a leading zero |
| `PyStr.IntToStringDigits` | app/downloader.py:41 | `str(n)` is decimal digits, after a minus sign exactly when `n` is negative |
| `PyStr.StripLeftCharShape` | app/downloader.py:171 | `lstrip(".")` removes exactly the leading run of dots and keeps the rest |
| `PyStr.LowerIdempotent` | app/security.py:26 | lower-casing twice is lower-casing once |
| `Schemas.FormatFamilies` | app/schemas.py:8-28 | video, gif and audio formats are pairwise disjoint, with 6, 1 and 9 members and 16 in all |
| `Schemas.FamilyOf` | app/schemas.py:8-28 | a format belongs to at most one family |
| `Schemas.LiteralIsOutputFormats` | app/schemas.py:43-60 | the literal type of `output_format` admits exactly the output formats, and its default `mp4` is one |
| `Schemas.EmptyIsNoFormat` | app/schemas.py:28 | the empty string is not an output format |
| `Schemas.MakeRequest` | app/schemas.py:31-60 | a request validates exactly when its resolution lies in 144..4320 (or is absent) and its format is in the set; missing fields default to `best` and `mp4`; every offending field is reported |
| `Selector.BuildFormatSelector` | app/downloader.py:17-45 | the selector computed branch by branch equals the rule-by-rule `FormatSelector` |
| `Selector.BuildCompound` | app/downloader.py:36-45 | the nested loops over `/`-alternatives and `+`-pieces compute `CapCompound` |
| `Selector.BestIsCanonical` | app/downloader.py:18-20 | the quality `best` is widened to `bestvideo*+bestaudio/best` |
| `Selector.NoResolution` | app/downloader.py:18-23 | without a resolution (or with 0) the selector is the stripped quality, with a missing, empty or `best` quality widened to the canonical form |
| `Selector.CanonicalCapped` | app/downloader.py:25-29 | the canonical form with a cap becomes capped best video plus best audio, then capped best, then best |
| `Selector.BestAt720` | app/downloader.py:25-29 | `best` at 720 gives `bestvideo*[height<=?720]+bestaudio/best[height<=?720]/best` |
| `Selector.SingleSelector` | app/downloader.py:31-34 | a selector without separators is kept when it names audio, and is otherwise capped with a trailing `/best` |
| `Selector.CompoundShape` | app/downloader.py:36-45 | a compound selector keeps its alternatives and pieces, in number and order; exactly the video pieces get the cap; an uncapped `best` is appended |
| `Selector.CompoundRule` | app/downloader.py:36-45 | the same shape stated on the normalised selector |
| `Selector.CompoundPieces` | app/downloader.py:36-45 | the `/`-alternatives of the result are the rewritten alternatives followed by `best` |
| `Selector.AlternativesCapped` | app/downloader.py:37-44 | each alternative is rewritten piece by piece |
| `Selector.AlternativesAvoidSlash` | app/downloader.py:37-44 | no rewritten alternative holds a `/` |
| `Selector.CapAlternativePieces` | app/downloader.py:38-44 | one alternative is rewritten piece by piece, and stays free of `/` |
| `Selector.VideoPieceIsBestOrBv` | app/downloader.py:40 | the `bestvideo` key of the video test is subsumed by `best` |
| `Selector.AudioPieceUncapped` | app/downloader.py:40-43 | a piece mentioning `audio` is never capped |
| `Selector.HeightCapNoSeparators` | app/downloader.py:41 | the cap text holds neither `/` nor `+` |
| `Extremes.FirstMaxIndex` | app/downloader.py:81 | `max` with a key returns the first element whose key no other key exceeds |
| `Extremes.FirstMinIndex` | app/downloader.py:82 | `min` with a key returns the first element whose key no other key is below |
| `Extremes.FirstMaxUnique` | app/downloader.py:81 | there is only one such first maximum |
| `Extremes.FirstMinUnique` | app/downloader.py:82 | there is only one such first minimum |
| `Ranker.AudioStreams` | app/downloader.py:57-61 | the audio list holds exactly the streams with an audio codec and no video codec |
| `Ranker.VideoStreams` | app/downloader.py:62-66 | the video list holds exactly the streams with a video codec and a known height |
| `Ranker.PartitionDisjoint` | app/downloader.py:57-66 | no stream is in both lists |
| `Ranker.BestAudio` | app/downloader.py:71-81 | none exactly when there is no audio-only stream; otherwise the first audio-only stream of maximal (abr, tbr), missing rates counting 0 |
| `Ranker.LeastResVideo` | app/downloader.py:76-82 | none exactly when there is no video stream; otherwise the first one of minimal (height, tbr), height 0 counting as 10000 |
| `Ranker.SelectBestAudioLeastRes` | app/downloader.py:68-90 | `best` when neither kind of stream exists; `video+audio` when both do; otherwise the one that exists |
| `Ranker.ExampleStreams` | app/downloader.py:57-66 | two audio streams and two video streams are partitioned as expected |
| `Ranker.ExampleBestAudio` | app/downloader.py:81 | of 128 and 256 kbit/s audio the 256 one is picked |
| `Ranker.ExampleLeastResVideo` | app/downloader.py:82 | of heights 360 and 144 the 144 one is picked |
| `Ranker.FourStreams` | app/downloader.py:84-85 | the example yields `v144+a256` |
| `Ffmpeg.CodecTablesCoverFamilies` | app/downloader.py:94-112 | the audio table covers exactly the audio formats and the video table exactly the video formats |
| `Ffmpeg.VideoCodecChoice` | app/downloader.py:105-112 | webm uses VP9 with Opus; every other container uses H.264 with AAC |
| `Ffmpeg.AudioCodecChoices` | app/downloader.py:94-104 | the codec chosen for each audio format |
| `Ffmpeg.InvocationDefined` | app/downloader.py:115-121 | the table lookups succeed exactly for the output formats |
| `Ffmpeg.FfmpegCommand` | app/downloader.py:93-123 | the command built argument by argument is `Invocation`, the table-driven command line (which `InvocationDefined` and `InvocationShape` describe) |
| `Ffmpeg.VideoInvocation` | app/downloader.py:114-123 | a video container gets `-c:v` and `-c:a` with its codec pair |
| `Ffmpeg.AudioInvocation` | app/downloader.py:114-116 | an audio format gets `-vn -c:a` with its codec |
| `Ffmpeg.GifInvocation` | app/downloader.py:117-118 | gif gets the filter graph and `-loop 0` |
| `Ffmpeg.InvocationShape` | app/downloader.py:114-123 | the command starts `ffmpeg -y -i <input>` and ends with the output; audio adds `-vn -c:a <codec>`; gif adds the 15 fps, 640-wide Lanczos filter and `-loop 0`; video adds its codec pair |
| `Downloader.Candidates` | app/downloader.py:129 | the candidates are exactly the regular files whose name starts with the request id |
| `Downloader.PickLatestFile` | app/downloader.py:128-132 | an error exactly when there is no candidate; otherwise a candidate with the latest mtime, the first of equally recent ones |
| `Downloader.LastIndexOfSpec` | app/downloader.py:171 | the last occurrence of a character, or none when it does not occur |
| `Downloader.SuffixShape` | app/downloader.py:171 | a path suffix is empty or a final dotted part, without another dot, that neither starts nor ends the name |
| `Downloader.SuffixExactly` | app/downloader.py:171 | a name has a suffix exactly when its last dot is neither its first nor its last character, and the suffix then runs from that dot to the end |
| `Downloader.SuffixOfDesired` | app/downloader.py:170-171 | the suffix of `id.ext` is `.ext` |
| `Downloader.OutputFormatsPlain` | app/schemas.py:28 | every output format is lower-case letters and digits |
| `Downloader.DesiredNeedsNoTranscode` | app/downloader.py:170-171 | a file named `id.<format>` has that format as its extension, so it is never transcoded |
| `Downloader.TranscodeSourceIsNotTarget` | app/downloader.py:170-176 | after a transcode the downloaded file is never the output file, so removal is always attempted |
| `Downloader.StoredContents` | app/downloader.py:172 | writing a file replaces any entry of that name |
| `Downloader.WithoutContents` | app/downloader.py:178 | removing a file drops exactly the entries of that name |
| `Downloader.TranscodeReplacesIntermediate` | app/downloader.py:170-180 | a transcode to a different file, with a successful removal, leaves the output file and nothing under the intermediate's name |
| `Downloader.ChildInjective` | app/downloader.py:176 | two files of one directory are the same path exactly when their names agree |
| `Downloader.DeliveryPassThrough` | app/downloader.py:167-174 | with no format, or a file whose extension already is the format, the located file is returned unchanged, with the listing and the command log as they were |
| `Downloader.DeliveredFileHeld` | app/downloader.py:165-182 | a returned path is a regular file of the request, held by the final listing |
| `Downloader.DeliveryRunsFfmpegOnce` | app/downloader.py:170-174 | ffmpeg runs at most once, and exactly when the file must be transcoded to a known format |
| `Downloader.DeliveryCommands` | app/downloader.py:167-174 | the command log grows by the table's command line exactly when a format is given, the file's extension differs from it and the tables know it |
| `Downloader.DeliveryKeepsListing` | app/downloader.py:167-180 | only a successful transcode to a known format changes the listing |
| `Downloader.RemovalFailureIgnored` | app/downloader.py:176-182 | a failed removal of the intermediate yields the same result and commands as a successful one, and leaves the intermediate beside the output file |
| `Downloader.DeliveryReplacesIntermediate` | app/downloader.py:170-182 | a successful transcode returns `id.<format>`, which is then listed, and the intermediate is gone |
| `Downloader.SelectionNeedsProbe` | app/downloader.py:146-149 | the selector is missing exactly when the ranking quality is asked for and the probe raised |
| `Downloader.NoSelectorStopsRun` | app/downloader.py:142-147 | without a selector the run fails before any download, runs no command and leaves the empty request directory |
| `Downloader.RunFetchesOnce` | app/downloader.py:150-165 | exactly one download runs, with the selector, the template `<root>/<id>/<id>.%(ext)s`, no playlists and 3 retries; a failed download fails with the empty request directory; a download that left no file of the request fails with what it wrote; neither runs an ffmpeg command |
| `Downloader.RunDeliversHeldFile` | app/downloader.py:135-182 | a successful run names the request and a regular file of it held by the final listing |
| `Downloader.Workspace.DownloadAndConvert` | app/downloader.py:135-182 | the downloads, the listing of the fresh request directory, the ffmpeg commands and the result are those `Pipeline` gives for the selector `Selection` resolves; the `Run*` and `Delivery*` lemmas state what that run does |
| `Downloader.Workspace.Deliver` | app/downloader.py:167-182 | the steps after the file is located leave the listing, the command log and the result that `Delivery` describes, and change no downloads |
| `Security.Authorize` | app/security.py:20-35 | with no token configured everything passes; otherwise a request passes exactly with bearer credentials equal to the token; a missing or non-bearer header gets 401 "Missing or invalid bearer token", a wrong token 401 "Invalid bearer token" |
| `Security.SchemeCaseInsensitive` | app/security.py:26 | the scheme is compared regardless of letter case |
| `Security.OtherSchemeIsMissing` | app/security.py:26-30 | a non-bearer header is treated exactly like a missing one |
| `Config.LoadSettings` | app/config.py:44-58 | fails exactly when the document is not an object and some setting is unset or empty in the environment, so that its `.get` runs; otherwise a non-empty environment value wins for each setting, the log level is upper-cased, and the file path is recorded |
| `Config.FileThenDefault` | app/config.py:49-51 | with an unset or empty environment variable, the file's non-empty value applies, then the default (`downloads`, `INFO`) |
| `Config.EnvOverridesFile` | app/config.py:49-51 | with the token, the download root and the log level all non-empty in the environment, the file is never consulted: the settings are those values, with the log level upper-cased |
| `Config.MissingFileIsEmpty` | app/config.py:34-42 | a missing, an unreadable and an empty configuration file give the same settings |
| `Config.Defaults` | app/config.py:44-58 | with nothing set and no file: no token, `downloads`, `INFO`, `config.json` |
| `Config.EmptyEnvIsUnset` | app/config.py:46-51 | an environment variable set to the empty string counts as unset |

## Left out

- The yt-dlp engine (probe and download), ffmpeg, `uuid4`, `mkdir`, `iterdir`, `stat` and `os.remove` are not executed. Their results are parameters of `DownloadAndConvert`.
- A failed `mkdir` of the request directory is not modelled.
- RunFetchesOnce: a download that raises is taken to leave the request directory empty; files it wrote before raising are not modelled.
- When ffmpeg fails, the listing is left as the download left it. A partial output file ffmpeg may have written is not modelled.
- ffmpeg itself is not modelled: its command line is recorded, and its exit status is an input. A missing ffmpeg binary counts as a failing status.
- Logging is left out: the ffmpeg command log line, the warnings, and logging configuration.
- `cleanup_request_dir` and the FastAPI endpoints of app/main.py are left out. app/main.py is the HTTP layer around the modelled core; it includes the 400 answer for an unsupported format and the 500 answer that wraps pipeline errors.
- Paths are sequences of components, and a name is appended as one component. A name containing `/` is not split. `Path.__str__` is modelled as joining the components with `/`.
- Stream fields the engine reports with types other than strings and numbers are not modelled.
- Bitrates are reals rather than floating-point numbers, so NaN and rounding are left out.
- `lower()` maps ASCII letters and the Kelvin sign; other non-ASCII case mappings are left out. `upper()` maps ASCII letters only. None of the literals compared against contain other letters.
- JSON parsing is not modelled. A configuration document is an object with optional string fields, or some other value. Non-string field values of an object are left out.
- Settings paths are kept as their text: the normalisation `Path(...)` applies to the configuration file path and the download root (app/config.py:46, app/config.py:50), such as collapsing repeated `/` or dropping a trailing `/`, is not modelled.
- Pydantic's URL validation and the `DLP_API_` prefix and case-insensitive lookup of the environment are left out. The environment is the four optional values as read.
- HTTPBearer's parsing of the Authorization header is left out. The credentials are its result.
- The startup warning for an unset token is left out; it is a log line.
