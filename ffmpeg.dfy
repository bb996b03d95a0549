/**
  The transcoding command: the argument list handed to the external
  `ffmpeg` process for a given output format. Running the process is not
  part of this module; its exit status is an input of the pipeline.
*/
module Ffmpeg {
  import opened Wrappers
  import opened Schemas

  /** Audio codec per audio format. */
  const AudioCodecs: map<string, string> := map[
    "mp3" := "libmp3lame",
    "wav" := "pcm_s16le",
    "m4a" := "aac",
    "aac" := "aac",
    "flac" := "flac",
    "opus" := "libopus",
    "ogg" := "libvorbis",
    "vorbis" := "libvorbis",
    "alac" := "alac"]

  /** (video codec, audio codec) per video container. */
  const VideoCodecs: map<string, (string, string)> := map[
    "mp4" := ("libx264", "aac"),
    "mkv" := ("libx264", "aac"),
    "mov" := ("libx264", "aac"),
    "avi" := ("libx264", "aac"),
    "flv" := ("libx264", "aac"),
    "webm" := ("libvpx-vp9", "libopus")]

  /** The filter graph for gif output: 15 frames per second, 640 pixels wide
      with the aspect ratio kept, Lanczos rescaling. */
  const GifFilter := "fps=15,scale=640:-1:flags=lanczos"

  /** The codec tables cover exactly their families, so every lookup the
      command makes on an output format succeeds. */
  lemma CodecTablesCoverFamilies()
    ensures AudioCodecs.Keys == AudioFormats
    ensures VideoCodecs.Keys == VideoFormats
  {
  }

  /** The video codec pair chosen for each video container. */
  lemma VideoCodecChoice(f: string)
    requires f in VideoFormats
    ensures VideoCodecs[f] == if f == "webm" then ("libvpx-vp9", "libopus") else ("libx264", "aac")
  {
  }

  /** The codec or filter arguments for one output format, by family; `None`
      is the failed table lookup. */
  function CodecArgs(outputFormat: string): Option<seq<string>> {
    if outputFormat in AudioFormats then
      if outputFormat in AudioCodecs then Some(["-vn", "-c:a", AudioCodecs[outputFormat]]) else None
    else if outputFormat in GifFormats then Some(["-vf", GifFilter, "-loop", "0"])
    else if outputFormat in VideoCodecs then
      Some(["-c:v", VideoCodecs[outputFormat].0, "-c:a", VideoCodecs[outputFormat].1])
    else None
  }

  /** The full argument list: overwrite, the input, the codec or filter
      arguments, the output. */
  function Invocation(input: string, output: string, outputFormat: string): Option<seq<string>> {
    var codecArgs := CodecArgs(outputFormat);
    if codecArgs.Some? then Some(["ffmpeg", "-y", "-i", input] + codecArgs.value + [output]) else None
  }

  /** The lookups succeed exactly for the output formats. */
  lemma InvocationDefined(input: string, output: string, outputFormat: string)
    ensures Invocation(input, output, outputFormat).Some? <==> outputFormat in OutputFormats
  {
    CodecTablesCoverFamilies();
  }

  /**
    The command line for transcoding `input` to `output` in `outputFormat`,
    built up argument by argument. `None` is the failed table lookup for a
    format outside every family.
  */
  method FfmpegCommand(input: string, output: string, outputFormat: string) returns (cmd: Option<seq<string>>)
    ensures cmd == Invocation(input, output, outputFormat)
  {
    var args := ["ffmpeg", "-y", "-i", input];
    if outputFormat in AudioFormats {
      if outputFormat !in AudioCodecs {
        return None;
      }
      args := args + ["-vn", "-c:a", AudioCodecs[outputFormat]];
    } else if outputFormat in GifFormats {
      args := args + ["-vf", GifFilter, "-loop", "0"];
    } else if outputFormat in VideoCodecs {
      var (vcodec, acodec) := VideoCodecs[outputFormat];
      args := args + ["-c:v", vcodec, "-c:a", acodec];
    } else {
      return None;
    }
    args := args + [output];
    cmd := Some(args);
  }

  /**
    The command for each family: it starts by overwriting and reading the
    input and ends with the output; audio drops the video stream and picks
    the format's audio codec, gif applies the filter graph and loops forever,
    webm uses VP9 with Opus and every other container H.264 with AAC.
  */
  lemma InvocationShape(input: string, output: string, outputFormat: string)
    requires outputFormat in OutputFormats
    ensures var cmd := Invocation(input, output, outputFormat);
      && cmd.Some? && |cmd.value| >= 5
      && cmd.value[..4] == ["ffmpeg", "-y", "-i", input]
      && cmd.value[|cmd.value| - 1] == output
    ensures outputFormat in AudioFormats ==>
      Invocation(input, output, outputFormat) ==
        Some(["ffmpeg", "-y", "-i", input, "-vn", "-c:a", AudioCodecs[outputFormat], output])
    ensures outputFormat in GifFormats ==>
      Invocation(input, output, outputFormat) ==
        Some(["ffmpeg", "-y", "-i", input, "-vf", GifFilter, "-loop", "0", output])
    ensures outputFormat == "webm" ==>
      Invocation(input, output, outputFormat) ==
        Some(["ffmpeg", "-y", "-i", input, "-c:v", "libvpx-vp9", "-c:a", "libopus", output])
    ensures outputFormat in VideoFormats - {"webm"} ==>
      Invocation(input, output, outputFormat) ==
        Some(["ffmpeg", "-y", "-i", input, "-c:v", "libx264", "-c:a", "aac", output])
  {
    FamilyOf(outputFormat);
    if outputFormat in VideoFormats {
      VideoInvocation(input, output, outputFormat);
    } else if outputFormat in AudioFormats {
      AudioInvocation(input, output, outputFormat);
    } else {
      GifInvocation(input, output, outputFormat);
    }
  }

  lemma VideoInvocation(input: string, output: string, outputFormat: string)
    requires outputFormat in VideoFormats
    ensures Invocation(input, output, outputFormat) ==
      Some(["ffmpeg", "-y", "-i", input, "-c:v", VideoCodecs[outputFormat].0, "-c:a", VideoCodecs[outputFormat].1, output])
    ensures VideoCodecs[outputFormat] == if outputFormat == "webm" then ("libvpx-vp9", "libopus") else ("libx264", "aac")
  {
    CodecTablesCoverFamilies();
    FamilyOf(outputFormat);
    VideoCodecChoice(outputFormat);
    var pair := VideoCodecs[outputFormat];
    assert CodecArgs(outputFormat) == Some(["-c:v", pair.0, "-c:a", pair.1]);
    assert ["ffmpeg", "-y", "-i", input] + ["-c:v", pair.0, "-c:a", pair.1] + [output] ==
      ["ffmpeg", "-y", "-i", input, "-c:v", pair.0, "-c:a", pair.1, output];
  }

  lemma AudioInvocation(input: string, output: string, outputFormat: string)
    requires outputFormat in AudioFormats
    ensures Invocation(input, output, outputFormat) ==
      Some(["ffmpeg", "-y", "-i", input, "-vn", "-c:a", AudioCodecs[outputFormat], output])
  {
    CodecTablesCoverFamilies();
    var codec := AudioCodecs[outputFormat];
    assert CodecArgs(outputFormat) == Some(["-vn", "-c:a", codec]);
    assert ["ffmpeg", "-y", "-i", input] + ["-vn", "-c:a", codec] + [output] ==
      ["ffmpeg", "-y", "-i", input, "-vn", "-c:a", codec, output];
  }

  lemma GifInvocation(input: string, output: string, outputFormat: string)
    requires outputFormat in GifFormats
    ensures Invocation(input, output, outputFormat) ==
      Some(["ffmpeg", "-y", "-i", input, "-vf", GifFilter, "-loop", "0", output])
  {
    FamilyOf(outputFormat);
    assert CodecArgs(outputFormat) == Some(["-vf", GifFilter, "-loop", "0"]);
    assert ["ffmpeg", "-y", "-i", input] + ["-vf", GifFilter, "-loop", "0"] + [output] ==
      ["ffmpeg", "-y", "-i", input, "-vf", GifFilter, "-loop", "0", output];
  }

  /** The audio codec chosen for each audio format. */
  lemma AudioCodecChoices()
    ensures AudioCodecs["mp3"] == "libmp3lame" && AudioCodecs["wav"] == "pcm_s16le"
    ensures AudioCodecs["m4a"] == "aac" && AudioCodecs["aac"] == "aac"
    ensures AudioCodecs["flac"] == "flac" && AudioCodecs["opus"] == "libopus"
    ensures AudioCodecs["ogg"] == "libvorbis" && AudioCodecs["vorbis"] == "libvorbis"
    ensures AudioCodecs["alac"] == "alac"
  {
  }
}
