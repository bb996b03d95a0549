/**
  The closed sets of output formats and the validation of a download request:
  field defaults, the resolution bounds and the literal set of output formats.
*/
module Schemas {
  import opened Wrappers

  /** Video containers. */
  const VideoFormats: set<string> := {"mp4", "mkv", "mov", "webm", "avi", "flv"}

  /** The animated-image format. */
  const GifFormats: set<string> := {"gif"}

  /** Audio-only formats. */
  const AudioFormats: set<string> :=
    {"mp3", "wav", "m4a", "aac", "flac", "opus", "ogg", "vorbis", "alac"}

  /** Every format a request may ask for. */
  const OutputFormats: set<string> := VideoFormats + AudioFormats + GifFormats

  /** The `output_format` field's literal type, in its declared order. */
  const OutputFormatLiteral: seq<string> :=
    ["mp4", "mkv", "mov", "webm", "avi", "flv", "gif",
     "mp3", "wav", "m4a", "aac", "flac", "opus", "ogg", "vorbis", "alac"]

  const MinResolution := 144
  const MaxResolution := 4320
  const DefaultQuality := "best"
  const DefaultOutputFormat := "mp4"

  /** The three families share no format, and have 6, 1 and 9 members. */
  lemma FormatFamilies()
    ensures VideoFormats !! GifFormats && VideoFormats !! AudioFormats && GifFormats !! AudioFormats
    ensures |VideoFormats| == 6 && |GifFormats| == 1 && |AudioFormats| == 9
    ensures |OutputFormats| == 16
  {
    FamiliesDisjoint();
    VideoCount();
    AudioCount();
    assert |VideoFormats + AudioFormats| == 15;
  }

  lemma FamiliesDisjoint()
    ensures VideoFormats !! GifFormats && VideoFormats !! AudioFormats && GifFormats !! AudioFormats
  {
  }

  lemma VideoCount()
    ensures |VideoFormats| == 6
  {
    assert |{"mp4", "mkv", "mov", "webm", "avi"}| == 5;
  }

  lemma AudioCount()
    ensures |AudioFormats| == 9
  {
    assert |{"mp3", "wav", "m4a", "aac", "flac", "opus", "ogg"}| == 7;
    assert |{"mp3", "wav", "m4a", "aac", "flac", "opus", "ogg", "vorbis"}| == 8;
  }

  /** The family of one format: at most one of the three. */
  lemma FamilyOf(f: string)
    ensures f in GifFormats ==> f !in AudioFormats && f !in VideoFormats
    ensures f in VideoFormats ==> f !in AudioFormats
  {
  }

  /** The literal type admits exactly the output formats, and its default
      is one of them. */
  lemma LiteralIsOutputFormats(f: string)
    ensures f in OutputFormatLiteral <==> f in OutputFormats
    ensures DefaultOutputFormat in OutputFormats
  {
  }

  /** The empty string, which means "keep the downloaded file", is no format. */
  lemma EmptyIsNoFormat()
    ensures "" !in OutputFormats
  {
  }

  /** A validated request. `url` stands for an already validated absolute URL. */
  datatype DownloadRequest = DownloadRequest(
    url: string,
    quality: string,
    resolution: Option<int>,
    outputFormat: string)

  /** The fields that can fail validation, in declaration order. */
  datatype Field = ResolutionField | OutputFormatField

  /** The format requested, or the default when none is. */
  function RequestedFormat(outputFormat: Option<string>): string {
    if outputFormat.Some? then outputFormat.value else DefaultOutputFormat
  }

  predicate ResolutionOk(resolution: Option<int>) {
    resolution.None? || MinResolution <= resolution.value <= MaxResolution
  }

  /** The invariant every validated request satisfies. */
  predicate ValidRequest(r: DownloadRequest) {
    ResolutionOk(r.resolution) && r.outputFormat in OutputFormats
  }

  /**
    Building a request from the optional fields of a request body: missing
    fields take their defaults, and every field that breaks its constraint
    is reported, in declaration order.
  */
  function MakeRequest(url: string, quality: Option<string>, resolution: Option<int>,
                       outputFormat: Option<string>): (r: Result<DownloadRequest, seq<Field>>)
    ensures r.Success? <==> ResolutionOk(resolution) && RequestedFormat(outputFormat) in OutputFormats
    ensures r.Success? ==> ValidRequest(r.value)
    ensures r.Success? ==> r.value.url == url && r.value.resolution == resolution
    ensures r.Success? ==> r.value.quality == (if quality.Some? then quality.value else "best")
    ensures r.Success? ==> r.value.outputFormat == RequestedFormat(outputFormat)
    ensures r.Failure? ==>
      && |r.error| > 0
      && (ResolutionField in r.error <==> !ResolutionOk(resolution))
      && (OutputFormatField in r.error <==> RequestedFormat(outputFormat) !in OutputFormats)
  {
    var fmt := RequestedFormat(outputFormat);
    LiteralIsOutputFormats(fmt);
    var formatOk := fmt in OutputFormatLiteral;
    var errors :=
      (if ResolutionOk(resolution) then [] else [ResolutionField]) +
      (if formatOk then [] else [OutputFormatField]);
    if errors == [] then
      Success(DownloadRequest(url, if quality.Some? then quality.value else DefaultQuality, resolution, fmt))
    else
      Failure(errors)
  }
}
