/**
  The "best audio, least-resolution video" ranker. The engine's probe result
  is an input: the list of stream descriptors it reported, in its order.
*/
module Ranker {
  import opened Wrappers
  import opened Extremes

  /** One stream variant as the engine reports it; the optional fields may be
      missing from the engine's record. */
  datatype Format = Format(
    formatId: string,
    acodec: Option<string>,
    vcodec: Option<string>,
    height: Option<int>,
    abr: Option<real>,
    tbr: Option<real>)

  /** A codec field that names a codec: present and not the string `none`. */
  predicate Carries(codec: Option<string>) {
    codec.Some? && codec.value != "none"
  }

  predicate IsAudioOnly(f: Format) {
    Carries(f.acodec) && !Carries(f.vcodec)
  }

  /** A stream carrying video of a known height; it may carry audio too. */
  predicate IsVideoStream(f: Format) {
    Carries(f.vcodec) && f.height.Some?
  }

  /** The audio-only streams, in the engine's order. */
  function AudioStreams(fs: seq<Format>): (r: seq<Format>)
    ensures forall f :: f in r <==> f in fs && IsAudioOnly(f)
    ensures |r| <= |fs|
  {
    if |fs| == 0 then []
    else (if IsAudioOnly(fs[0]) then [fs[0]] else []) + AudioStreams(fs[1..])
  }

  /** The video-only streams with a known height, in the engine's order. */
  function VideoStreams(fs: seq<Format>): (r: seq<Format>)
    ensures forall f :: f in r <==> f in fs && IsVideoStream(f)
    ensures |r| <= |fs|
  {
    if |fs| == 0 then []
    else (if IsVideoStream(fs[0]) then [fs[0]] else []) + VideoStreams(fs[1..])
  }

  /** `x or 0.0` for an optional bitrate. */
  function OrZero(x: Option<real>): real {
    if x.Some? then x.value else 0.0
  }

  /** `(abr or 0, tbr or 0)`. */
  function AudioRank(f: Format): Rank {
    Rank(OrZero(f.abr), OrZero(f.tbr))
  }

  /** `(height or 10000, tbr or 0)`: a missing or zero height ranks as 10000. */
  function VideoRank(f: Format): Rank {
    Rank(if f.height.Some? && f.height.value != 0 then f.height.value as real else 10000.0, OrZero(f.tbr))
  }

  function AudioRanks(fs: seq<Format>): (ks: seq<Rank>)
    ensures |ks| == |fs| && forall i :: 0 <= i < |fs| ==> ks[i] == AudioRank(fs[i])
  {
    seq(|fs|, i requires 0 <= i < |fs| => AudioRank(fs[i]))
  }

  function VideoRanks(fs: seq<Format>): (ks: seq<Rank>)
    ensures |ks| == |fs| && forall i :: 0 <= i < |fs| ==> ks[i] == VideoRank(fs[i])
  {
    seq(|fs|, i requires 0 <= i < |fs| => VideoRank(fs[i]))
  }

  /** `max(audio_formats, key=audio_rank, default=None)`. */
  function BestAudio(fs: seq<Format>): (r: Option<Format>)
    ensures r.None? <==> forall f :: f in fs ==> !IsAudioOnly(f)
    ensures r.Some? ==> r.value in fs && IsAudioOnly(r.value)
    ensures r.Some? ==> forall f :: f in fs && IsAudioOnly(f) ==> !Below(AudioRank(r.value), AudioRank(f))
    ensures r.Some? ==> exists k: nat :: IsFirstMax(AudioRanks(AudioStreams(fs)), k) && r.value == AudioStreams(fs)[k]
  {
    var audio := AudioStreams(fs);
    if |audio| == 0 then
      assert forall f :: f in fs ==> !IsAudioOnly(f);
      None
    else
      var k := FirstMaxIndex(AudioRanks(audio));
      assert forall f :: f in fs && IsAudioOnly(f) ==> !Below(AudioRank(audio[k]), AudioRank(f)) by {
        forall f | f in fs && IsAudioOnly(f) ensures !Below(AudioRank(audio[k]), AudioRank(f)) {
          var j :| 0 <= j < |audio| && audio[j] == f;
          assert !Below(AudioRanks(audio)[k], AudioRanks(audio)[j]);
        }
      }
      Some(audio[k])
  }

  /** `min(video_formats, key=video_rank, default=None)`. */
  function LeastResVideo(fs: seq<Format>): (r: Option<Format>)
    ensures r.None? <==> forall f :: f in fs ==> !IsVideoStream(f)
    ensures r.Some? ==> r.value in fs && IsVideoStream(r.value)
    ensures r.Some? ==> forall f :: f in fs && IsVideoStream(f) ==> !Below(VideoRank(f), VideoRank(r.value))
    ensures r.Some? ==> exists k: nat :: IsFirstMin(VideoRanks(VideoStreams(fs)), k) && r.value == VideoStreams(fs)[k]
  {
    var video := VideoStreams(fs);
    if |video| == 0 then
      assert forall f :: f in fs ==> !IsVideoStream(f);
      None
    else
      var k := FirstMinIndex(VideoRanks(video));
      assert forall f :: f in fs && IsVideoStream(f) ==> !Below(VideoRank(f), VideoRank(video[k])) by {
        forall f | f in fs && IsVideoStream(f) ensures !Below(VideoRank(f), VideoRank(video[k])) {
          var j :| 0 <= j < |video| && video[j] == f;
          assert !Below(VideoRanks(video)[j], VideoRanks(video)[k]);
        }
      }
      Some(video[k])
  }

  /**
    The selector for the sentinel quality: the least-resolution video joined
    with the best audio, or whichever of the two exists, or `best` when the
    engine reported neither kind of stream.
  */
  function SelectBestAudioLeastRes(fs: seq<Format>): (r: string)
    ensures (forall f :: f in fs ==> !IsAudioOnly(f) && !IsVideoStream(f)) ==> r == "best"
    ensures BestAudio(fs).Some? && LeastResVideo(fs).Some? ==>
      r == LeastResVideo(fs).value.formatId + "+" + BestAudio(fs).value.formatId
    ensures BestAudio(fs).None? && LeastResVideo(fs).Some? ==> r == LeastResVideo(fs).value.formatId
    ensures BestAudio(fs).Some? && LeastResVideo(fs).None? ==> r == BestAudio(fs).value.formatId
  {
    var audio := AudioStreams(fs);
    var video := VideoStreams(fs);
    if |audio| == 0 && |video| == 0 then "best"
    else
      var bestAudio := BestAudio(fs);
      var leastResVideo := LeastResVideo(fs);
      if leastResVideo.Some? && bestAudio.Some? then
        leastResVideo.value.formatId + "+" + bestAudio.value.formatId
      else if leastResVideo.Some? then leastResVideo.value.formatId
      else if bestAudio.Some? then bestAudio.value.formatId
      else "best"
  }

  /** No stream is on both sides of the partition. */
  lemma PartitionDisjoint(f: Format)
    ensures !(IsAudioOnly(f) && IsVideoStream(f))
  {
  }

  // A worked example: two audio streams at 128 and 256 kbit/s and two video
  // streams of height 360 and 144.
  const A128 := Format("a128", Some("opus"), Some("none"), None, Some(128.0), None)
  const A256 := Format("a256", Some("opus"), Some("none"), None, Some(256.0), None)
  const V360 := Format("v360", Some("none"), Some("vp9"), Some(360), None, None)
  const V144 := Format("v144", Some("none"), Some("vp9"), Some(144), None, None)
  const Example := [A128, A256, V360, V144]

  /** The two video streams on their own. */
  lemma VideoTailStreams()
    ensures AudioStreams([V360, V144]) == [] && VideoStreams([V360, V144]) == [V360, V144]
  {
    assert [V360, V144][1..] == [V144];
    assert [V144][1..] == [];
  }

  lemma ExampleStreams()
    ensures AudioStreams(Example) == [A128, A256]
    ensures VideoStreams(Example) == [V360, V144]
  {
    LastThreeStreams();
    assert Example[1..] == [A256, V360, V144];
  }

  lemma LastThreeStreams()
    ensures AudioStreams([A256, V360, V144]) == [A256]
    ensures VideoStreams([A256, V360, V144]) == [V360, V144]
  {
    VideoTailStreams();
    assert [A256, V360, V144][1..] == [V360, V144];
  }

  lemma ExampleBestAudio()
    ensures BestAudio(Example) == Some(A256)
  {
    ExampleStreams();
    var ks := AudioRanks([A128, A256]);
    assert ks == [Rank(128.0, 0.0), Rank(256.0, 0.0)];
    assert IsFirstMax(ks, 1);
    FirstMaxUnique(ks, 1, FirstMaxIndex(ks));
  }

  lemma ExampleLeastResVideo()
    ensures LeastResVideo(Example) == Some(V144)
  {
    ExampleStreams();
    var ks := VideoRanks([V360, V144]);
    assert ks == [Rank(360.0, 0.0), Rank(144.0, 0.0)];
    assert IsFirstMin(ks, 1);
    FirstMinUnique(ks, 1, FirstMinIndex(ks));
  }

  /** The worked example yields the 144 video joined with the 256 audio. */
  lemma FourStreams()
    ensures SelectBestAudioLeastRes(Example) == "v144+a256"
  {
    ExampleBestAudio();
    ExampleLeastResVideo();
    assert SelectBestAudioLeastRes(Example) == V144.formatId + "+" + A256.formatId;
    ExampleSelectorText();
  }

  lemma ExampleSelectorText()
    ensures V144.formatId + "+" + A256.formatId == "v144+a256"
  {
  }
}
