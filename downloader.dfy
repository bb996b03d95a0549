/**
  The download pipeline: choosing the format selector, fetching into a fresh
  request directory, locating the file the engine produced and, when its
  extension is not the requested one, transcoding it and dropping the
  intermediate file.

  The engine, ffmpeg and the file system are outside the model. What they
  report is passed in (the probe result, the directory listing after the
  fetch, ffmpeg's exit status, the outcome of the removal), and what the
  pipeline asks of them is recorded in the state of a `Workspace`.
*/
module Downloader {
  import opened Wrappers
  import opened PyStr
  import opened Extremes
  import opened Schemas
  import opened Selector
  import opened Ranker
  import opened Ffmpeg

  /** A file-system path as its sequence of components; the root of an
      absolute path is a leading empty component. */
  datatype Path = Path(parts: seq<string>) {
    /** `self / name` for a name without a separator. */
    function Child(name: string): Path {
      Path(parts + [name])
    }

    /** `str(self)`. */
    function Text(): string {
      Join(parts, '/')
    }
  }

  /** One entry of a directory listing: its name, whether it is a regular
      file, and its modification time. */
  datatype Entry = Entry(name: string, isFile: bool, mtime: real)

  /** How the pipeline can fail. */
  datatype PipelineError =
    | ProbeFailed                 // the engine's metadata probe raised
    | FetchFailed                 // the engine's download raised
    | NoOutputProduced            // no file of the request appeared
    | UnknownFormat(format: string)   // no codec table knows the format
    | TranscodeFailed(status: int)    // ffmpeg exited with a non-zero status

  /** The options handed to the engine for the download. */
  datatype FetchOptions = FetchOptions(
    format: string,
    outtmpl: string,
    noplaylist: bool,
    retries: nat,
    quiet: bool,
    noWarnings: bool)

  /** One download asked of the engine. */
  datatype Fetch = Fetch(url: string, options: FetchOptions)

  // ---------------------------------------------------------------------
  // Locating the downloaded file

  /** A file the engine produced for the request: a regular file whose name
      starts with the request id. */
  predicate IsCandidate(e: Entry, stem: string) {
    e.isFile && StartsWith(e.name, stem)
  }

  /** The candidates, in listing order. */
  function Candidates(listing: seq<Entry>, stem: string): (r: seq<Entry>)
    ensures forall e :: e in r <==> e in listing && IsCandidate(e, stem)
  {
    if |listing| == 0 then []
    else (if IsCandidate(listing[0], stem) then [listing[0]] else []) + Candidates(listing[1..], stem)
  }

  function MtimeRanks(es: seq<Entry>): (ks: seq<Rank>)
    ensures |ks| == |es| && forall i :: 0 <= i < |es| ==> ks[i] == Rank(es[i].mtime, 0.0)
  {
    seq(|es|, i requires 0 <= i < |es| => Rank(es[i].mtime, 0.0))
  }

  /**
    The most recently modified candidate, the first one in listing order
    among equally recent ones; no candidate at all is an error.
  */
  function PickLatestFile(listing: seq<Entry>, stem: string): (r: Result<Entry, PipelineError>)
    ensures r.Failure? <==> forall e :: e in listing ==> !IsCandidate(e, stem)
    ensures r.Failure? ==> r.error == NoOutputProduced
    ensures r.Success? ==> r.value in listing && IsCandidate(r.value, stem)
    ensures r.Success? ==> forall e :: e in listing && IsCandidate(e, stem) ==> e.mtime <= r.value.mtime
    ensures r.Success? ==>
      exists k: nat :: IsFirstMax(MtimeRanks(Candidates(listing, stem)), k) && r.value == Candidates(listing, stem)[k]
  {
    var cs := Candidates(listing, stem);
    if |cs| == 0 then
      assert forall e :: e in listing ==> !IsCandidate(e, stem);
      Failure(NoOutputProduced)
    else
      var ranks := MtimeRanks(cs);
      var k := FirstMaxIndex(ranks);
      assert cs[k] in cs;
      assert forall e :: e in listing && IsCandidate(e, stem) ==> e.mtime <= cs[k].mtime by {
        forall e | e in listing && IsCandidate(e, stem) ensures e.mtime <= cs[k].mtime {
          var j :| 0 <= j < |cs| && cs[j] == e;
          assert !Below(ranks[k], ranks[j]);
        }
      }
      assert IsFirstMax(ranks, k) && cs[k] == cs[k];
      Success(cs[k])
  }

  // ---------------------------------------------------------------------
  // File names

  /** The index of the last occurrence of `c`, if any. */
  function LastIndexOf(s: string, c: char): Option<nat>
    decreases |s|
  {
    if |s| == 0 then None
    else if s[|s| - 1] == c then Some(|s| - 1)
    else LastIndexOf(s[..|s| - 1], c)
  }

  /** `rfind`: none exactly when `c` does not occur, and otherwise an
      occurrence with no other after it. */
  lemma {:induction false} LastIndexOfSpec(s: string, c: char)
    ensures var r := LastIndexOf(s, c);
      && (r.None? ==> c !in s)
      && (r.Some? ==> r.value < |s| && s[r.value] == c)
      && (r.Some? ==> forall k :: r.value < k < |s| ==> s[k] != c)
    decreases |s|
  {
    if |s| > 0 && s[|s| - 1] != c {
      LastIndexOfSpec(s[..|s| - 1], c);
      assert forall x :: x in s ==> x in s[..|s| - 1] || x == s[|s| - 1];
    }
  }

  /** A path's suffix: from the last dot, unless that dot starts or ends the
      name, in which case there is none. */
  function Suffix(name: string): string {
    var i := LastIndexOf(name, '.');
    if i.Some? && 0 < i.value < |name| - 1 then name[i.value..] else ""
  }

  /** A suffix is empty or a final part of the name that starts with its
      only dot and neither starts nor ends the name. */
  lemma SuffixShape(name: string)
    ensures var r := Suffix(name);
      && (r == "" || (|r| >= 2 && |r| < |name| && r[0] == '.' && r == name[|name| - |r|..]))
      && (|r| > 0 ==> '.' !in r[1..])
  {
    var i := LastIndexOf(name, '.');
    LastIndexOfSpec(name, '.');
    if i.Some? && 0 < i.value < |name| - 1 {
      assert forall k :: 0 <= k < |name[i.value..][1..]| ==> name[i.value..][1..][k] == name[i.value + 1 + k];
    }
  }

  /** The dot that starts a suffix: the last dot of the name, neither its
      first nor its last character. */
  predicate SuffixDot(name: string, i: int) {
    0 < i < |name| - 1 && name[i] == '.' && forall k :: i < k < |name| ==> name[k] != '.'
  }

  /** A name has a suffix exactly when it has such a dot, and the suffix
      runs from that dot to the end of the name. */
  lemma SuffixExactly(name: string)
    ensures Suffix(name) != "" <==> exists i :: SuffixDot(name, i)
    ensures forall i :: SuffixDot(name, i) ==> Suffix(name) == name[i..]
  {
    var j := LastIndexOf(name, '.');
    LastIndexOfSpec(name, '.');
    forall i | SuffixDot(name, i) ensures Suffix(name) == name[i..] && Suffix(name) != "" {
      assert name[i] in name;
      assert j.Some? && j.value == i;
    }
    if Suffix(name) != "" {
      assert SuffixDot(name, j.value);
    }
  }

  /** `suffix.lower().lstrip(".")`: the extension the file is taken to have. */
  function ExtensionOf(name: string): string {
    StripLeftChar(Lower(Suffix(name)), '.')
  }

  /** Whether the downloaded file must be transcoded to reach the format. */
  predicate NeedsTranscode(name: string, outputFormat: string) {
    ExtensionOf(name) != outputFormat
  }

  /** The name of the transcoded file: the request id with the format as extension. */
  function DesiredName(requestId: string, outputFormat: string): string {
    requestId + "." + outputFormat
  }

  /** A format written in lower-case letters and digits only. */
  predicate PlainExtension(f: string) {
    |f| > 0 && forall i :: 0 <= i < |f| ==> 'a' <= f[i] <= 'z' || '0' <= f[i] <= '9'
  }

  /** Every output format is a plain extension. */
  lemma OutputFormatsPlain(f: string)
    requires f in OutputFormats
    ensures PlainExtension(f)
  {
  }

  /** The suffix of `stem.ext`, for a non-empty stem and an extension
      without a dot, is `.ext`. */
  lemma SuffixOfDesired(stem: string, ext: string)
    requires |stem| > 0 && |ext| > 0 && '.' !in ext
    ensures Suffix(stem + "." + ext) == "." + ext
  {
    var name := stem + "." + ext;
    assert name[|stem|] == '.';
    assert forall k :: |stem| < k < |name| ==> name[k] == ext[k - |stem| - 1];
    var i := LastIndexOf(name, '.');
    LastIndexOfSpec(name, '.');
    assert i.Some? && i.value == |stem|;
    assert name[|stem|..] == "." + ext;
  }

  /** Lower-casing leaves a plain extension, with or without a leading dot, as it is. */
  lemma LowerPlain(ext: string)
    requires PlainExtension(ext)
    ensures Lower("." + ext) == "." + ext
  {
    var dotted := "." + ext;
    forall k | 0 <= k < |dotted| ensures LowerChar(dotted[k]) == dotted[k] {
      if k > 0 {
        assert dotted[k] == ext[k - 1];
      }
    }
  }

  /** A plain extension has no dot. */
  lemma PlainHasNoDot(ext: string)
    requires PlainExtension(ext)
    ensures '.' !in ext && ext[0] != '.'
  {
    forall k | 0 <= k < |ext| ensures ext[k] != '.' {
      assert 'a' <= ext[k] <= 'z' || '0' <= ext[k] <= '9';
    }
  }

  /** A file named for the request in a plain format has that format as its
      extension, so it is never transcoded to it. */
  lemma DesiredNeedsNoTranscode(requestId: string, outputFormat: string)
    requires |requestId| > 0 && PlainExtension(outputFormat)
    ensures ExtensionOf(DesiredName(requestId, outputFormat)) == outputFormat
    ensures !NeedsTranscode(DesiredName(requestId, outputFormat), outputFormat)
  {
    PlainHasNoDot(outputFormat);
    SuffixOfDesired(requestId, outputFormat);
    LowerPlain(outputFormat);
    var dotted := "." + outputFormat;
    assert dotted[1..] == outputFormat;
    assert StripLeftChar(dotted, '.') == StripLeftChar(outputFormat, '.');
  }

  /** After a transcode the downloaded file is never the output file, so the
      pipeline always tries to remove it. */
  lemma TranscodeSourceIsNotTarget(requestId: string, name: string, outputFormat: string)
    requires |requestId| > 0 && outputFormat in OutputFormats
    requires NeedsTranscode(name, outputFormat)
    ensures name != DesiredName(requestId, outputFormat)
  {
    OutputFormatsPlain(outputFormat);
    DesiredNeedsNoTranscode(requestId, outputFormat);
  }

  // ---------------------------------------------------------------------
  // Steps of the pipeline

  /** Whether the quality names the probing ranker: it does after stripping
      and lower-casing. */
  predicate UsesRanker(quality: string) {
    Lower(Strip(quality)) == "bestaudioleastres"
  }

  /** The format selector the fetch uses; `None` when the ranker is wanted
      and the probe failed. */
  function Selection(quality: string, resolution: Option<int>, probe: Option<seq<Format>>): Option<string> {
    if UsesRanker(quality) then
      if probe.Some? then Some(SelectBestAudioLeastRes(probe.value)) else None
    else Some(FormatSelector(Some(quality), resolution))
  }

  /** The request's own directory under the download root. */
  function RequestDir(downloadRoot: Path, requestId: string): Path {
    downloadRoot.Child(requestId)
  }

  /** The engine's output template: the request id with the engine's
      extension placeholder, inside the request directory. */
  function OutputTemplate(downloadRoot: Path, requestId: string): string {
    RequestDir(downloadRoot, requestId).Child(requestId + ".%(ext)s").Text()
  }

  /** No playlists, three retries, no console output. */
  function FetchOptionsFor(selector: string, template: string): FetchOptions {
    FetchOptions(selector, template, true, 3, true, true)
  }

  /** The listing after a file named `e.name` is written: it replaces any
      entry of that name. */
  function Stored(listing: seq<Entry>, e: Entry): seq<Entry> {
    Without(listing, e.name) + [e]
  }

  /** The listing after the entry called `name` is removed. */
  function Without(listing: seq<Entry>, name: string): seq<Entry> {
    if |listing| == 0 then []
    else (if listing[0].name == name then [] else [listing[0]]) + Without(listing[1..], name)
  }

  /** Removing drops exactly the entries of that name. */
  lemma {:induction false} WithoutContents(listing: seq<Entry>, name: string)
    ensures forall x :: x in Without(listing, name) <==> x in listing && x.name != name
  {
    if |listing| > 0 {
      WithoutContents(listing[1..], name);
      assert listing == [listing[0]] + listing[1..];
    }
  }

  /** Writing `e` replaces every entry of its name by `e`. */
  lemma StoredContents(listing: seq<Entry>, e: Entry)
    ensures forall x :: x in Stored(listing, e) <==> x == e || (x in listing && x.name != e.name)
  {
    WithoutContents(listing, e.name);
  }

  /** The listing after a successful transcode from `source` to `target`
      written at `at`, with the source removed when it is a different file
      and the removal succeeds. */
  function AfterTranscode(listing: seq<Entry>, source: string, target: string, at: real,
                          removeSucceeds: bool): seq<Entry> {
    var written := Stored(listing, Entry(target, true, at));
    if source != target && removeSucceeds then Without(written, source) else written
  }

  /** A transcode to a different file, with a successful removal, leaves
      the output file and nothing under the intermediate's name. */
  lemma TranscodeReplacesIntermediate(listing: seq<Entry>, source: string, target: string, at: real)
    requires source != target
    ensures Entry(target, true, at) in AfterTranscode(listing, source, target, at, true)
    ensures forall x :: x in AfterTranscode(listing, source, target, at, true) ==> x.name != source
  {
    var written := Stored(listing, Entry(target, true, at));
    StoredContents(listing, Entry(target, true, at));
    WithoutContents(written, source);
  }

  /** The listing holds a regular file under the request directory at `p`,
      named for the request. */
  predicate Holds(listing: seq<Entry>, dir: Path, p: Path, stem: string) {
    exists e :: e in listing && e.isFile && StartsWith(e.name, stem) && p == dir.Child(e.name)
  }

  /** Two children of one directory are the same path exactly when their names are. */
  lemma ChildInjective(dir: Path, a: string, b: string)
    ensures dir.Child(a) == dir.Child(b) <==> a == b
  {
    if dir.Child(a) == dir.Child(b) {
      assert dir.Child(a).parts[|dir.parts|] == a;
    }
  }

  /** A located file is held by the listing it was found in. */
  lemma PickedHeld(listing: seq<Entry>, dir: Path, picked: Entry, requestId: string)
    requires picked in listing && IsCandidate(picked, requestId)
    ensures Holds(listing, dir, dir.Child(picked.name), requestId)
  {
  }

  /** The transcoded file is held by the listing after the transcode. */
  lemma OutputHeld(listing: seq<Entry>, dir: Path, requestId: string, outputFormat: string,
                   source: string, at: real, removeSucceeds: bool)
    ensures Holds(AfterTranscode(listing, source, DesiredName(requestId, outputFormat), at, removeSucceeds),
                  dir, dir.Child(DesiredName(requestId, outputFormat)), requestId)
  {
    var e := Entry(DesiredName(requestId, outputFormat), true, at);
    assert e.name[..|requestId|] == requestId;
    StoredContents(listing, e);
    WithoutContents(Stored(listing, e), source);
    assert e in AfterTranscode(listing, source, e.name, at, removeSucceeds);
  }

  /** The state a delivery leaves and its result. */
  datatype Outcome = Outcome(
    listing: seq<Entry>,
    commands: seq<seq<string>>,
    result: Result<(string, Path), PipelineError>)

  /**
    What happens once the downloaded file `picked` is located in `dir`,
    starting from the listing `before` and the command log `commandsBefore`.
    An empty format returns the file as it is, and so does a file whose
    extension already is the format. Otherwise ffmpeg is run once to
    `requestId.format` (a format outside the codec tables fails before it
    runs); a non-zero exit status is an error, and on success the output
    file is added and the intermediate removed when the removal succeeds.
  */
  function Delivery(before: seq<Entry>, commandsBefore: seq<seq<string>>, dir: Path, requestId: string,
                    picked: Entry, outputFormat: string, ffmpegStatus: int, transcodedAt: real,
                    removeSucceeds: bool): Outcome
  {
    var downloaded := dir.Child(picked.name);
    var desiredName := DesiredName(requestId, outputFormat);
    if outputFormat == "" || !NeedsTranscode(picked.name, outputFormat) then
      Outcome(before, commandsBefore, Success((requestId, downloaded)))
    else
      var cmd := Invocation(downloaded.Text(), dir.Child(desiredName).Text(), outputFormat);
      if cmd.None? then
        Outcome(before, commandsBefore, Failure(UnknownFormat(outputFormat)))
      else
      var commandsAfter := commandsBefore + [cmd.value];
      if ffmpegStatus != 0 then
        Outcome(before, commandsAfter, Failure(TranscodeFailed(ffmpegStatus)))
      else
        Outcome(AfterTranscode(before, picked.name, desiredName, transcodedAt, removeSucceeds),
                commandsAfter, Success((requestId, dir.Child(desiredName))))
  }

  /** A delivered path is a file of the request held by the final listing. */
  lemma DeliveredFileHeld(before: seq<Entry>, commandsBefore: seq<seq<string>>, dir: Path, requestId: string,
                          picked: Entry, outputFormat: string, ffmpegStatus: int, transcodedAt: real,
                          removeSucceeds: bool)
    requires picked in before && IsCandidate(picked, requestId)
    ensures var o := Delivery(before, commandsBefore, dir, requestId, picked, outputFormat,
                              ffmpegStatus, transcodedAt, removeSucceeds);
      o.result.Success? ==> o.result.value.0 == requestId && Holds(o.listing, dir, o.result.value.1, requestId)
  {
    if outputFormat == "" || !NeedsTranscode(picked.name, outputFormat) {
      PickedHeld(before, dir, picked, requestId);
    } else if Invocation(dir.Child(picked.name).Text(), dir.Child(DesiredName(requestId, outputFormat)).Text(),
                         outputFormat).Some? && ffmpegStatus == 0 {
      OutputHeld(before, dir, requestId, outputFormat, picked.name, transcodedAt, removeSucceeds);
    }
  }

  /** With no format, or a file that already has the format's extension,
      the located file is returned as it is and nothing changes. */
  lemma DeliveryPassThrough(before: seq<Entry>, commandsBefore: seq<seq<string>>, dir: Path, requestId: string,
                            picked: Entry, outputFormat: string, ffmpegStatus: int, transcodedAt: real,
                            removeSucceeds: bool)
    requires outputFormat == "" || !NeedsTranscode(picked.name, outputFormat)
    ensures Delivery(before, commandsBefore, dir, requestId, picked, outputFormat,
                     ffmpegStatus, transcodedAt, removeSucceeds) ==
      Outcome(before, commandsBefore, Success((requestId, dir.Child(picked.name))))
  {
  }

  /** ffmpeg runs at most once, and exactly when the file has to be transcoded
      to a known format. */
  lemma DeliveryRunsFfmpegOnce(before: seq<Entry>, commandsBefore: seq<seq<string>>, dir: Path, requestId: string,
                               picked: Entry, outputFormat: string, ffmpegStatus: int, transcodedAt: real,
                               removeSucceeds: bool)
    ensures var o := Delivery(before, commandsBefore, dir, requestId, picked, outputFormat,
                              ffmpegStatus, transcodedAt, removeSucceeds);
      && |o.commands| >= |commandsBefore|
      && o.commands[..|commandsBefore|] == commandsBefore
      && (|o.commands| == |commandsBefore| + 1 <==>
            outputFormat in OutputFormats && NeedsTranscode(picked.name, outputFormat))
      && (|o.commands| == |commandsBefore| <==>
            !(outputFormat in OutputFormats && NeedsTranscode(picked.name, outputFormat)))
  {
    EmptyIsNoFormat();
    InvocationDefined(dir.Child(picked.name).Text(), dir.Child(DesiredName(requestId, outputFormat)).Text(),
                      outputFormat);
    DeliveryCommands(before, commandsBefore, dir, requestId, picked, outputFormat, ffmpegStatus, transcodedAt,
                     removeSucceeds);
  }

  /** The command log grows by the table's command line exactly when one
      exists and the file has to be transcoded. */
  lemma DeliveryCommands(before: seq<Entry>, commandsBefore: seq<seq<string>>, dir: Path, requestId: string,
                         picked: Entry, outputFormat: string, ffmpegStatus: int, transcodedAt: real,
                         removeSucceeds: bool)
    ensures var o := Delivery(before, commandsBefore, dir, requestId, picked, outputFormat,
                              ffmpegStatus, transcodedAt, removeSucceeds);
      var cmd := Invocation(dir.Child(picked.name).Text(), dir.Child(DesiredName(requestId, outputFormat)).Text(),
                            outputFormat);
      o.commands == if outputFormat != "" && NeedsTranscode(picked.name, outputFormat) && cmd.Some?
        then commandsBefore + [cmd.value] else commandsBefore
  {
  }

  /** The listing is only changed by a successful transcode. */
  lemma DeliveryKeepsListing(before: seq<Entry>, commandsBefore: seq<seq<string>>, dir: Path,
                             requestId: string, picked: Entry, outputFormat: string,
                             ffmpegStatus: int, transcodedAt: real, removeSucceeds: bool)
    ensures var o := Delivery(before, commandsBefore, dir, requestId, picked, outputFormat,
                              ffmpegStatus, transcodedAt, removeSucceeds);
      o.listing != before ==>
        o.result.Success? && ffmpegStatus == 0 && outputFormat in OutputFormats && NeedsTranscode(picked.name, outputFormat)
  {
    InvocationDefined(dir.Child(picked.name).Text(), dir.Child(DesiredName(requestId, outputFormat)).Text(),
                      outputFormat);
  }

  /** A failed removal of the intermediate is only logged: the result and
      the command log are those of a successful removal, and the directory
      then still holds the intermediate beside the output file. */
  lemma RemovalFailureIgnored(before: seq<Entry>, commandsBefore: seq<seq<string>>, dir: Path,
                              requestId: string, picked: Entry, outputFormat: string,
                              ffmpegStatus: int, transcodedAt: real)
    ensures var kept := Delivery(before, commandsBefore, dir, requestId, picked, outputFormat,
                                 ffmpegStatus, transcodedAt, false);
      var removed := Delivery(before, commandsBefore, dir, requestId, picked, outputFormat,
                              ffmpegStatus, transcodedAt, true);
      && kept.result == removed.result
      && kept.commands == removed.commands
      && (kept.listing != before ==>
            kept.listing == Stored(before, Entry(DesiredName(requestId, outputFormat), true, transcodedAt)))
  {
    var desiredName := DesiredName(requestId, outputFormat);
    if outputFormat != "" && NeedsTranscode(picked.name, outputFormat) &&
       Invocation(dir.Child(picked.name).Text(), dir.Child(desiredName).Text(), outputFormat).Some? &&
       ffmpegStatus == 0
    {
      assert AfterTranscode(before, picked.name, desiredName, transcodedAt, false) ==
        Stored(before, Entry(desiredName, true, transcodedAt));
    }
  }

  /** After a successful transcode and removal, the directory holds the
      output file and nothing under the intermediate's name. */
  lemma DeliveryReplacesIntermediate(before: seq<Entry>, commandsBefore: seq<seq<string>>, dir: Path,
                                     requestId: string, picked: Entry, outputFormat: string, transcodedAt: real)
    requires |requestId| > 0 && outputFormat in OutputFormats && NeedsTranscode(picked.name, outputFormat)
    ensures var o := Delivery(before, commandsBefore, dir, requestId, picked, outputFormat, 0, transcodedAt, true);
      && o.result == Success((requestId, dir.Child(DesiredName(requestId, outputFormat))))
      && Entry(DesiredName(requestId, outputFormat), true, transcodedAt) in o.listing
      && forall x :: x in o.listing ==> x.name != picked.name
  {
    EmptyIsNoFormat();
    InvocationDefined(dir.Child(picked.name).Text(), dir.Child(DesiredName(requestId, outputFormat)).Text(),
                      outputFormat);
    TranscodeSourceIsNotTarget(requestId, picked.name, outputFormat);
    TranscodeReplacesIntermediate(before, picked.name, DesiredName(requestId, outputFormat), transcodedAt);
    assert Delivery(before, commandsBefore, dir, requestId, picked, outputFormat, 0, transcodedAt, true).listing ==
      AfterTranscode(before, picked.name, DesiredName(requestId, outputFormat), transcodedAt, true);
  }

  /** The state a whole run leaves and its result. */
  datatype Run = Run(
    listing: seq<Entry>,
    fetches: seq<Fetch>,
    commands: seq<seq<string>>,
    result: Result<(string, Path), PipelineError>)

  /**
    One request, from the download log and command log before it and the
    resolved selector (`Selection`; `None`: the probe raised): create the
    fresh, empty request directory, fetch once, locate the newest file of
    the request and deliver it. `requestId` is the fresh id, `fetched` the
    request directory after the download (`None`: the download raised),
    `ffmpegStatus` ffmpeg's exit status, `transcodedAt` the output file's
    modification time and `removeSucceeds` whether the intermediate file
    could be removed.
  */
  function Pipeline(fetches: seq<Fetch>, commands: seq<seq<string>>,
                    url: string, selector: Option<string>, outputFormat: string,
                    downloadRoot: Path, requestId: string, fetched: Option<seq<Entry>>,
                    ffmpegStatus: int, transcodedAt: real, removeSucceeds: bool): Run
  {
    if selector.None? then Run([], fetches, commands, Failure(ProbeFailed))
    else
      var fetchesAfter := fetches + [Fetch(url, FetchOptionsFor(selector.value, OutputTemplate(downloadRoot, requestId)))];
      if fetched.None? then Run([], fetchesAfter, commands, Failure(FetchFailed))
      else
        var picked := PickLatestFile(fetched.value, requestId);
        if picked.Failure? then Run(fetched.value, fetchesAfter, commands, Failure(picked.error))
        else
          var o := Delivery(fetched.value, commands, RequestDir(downloadRoot, requestId), requestId, picked.value,
                            outputFormat, ffmpegStatus, transcodedAt, removeSucceeds);
          Run(o.listing, fetchesAfter, o.commands, o.result)
  }

  /** Only the ranking quality needs the probe: the selector is missing
      exactly when the ranker is asked for and the probe failed. */
  lemma SelectionNeedsProbe(quality: string, resolution: Option<int>, probe: Option<seq<Format>>)
    ensures Selection(quality, resolution, probe).None? <==> UsesRanker(quality) && probe.None?
  {
  }

  /** Without a selector the run stops before the download: it leaves the
      empty request directory and asks for no download and no command. */
  lemma NoSelectorStopsRun(fetches: seq<Fetch>, commands: seq<seq<string>>,
                           url: string, outputFormat: string, downloadRoot: Path, requestId: string,
                           fetched: Option<seq<Entry>>, ffmpegStatus: int, transcodedAt: real,
                           removeSucceeds: bool)
    ensures Pipeline(fetches, commands, url, None, outputFormat, downloadRoot, requestId,
                     fetched, ffmpegStatus, transcodedAt, removeSucceeds) ==
      Run([], fetches, commands, Failure(ProbeFailed))
  {
  }

  /**
    With a selector exactly one download is asked for, with that selector,
    the request's template, no playlists and three retries; a failed
    download leaves the request directory empty and runs no command, and a
    download that produced no file of the request leaves what it wrote and
    runs no command.
  */
  lemma RunFetchesOnce(fetches: seq<Fetch>, commands: seq<seq<string>>,
                       url: string, selector: string, outputFormat: string, downloadRoot: Path,
                       requestId: string, fetched: Option<seq<Entry>>, ffmpegStatus: int, transcodedAt: real,
                       removeSucceeds: bool)
    ensures var r := Pipeline(fetches, commands, url, Some(selector), outputFormat, downloadRoot,
                              requestId, fetched, ffmpegStatus, transcodedAt, removeSucceeds);
      && r.fetches == fetches + [Fetch(url, FetchOptions(selector, OutputTemplate(downloadRoot, requestId),
                                                         true, 3, true, true))]
      && (fetched.None? ==> r.result == Failure(FetchFailed) && r.listing == [] && r.commands == commands)
      && (fetched.Some? && (forall e :: e in fetched.value ==> !IsCandidate(e, requestId)) ==>
            r.result == Failure(NoOutputProduced) && r.listing == fetched.value && r.commands == commands)
  {
  }

  /** A result names the request and a file of the request held by the
      final listing of its directory. */
  lemma RunDeliversHeldFile(fetches: seq<Fetch>, commands: seq<seq<string>>,
                            url: string, selector: Option<string>, outputFormat: string, downloadRoot: Path,
                            requestId: string, fetched: Option<seq<Entry>>, ffmpegStatus: int, transcodedAt: real,
                            removeSucceeds: bool)
    ensures var r := Pipeline(fetches, commands, url, selector, outputFormat, downloadRoot,
                              requestId, fetched, ffmpegStatus, transcodedAt, removeSucceeds);
      r.result.Success? ==>
        r.result.value.0 == requestId && Holds(r.listing, RequestDir(downloadRoot, requestId), r.result.value.1, requestId)
  {
    if selector.Some? && fetched.Some? {
      var picked := PickLatestFile(fetched.value, requestId);
      if picked.Success? {
        DeliveredFileHeld(fetched.value, commands, RequestDir(downloadRoot, requestId), requestId, picked.value,
                          outputFormat, ffmpegStatus, transcodedAt, removeSucceeds);
      }
    }
  }

  /**
    The effects of one pipeline run, against the outside world as far as the
    pipeline can see it.
  */
  class Workspace {
    /** The entries of the current request's directory. */
    var listing: seq<Entry>
    /** The downloads asked of the engine, in order. */
    var fetches: seq<Fetch>
    /** The ffmpeg command lines run, in order. */
    var commands: seq<seq<string>>

    constructor ()
      ensures listing == [] && fetches == [] && commands == []
    {
      listing := [];
      fetches := [];
      commands := [];
    }

    /** One request, as the source runs it; see `Pipeline` for the parameters. */
    method DownloadAndConvert(url: string, quality: string, resolution: Option<int>,
                              outputFormat: string, downloadRoot: Path, requestId: string,
                              probe: Option<seq<Format>>, fetched: Option<seq<Entry>>,
                              ffmpegStatus: int, transcodedAt: real, removeSucceeds: bool)
      returns (res: Result<(string, Path), PipelineError>)
      modifies this
      ensures Run(listing, fetches, commands, res) ==
        Pipeline(old(fetches), old(commands), url, Selection(quality, resolution, probe),
                 outputFormat, downloadRoot, requestId, fetched, ffmpegStatus, transcodedAt, removeSucceeds)
    {
      var requestDir := downloadRoot.Child(requestId);
      listing := [];
      var selector: string;
      if Lower(Strip(quality)) == "bestaudioleastres" {
        if probe.None? {
          return Failure(ProbeFailed);
        }
        selector := SelectBestAudioLeastRes(probe.value);
      } else {
        selector := BuildFormatSelector(Some(quality), resolution);
      }
      var template := requestDir.Child(requestId + ".%(ext)s").Text();
      fetches := fetches + [Fetch(url, FetchOptions(selector, template, true, 3, true, true))];
      if fetched.None? {
        return Failure(FetchFailed);
      }
      listing := fetched.value;
      var picked := PickLatestFile(listing, requestId);
      if picked.Failure? {
        return Failure(picked.error);
      }
      res := Deliver(requestDir, requestId, picked.value, outputFormat, ffmpegStatus, transcodedAt, removeSucceeds);
    }

    /** The part of the run after the downloaded file `picked` is located. */
    method Deliver(requestDir: Path, requestId: string, picked: Entry, outputFormat: string,
                   ffmpegStatus: int, transcodedAt: real, removeSucceeds: bool)
      returns (res: Result<(string, Path), PipelineError>)
      modifies this
      ensures fetches == old(fetches)
      ensures Outcome(listing, commands, res) ==
        Delivery(old(listing), old(commands), requestDir, requestId, picked, outputFormat,
                 ffmpegStatus, transcodedAt, removeSucceeds)
    {
      var downloaded := requestDir.Child(picked.name);
      if outputFormat == "" {
        return Success((requestId, downloaded));
      }
      var desiredName := requestId + "." + outputFormat;
      var desired := requestDir.Child(desiredName);
      var transcoded := false;
      if ExtensionOf(picked.name) != outputFormat {
        var cmd := FfmpegCommand(downloaded.Text(), desired.Text(), outputFormat);
        if cmd.None? {
          return Failure(UnknownFormat(outputFormat));
        }
        commands := commands + [cmd.value];
        if ffmpegStatus != 0 {
          return Failure(TranscodeFailed(ffmpegStatus));
        }
        listing := Stored(listing, Entry(desiredName, true, transcodedAt));
        transcoded := true;
      } else {
        desired := downloaded;
      }
      ChildInjective(requestDir, picked.name, desiredName);
      if downloaded != desired && removeSucceeds {
        listing := Without(listing, picked.name);
      }
      assert transcoded ==>
        listing == AfterTranscode(old(listing), picked.name, desiredName, transcodedAt, removeSucceeds);
      return Success((requestId, desired));
    }
  }
}
