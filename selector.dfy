/**
  The format selector: from a quality string and an optional height cap, the
  selector expression handed to the extraction engine. `/` separates
  alternatives, `+` joins streams to be merged, and a cap is the suffix
  `[height<=?R]` on a piece that selects video.
*/
module Selector {
  import opened Wrappers
  import opened PyStr

  /** Best video plus best audio, or else the best single stream. */
  const Canonical := "bestvideo*+bestaudio/best"

  /** `(quality or "best").strip()`, with a bare `best` widened to the canonical form. */
  function NormalizeQuality(quality: Option<string>): string {
    var base := Strip(if Truthy(quality) then quality.value else "best");
    if base == "best" then Canonical else base
  }

  /** The height cap for resolution `r`. */
  function HeightCap(r: int): string {
    "[height<=?" + IntToString(r) + "]"
  }

  /** A piece of a compound selector that names a video-bearing role
      and no audio role. */
  predicate IsVideoPiece(sel: string) {
    && (Contains(sel, "bestvideo") || Contains(sel, "bv") || Contains(sel, "best"))
    && !Contains(sel, "audio")
  }

  /** A selector with neither separator, taken to pick an audio track. */
  predicate IsAudioSelector(base: string) {
    Contains(base, "audio") || base in {"ba", "bestaudio"}
  }

  function CapPiece(sel: string, cap: string): string {
    if IsVideoPiece(sel) then sel + cap else sel
  }

  function CapPieces(sels: seq<string>, cap: string): (out: seq<string>)
    ensures |out| == |sels|
  {
    seq(|sels|, k requires 0 <= k < |sels| => CapPiece(sels[k], cap))
  }

  /** One alternative with each of its `+`-pieces capped as needed. */
  function CapAlternative(alt: string, cap: string): string {
    Join(CapPieces(Split(alt, '+'), cap), '+')
  }

  function CapAlternatives(alts: seq<string>, cap: string): (out: seq<string>)
    ensures |out| == |alts|
  {
    seq(|alts|, i requires 0 <= i < |alts| => CapAlternative(alts[i], cap))
  }

  /** Rule 4: every alternative capped piece by piece, then an uncapped `best`. */
  function CapCompound(base: string, cap: string): string {
    Join(CapAlternatives(Split(base, '/'), cap), '/') + "/best"
  }

  /** Rules 1 to 4 applied to an already normalised quality string. */
  function SelectorFor(base: string, resolution: Option<int>): string {
    if resolution.None? || resolution.value == 0 then base
    else
      var cap := HeightCap(resolution.value);
      if base == Canonical then
        "bestvideo*" + cap + "+bestaudio/" + "best" + cap + "/best"
      else if '+' !in base && '/' !in base then
        if IsAudioSelector(base) then base else base + cap + "/best"
      else
        CapCompound(base, cap)
  }

  /** The selector expression defined rule by rule. */
  function FormatSelector(quality: Option<string>, resolution: Option<int>): string {
    SelectorFor(NormalizeQuality(quality), resolution)
  }

  /** The selector as the source computes it: normalise, then dispatch on
      the shape of the quality string. */
  method BuildFormatSelector(quality: Option<string>, resolution: Option<int>) returns (r: string)
    ensures r == FormatSelector(quality, resolution)
  {
    var base := NormalizeQuality(quality);
    if resolution.None? || resolution.value == 0 {
      return base;
    }
    var cap := HeightCap(resolution.value);
    if base == Canonical {
      return "bestvideo*" + cap + "+bestaudio/" + "best" + cap + "/best";
    }
    if '+' !in base && '/' !in base {
      if Contains(base, "audio") || base in {"ba", "bestaudio"} {
        return base;
      }
      return base + cap + "/best";
    }
    r := BuildCompound(base, cap);
  }

  /** Rule 4 as the source computes it: walk the alternatives and their
      pieces, collecting the rewritten ones. */
  method BuildCompound(base: string, cap: string) returns (r: string)
    ensures r == CapCompound(base, cap)
  {
    var parts: seq<string> := [];
    var alts := Split(base, '/');
    for i := 0 to |alts|
      invariant |parts| == i
      invariant forall j :: 0 <= j < i ==> parts[j] == CapAlternative(alts[j], cap)
    {
      var subparts: seq<string> := [];
      var sels := Split(alts[i], '+');
      for k := 0 to |sels|
        invariant |subparts| == k
        invariant forall j :: 0 <= j < k ==> subparts[j] == CapPiece(sels[j], cap)
      {
        var sel := sels[k];
        if IsVideoPiece(sel) {
          subparts := subparts + [sel + cap];
        } else {
          subparts := subparts + [sel];
        }
      }
      assert subparts == CapPieces(sels, cap);
      parts := parts + [Join(subparts, '+')];
    }
    assert parts == CapAlternatives(alts, cap);
    r := Join(parts, '/') + "/best";
  }

  // -----------------------------------------------------------------------
  // Properties of the selector

  /** The height cap holds neither separator. */
  lemma HeightCapNoSeparators(r: int)
    ensures '/' !in HeightCap(r) && '+' !in HeightCap(r)
  {
    var digits := IntToString(r);
    IntToStringDigits(r);
    assert HeightCap(r) == "[height<=?" + digits + "]";
    assert forall i :: 0 <= i < |digits| ==> digits[i] != '/' && digits[i] != '+';
  }

  /** Whatever contains `bestvideo` contains `best`, so the first key of the
      video test is subsumed by the third. */
  lemma VideoPieceIsBestOrBv(sel: string)
    ensures IsVideoPiece(sel) <==> (Contains(sel, "bv") || Contains(sel, "best")) && !Contains(sel, "audio")
  {
    if Contains(sel, "bestvideo") {
      assert StartsWith("bestvideo", "best");
      ContainsPrefixOf(sel, "bestvideo", "best");
    }
  }

  lemma StripBest()
    ensures Strip("best") == "best"
  {
    StripUnchanged("best");
  }

  /** Without a cap the result is the normalised quality string: missing,
      empty or `best` become the canonical form, anything else is stripped. */
  lemma NoResolution(quality: Option<string>, resolution: Option<int>)
    requires resolution.None? || resolution.value == 0
    ensures var r := FormatSelector(quality, resolution);
      && (!Truthy(quality) ==> r == Canonical)
      && (Truthy(quality) && Strip(quality.value) == "best" ==> r == Canonical)
      && (Truthy(quality) && Strip(quality.value) != "best" ==> r == Strip(quality.value))
  {
    StripBest();
  }

  lemma CanonicalRule(base: string, r: int)
    requires base == Canonical && r != 0
    ensures SelectorFor(base, Some(r)) == "bestvideo*" + HeightCap(r) + "+bestaudio/best" + HeightCap(r) + "/best"
  {
  }

  /** The canonical form with a cap is the three-way fallback. */
  lemma CanonicalCapped(quality: Option<string>, r: int)
    requires NormalizeQuality(quality) == Canonical && r != 0
    ensures FormatSelector(quality, Some(r)) ==
      "bestvideo*" + HeightCap(r) + "+bestaudio/best" + HeightCap(r) + "/best"
  {
    CanonicalRule(NormalizeQuality(quality), r);
  }

  lemma Decimal720()
    ensures IntToString(720) == "720"
  {
    assert NatToString(7) == "7";
    assert NatToString(72) == "72";
  }

  lemma BestIsCanonical()
    ensures NormalizeQuality(Some("best")) == Canonical
  {
    StripBest();
  }

  lemma Cap720()
    ensures HeightCap(720) == "[height<=?720]"
  {
    Decimal720();
  }

  lemma Text720()
    ensures "bestvideo*" + "[height<=?720]" + "+bestaudio/best" + "[height<=?720]" + "/best" ==
      "bestvideo*[height<=?720]+bestaudio/best[height<=?720]/best"
  {
    Text720Head();
    assert "bestvideo*[height<=?720]+bestaudio/best" + "[height<=?720]" ==
      "bestvideo*[height<=?720]+bestaudio/best[height<=?720]";
  }

  lemma Text720Head()
    ensures "bestvideo*" + "[height<=?720]" + "+bestaudio/best" == "bestvideo*[height<=?720]+bestaudio/best"
  {
    assert "bestvideo*" + "[height<=?720]" == "bestvideo*[height<=?720]";
  }

  /** A quality of `best` capped at 720. */
  lemma BestAt720()
    ensures FormatSelector(Some("best"), Some(720)) ==
      "bestvideo*[height<=?720]+bestaudio/best[height<=?720]/best"
  {
    BestIsCanonical();
    CanonicalCapped(Some("best"), 720);
    Cap720();
    Text720();
  }

  lemma SingleRule(base: string, r: int)
    requires base != Canonical && r != 0 && '+' !in base && '/' !in base
    ensures SelectorFor(base, Some(r)) ==
      if Contains(base, "audio") || base == "ba" || base == "bestaudio" then base
      else base + HeightCap(r) + "/best"
  {
  }

  /** A single selector is left alone exactly when it names audio, and is
      otherwise capped with an uncapped `best` fallback. */
  lemma SingleSelector(quality: Option<string>, r: int)
    requires r != 0
    requires var base := NormalizeQuality(quality); base != Canonical && '+' !in base && '/' !in base
    ensures var base := NormalizeQuality(quality);
      FormatSelector(quality, Some(r)) ==
        if Contains(base, "audio") || base == "ba" || base == "bestaudio" then base
        else base + HeightCap(r) + "/best"
  {
    SingleRule(NormalizeQuality(quality), r);
  }

  /** The pieces of `out` are the pieces of `alt`, one for one and in order,
      each with the cap appended exactly when it is a video piece. */
  predicate PiecewiseCapped(alt: string, out: string, cap: string) {
    var ins := Split(alt, '+');
    var outs := Split(out, '+');
    && |outs| == |ins|
    && forall k :: 0 <= k < |ins| ==> outs[k] == (if IsVideoPiece(ins[k]) then ins[k] + cap else ins[k])
  }

  lemma CapAlternativePieces(alt: string, cap: string)
    requires '+' !in cap
    ensures PiecewiseCapped(alt, CapAlternative(alt, cap), cap)
    ensures '/' !in alt && '/' !in cap ==> '/' !in CapAlternative(alt, cap)
  {
    var pieces := CapPieces(Split(alt, '+'), cap);
    SplitPiecesAvoid(alt, '+');
    forall k | 0 <= k < |pieces| ensures '+' !in pieces[k] {
      assert '+' !in Split(alt, '+')[k];
    }
    SplitJoin(pieces, '+');
    if '/' !in alt && '/' !in cap {
      forall k | 0 <= k < |pieces| ensures '/' !in pieces[k] {
        var sel := Split(alt, '+')[k];
        assert '/' !in sel by {
          JoinSplit(alt, '+');
          SplitPieceIn(alt, '+', k, '/');
        }
      }
      JoinAvoids(pieces, '+', '/');
    }
  }

  /** A character absent from a string is absent from each of its pieces. */
  lemma {:induction false} SplitPieceIn(s: string, c: char, k: nat, d: char)
    requires d !in s
    requires k < |Split(s, c)|
    ensures d !in Split(s, c)[k]
    decreases |s|
  {
    if |s| > 0 {
      var rest := Split(s[1..], c);
      assert forall x :: x in s[1..] ==> x in s;
      if s[0] == c {
        if k > 0 {
          SplitPieceIn(s[1..], c, k - 1, d);
        }
      } else if k == 0 {
        SplitPieceIn(s[1..], c, 0, d);
      } else {
        SplitPieceIn(s[1..], c, k, d);
      }
    }
  }

  /** Each alternative is capped piecewise. */
  lemma AlternativesCapped(base: string, cap: string)
    requires '+' !in cap
    ensures forall i :: 0 <= i < |Split(base, '/')| ==>
      PiecewiseCapped(Split(base, '/')[i], CapAlternatives(Split(base, '/'), cap)[i], cap)
  {
    var alts := Split(base, '/');
    forall i | 0 <= i < |alts| ensures PiecewiseCapped(alts[i], CapAlternatives(alts, cap)[i], cap) {
      CapAlternativePieces(alts[i], cap);
    }
  }

  /** Like the cap, no capped alternative holds a `/`. */
  lemma AlternativesAvoidSlash(base: string, cap: string)
    requires '/' !in cap && '+' !in cap
    ensures forall i :: 0 <= i < |Split(base, '/')| ==> '/' !in CapAlternatives(Split(base, '/'), cap)[i]
  {
    var alts := Split(base, '/');
    SplitPiecesAvoid(base, '/');
    forall i | 0 <= i < |alts| ensures '/' !in CapAlternatives(alts, cap)[i] {
      CapAlternativePieces(alts[i], cap);
    }
  }

  /** The alternatives of the rewritten selector are the capped alternatives
      followed by `best`. */
  lemma CompoundPieces(base: string, cap: string)
    requires '/' !in cap && '+' !in cap
    ensures Split(CapCompound(base, cap), '/') == CapAlternatives(Split(base, '/'), cap) + ["best"]
  {
    var parts := CapAlternatives(Split(base, '/'), cap);
    AlternativesAvoidSlash(base, cap);
    JoinSnoc(parts, "best", '/');
    var all := parts + ["best"];
    assert CapCompound(base, cap) == Join(all, '/');
    forall i | 0 <= i < |all| ensures '/' !in all[i] {
      if i < |parts| {
        assert all[i] == parts[i];
      } else {
        assert all[i] == "best";
      }
    }
    SplitJoin(all, '/');
  }

  /** Rule 4 on its own: alternatives and pieces keep their number and
      order, video pieces get the cap, and an uncapped `best` comes last. */
  lemma CompoundRule(base: string, r: int)
    ensures var alts := Split(base, '/');
      var outs := Split(CapCompound(base, HeightCap(r)), '/');
      && |outs| == |alts| + 1
      && outs[|alts|] == "best"
      && (forall i :: 0 <= i < |alts| ==> PiecewiseCapped(alts[i], outs[i], HeightCap(r)))
    ensures EndsWithBest(CapCompound(base, HeightCap(r)))
  {
    var cap := HeightCap(r);
    var alts := Split(base, '/');
    var parts := CapAlternatives(alts, cap);
    HeightCapNoSeparators(r);
    CompoundPieces(base, cap);
    AlternativesCapped(base, cap);
    var outs := Split(CapCompound(base, cap), '/');
    forall i | 0 <= i < |alts| ensures PiecewiseCapped(alts[i], outs[i], cap) {
      assert outs[i] == parts[i];
    }
    var joined := Join(parts, '/');
    assert (joined + "/best")[|joined + "/best"| - 5..] == "/best";
  }

  /**
    A compound selector with a cap: the `/`-alternatives keep their number
    and order and an uncapped `best` alternative is added at the end; within
    each alternative the `+`-pieces keep their number and order, and a piece
    gets the cap exactly when it is a video piece.
  */
  lemma CompoundShape(quality: Option<string>, r: int)
    requires r != 0
    requires var base := NormalizeQuality(quality); base != Canonical && ('+' in base || '/' in base)
    ensures var base := NormalizeQuality(quality);
      var alts := Split(base, '/');
      var outs := Split(FormatSelector(quality, Some(r)), '/');
      && |outs| == |alts| + 1
      && outs[|alts|] == "best"
      && (forall i :: 0 <= i < |alts| ==> PiecewiseCapped(alts[i], outs[i], HeightCap(r)))
    ensures EndsWithBest(FormatSelector(quality, Some(r)))
  {
    var base := NormalizeQuality(quality);
    assert FormatSelector(quality, Some(r)) == CapCompound(base, HeightCap(r));
    CompoundRule(base, r);
  }

  predicate EndsWithBest(s: string) {
    |s| >= 5 && s[|s| - 5..] == "/best"
  }

  /** A piece that mentions `audio` is never capped. */
  lemma AudioPieceUncapped(sel: string, cap: string)
    requires Contains(sel, "audio")
    ensures CapPiece(sel, cap) == sel
  {
  }
}
