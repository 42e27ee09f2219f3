/** The second pass of `generate_fcpxml` and the document it returns: one
    `sync-clip` per match, in order, inside `fcpxml > library > event`, after
    the `<resources>` of the first pass; then the text with its XML
    declaration and doctype. */
module Fcpxml {
  import opened Wrappers
  import opened Sequences
  import opened Text
  import opened Rationals
  import opened Timing
  import opened Paths
  import opened Probe
  import opened Xml
  import opened FcpxmlResources

  const Version: string := "1.11"
  const DefaultEventName: string := "Synced Clips"
  const Header: string := "<?xml version=\"1.0\" encoding=\"UTF-8\"?>\n"
  const Doctype: string := "<!DOCTYPE fcpxml>\n"

  /** The audio's `(offset, start)` inside the sync-clip. A non-negative
      offset delays the audio by that much; a negative one trims as much from
      the audio's beginning. At most one of the two is ever nonzero. */
  function AudioPlacement(offset: Rat): (r: (Fraction, Fraction))
    ensures r.0 == Zero || r.1 == Zero
    ensures offset.num >= 0 ==> r.1 == Zero && Normalized(r.0) && r.0.num >= 0
    ensures offset.num < 0 ==> r.0 == Zero && Normalized(r.1) && r.1.num >= 0
  {
    if offset.num >= 0 then
      (RationalTime(offset), Zero)
    else
      var magnitude := Fraction(-offset.num, offset.den);
      ZeroTime();
      (RationalTime(Zero), RationalTime(magnitude))
  }

  /** An offset whose denominator is within the time base's reach is placed
      exactly: the delay equals the offset, or the trim equals its magnitude. */
  lemma AudioPlacementExact(offset: Rat)
    requires offset.den <= DefaultTimebase * 100
    ensures var r := AudioPlacement(offset);
      && (offset.num >= 0 ==> SameValue(r.0, offset))
      && (offset.num < 0 ==> r.1.num * offset.den == -offset.num * r.1.den)
  {
    if offset.num >= 0 {
      RationalTimeExact(offset);
    } else {
      RationalTimeExact(Fraction(-offset.num, offset.den));
    }
  }

  /** Zero seconds is written `"0/1s"`. */
  lemma ZeroTime()
    ensures RationalTime(Zero) == Zero
  {
  }

  /** The `sync-clip` of match `m`, reading the two files' `asset_map`
      entries; the frame rate is read again to round the clip's duration. */
  function Clip(m: SyncMatch, s: Resources, tools: Tools): (r: Result<Element>)
    requires m.videoPath in s.assets && m.audioPath in s.assets
    ensures r.Success? <==> Timed(m, tools)
    ensures r.Success? ==> SyncClipOf(r.value, m, s, ClipLength(m, tools).value)
  {
    var duration :- ClipLength(m, tools);
    Success(SyncClip(m, s, duration))
  }

  /** The sync-clip's duration: the video's duration rounded to whole frames
      of the frame rate read again from the video's probe. It fails exactly
      when that rate does not parse or has a zero component. */
  function ClipLength(m: SyncMatch, tools: Tools): (r: Result<Fraction>)
    ensures r.Success? <==> Timed(m, tools)
  {
    var fps :- GetFps(tools.probe(m.videoPath));
    DurationRational(m.videoDuration, fps.0, fps.1)
  }

  /** The sync-clip's duration is a whole number `f` of frames of the re-read
      rate, within half a frame of the video's duration limited to
      denominator 100000. */
  lemma ClipLengthFrames(m: SyncMatch, tools: Tools)
    requires Timed(m, tools)
    ensures var fps := GetFps(tools.probe(m.videoPath)).value;
      var r := ClipLength(m, tools).value;
      var d := LimitDenominator(m.videoDuration, DurationBound);
      exists f: int ::
        && r.num * fps.0 == f * fps.1 * r.den
        && 2 * Abs(d.num * fps.0 - f * (d.den * fps.1)) <= Abs(d.den * fps.1)
  {
    var fps := GetFps(tools.probe(m.videoPath)).value;
    DurationFrames(m.videoDuration, fps.0, fps.1);
    var d := LimitDenominator(m.videoDuration, DurationBound);
    var f := FrameCount(d, fps.0, fps.1);
    assert ClipLength(m, tools).value == DurationRational(m.videoDuration, fps.0, fps.1).value;
  }

  /** The sync-clip element itself, once the clip's duration is known. */
  function SyncClip(m: SyncMatch, s: Resources, duration: Fraction): (e: Element)
    requires m.videoPath in s.assets && m.audioPath in s.assets
    ensures SyncClipOf(e, m, s, duration)
  {
    var v, a := s.assets[m.videoPath], s.assets[m.audioPath];
    var placement := AudioPlacement(m.offsetSeconds);
    var attrs := [
      ("name", Str(Stem(m.videoPath.name) + " - Synced")),
      ("start", Time(Zero)),
      ("duration", Time(duration)),
      ("format", Str(FormatId(v.format))),
      ("tcFormat", Str("NDF"))];
    var video := Element("asset-clip", [
      ("ref", Str(v.id)),
      ("name", Str(Stem(m.videoPath.name))),
      ("offset", Time(Zero)),
      ("start", Time(Zero)),
      ("duration", Time(v.duration)),
      ("format", Str(FormatId(v.format))),
      ("tcFormat", Str("NDF")),
      ("audioRole", Str("dialogue"))], []);
    var audio := Element("asset-clip", [
      ("ref", Str(a.id)),
      ("name", Str(Stem(m.audioPath.name))),
      ("offset", Time(placement.0)),
      ("start", Time(placement.1)),
      ("duration", Time(a.duration)),
      ("audioRole", Str("dialogue.dialogue-1")),
      ("tcFormat", Str("NDF"))], []);
    Element("sync-clip", attrs, [video, audio, SyncSource])
  }

  /** The sync source every sync-clip ends with: the storyline, with the
      audio role `dialogue.dialogue-1` active. */
  const SyncSource: Element :=
    Element("sync-source", [("sourceID", Str("storyline"))], [
      Element("audio-role-source", [("role", Str("dialogue.dialogue-1")), ("active", Str("1"))], [])])

  /** `e` is the sync-clip of match `m`: named after the video, in the
      format the video's `asset_map` entry names, holding the video's
      asset-clip at offset zero, then the audio's asset-clip placed by the
      sign of the offset, then the sync source. */
  predicate SyncClipOf(e: Element, m: SyncMatch, s: Resources, duration: Fraction) {
    && m.videoPath in s.assets && m.audioPath in s.assets
    && var v, a := s.assets[m.videoPath], s.assets[m.audioPath];
    && var placement := AudioPlacement(m.offsetSeconds);
    && e.tag == "sync-clip"
    && |e.attrs| == 5 && |e.children| == 3
    && e.attrs[0] == ("name", Str(Stem(m.videoPath.name) + " - Synced"))
    && e.attrs[2] == ("duration", Time(duration))
    && e.attrs[3] == ("format", Str(FormatId(v.format)))
    && e.children[0].tag == "asset-clip" && e.children[1].tag == "asset-clip"
    && e.children[2].tag == "sync-source"
    && |e.children[0].attrs| == 8 && |e.children[1].attrs| == 7
    && e.children[0].attrs[0] == ("ref", Str(v.id))
    && e.children[0].attrs[2] == ("offset", Time(Zero))
    && e.children[0].attrs[4] == ("duration", Time(v.duration))
    && e.children[1].attrs[0] == ("ref", Str(a.id))
    && e.children[1].attrs[2] == ("offset", Time(placement.0))
    && e.children[1].attrs[3] == ("start", Time(placement.1))
    && e.children[1].attrs[4] == ("duration", Time(a.duration))
  }

  /** The attributes of a sync-clip of match `m` that do not depend on the
      registered resources: the clip starts at zero without drop frames, the
      video's asset-clip is named after the video's stem, starts at zero,
      shares the clip's format and plays the dialogue role, the audio's
      asset-clip is named after the audio's stem and plays
      `dialogue.dialogue-1`, and the sync source comes last. */
  predicate ClipConstants(e: Element, m: SyncMatch) {
    && |e.attrs| == 5 && |e.children| == 3
    && |e.children[0].attrs| == 8 && |e.children[1].attrs| == 7
    && e.attrs[1] == ("start", Time(Zero))
    && e.attrs[4] == ("tcFormat", Str("NDF"))
    && e.children[0].attrs[1] == ("name", Str(Stem(m.videoPath.name)))
    && e.children[0].attrs[3] == ("start", Time(Zero))
    && e.children[0].attrs[5] == e.attrs[3]
    && e.children[0].attrs[6] == ("tcFormat", Str("NDF"))
    && e.children[0].attrs[7] == ("audioRole", Str("dialogue"))
    && e.children[1].attrs[1] == ("name", Str(Stem(m.audioPath.name)))
    && e.children[1].attrs[5] == ("audioRole", Str("dialogue.dialogue-1"))
    && e.children[1].attrs[6] == ("tcFormat", Str("NDF"))
    && e.children[2] == SyncSource
  }

  /** Every sync-clip carries the fixed attributes and the sync source. */
  lemma ClipHasConstants(m: SyncMatch, s: Resources, tools: Tools)
    requires m.videoPath in s.assets && m.audioPath in s.assets && Clip(m, s, tools).Success?
    ensures ClipConstants(Clip(m, s, tools).value, m)
  {
  }

  /** `clips[i]` is the sync-clip of `ms[i]`, for every `i`. */
  predicate ClipsMatch(clips: seq<Element>, ms: seq<SyncMatch>, s: Resources, tools: Tools)
    decreases |ms|
  {
    && |clips| == |ms|
    && (|ms| == 0 ||
        (&& ClipLength(ms[0], tools).Success?
         && SyncClipOf(clips[0], ms[0], s, ClipLength(ms[0], tools).value)
         && ClipsMatch(clips[1..], ms[1..], s, tools)))
  }

  lemma {:induction false} ClipsMatchAt(clips: seq<Element>, ms: seq<SyncMatch>, s: Resources, tools: Tools, i: int)
    requires ClipsMatch(clips, ms, s, tools) && 0 <= i < |ms|
    ensures |clips| == |ms| && ClipLength(ms[i], tools).Success?
    ensures SyncClipOf(clips[i], ms[i], s, ClipLength(ms[i], tools).value)
  {
    if i > 0 {
      var rest, later := clips[1..], ms[1..];
      assert rest[i - 1] == clips[i] && later[i - 1] == ms[i];
      assert ClipsMatch(rest, later, s, tools);
      ClipsMatchAt(rest, later, s, tools, i - 1);
    }
  }

  /** `clips[i]` carries the constant attributes of `ms[i]`, for every `i`. */
  predicate ClipsConstant(clips: seq<Element>, ms: seq<SyncMatch>)
    decreases |ms|
  {
    && |clips| == |ms|
    && (|ms| == 0 || (ClipConstants(clips[0], ms[0]) && ClipsConstant(clips[1..], ms[1..])))
  }

  lemma {:induction false} ClipsConstantAt(clips: seq<Element>, ms: seq<SyncMatch>, i: int)
    requires ClipsConstant(clips, ms) && 0 <= i < |ms|
    ensures |clips| == |ms| && ClipConstants(clips[i], ms[i])
  {
    if i > 0 {
      var rest, later := clips[1..], ms[1..];
      assert rest[i - 1] == clips[i] && later[i - 1] == ms[i];
      ClipsConstantAt(rest, later, i - 1);
    }
  }

  /** Every video of `ms` has a usable frame rate. */
  predicate AllTimed(ms: seq<SyncMatch>, tools: Tools)
    decreases |ms|
  {
    |ms| == 0 || (Timed(ms[0], tools) && AllTimed(ms[1..], tools))
  }

  lemma {:induction false} AllTimedOf(ms: seq<SyncMatch>, tools: Tools)
    requires forall i :: 0 <= i < |ms| ==> Timed(ms[i], tools)
    ensures AllTimed(ms, tools)
  {
    if |ms| > 0 {
      AllTimedOf(ms[1..], tools);
    }
  }

  /** The second loop: one sync-clip per match, in order; it fails exactly
      when some video's frame rate is unusable. */
  function Clips(ms: seq<SyncMatch>, s: Resources, tools: Tools): (r: Result<seq<Element>>)
    requires forall i :: 0 <= i < |ms| ==> ms[i].videoPath in s.assets && ms[i].audioPath in s.assets
    ensures r.Success? <==> AllTimed(ms, tools)
    ensures r.Success? ==> ClipsMatch(r.value, ms, s, tools)
    ensures r.Success? ==> ClipsConstant(r.value, ms)
  {
    if |ms| == 0 then Success([])
    else
      var c :- Clip(ms[0], s, tools);
      var rest :- Clips(ms[1..], s, tools);
      ClipsMatchCons(c, rest, ms, s, tools);
      ClipHasConstants(ms[0], s, tools);
      ClipsConstantCons(c, rest, ms);
      Success([c] + rest)
  }

  lemma ClipsConstantCons(c: Element, rest: seq<Element>, ms: seq<SyncMatch>)
    requires |ms| > 0 && ClipConstants(c, ms[0]) && ClipsConstant(rest, ms[1..])
    ensures ClipsConstant([c] + rest, ms)
  {
    assert ([c] + rest)[1..] == rest;
  }

  lemma ClipsMatchCons(c: Element, rest: seq<Element>, ms: seq<SyncMatch>, s: Resources, tools: Tools)
    requires |ms| > 0 && ClipLength(ms[0], tools).Success?
    requires SyncClipOf(c, ms[0], s, ClipLength(ms[0], tools).value)
    requires ClipsMatch(rest, ms[1..], s, tools)
    ensures ClipsMatch([c] + rest, ms, s, tools)
  {
    assert ([c] + rest)[1..] == rest;
  }

  /** The root: `fcpxml` holding `resources` and `library > event`. */
  function Document(resources: seq<Element>, eventName: string, clips: seq<Element>): Element {
    Element("fcpxml", [("version", Str(Version))], [
      Element("resources", [], resources),
      Element("library", [], [Element("event", [("name", Str(eventName))], clips)])])
  }

  predicate WellShaped(doc: Element) {
    && doc.tag == "fcpxml"
    && ("version", Str(Version)) in doc.attrs
    && |doc.children| == 2
    && doc.children[0].tag == "resources" && doc.children[1].tag == "library"
    && |doc.children[1].children| == 1
    && doc.children[1].children[0].tag == "event"
  }

  function ResourcesOf(doc: Element): seq<Element>
    requires WellShaped(doc)
  {
    doc.children[0].children
  }

  function EventOf(doc: Element): Element
    requires WellShaped(doc)
  {
    doc.children[1].children[0]
  }

  /** `generate_fcpxml(matches, event_name)` up to serialisation. */
  function Generate(ms: seq<SyncMatch>, eventName: string, tools: Tools): (r: Result<Element>)
    ensures r.Success? <==> BuildResources(ms, tools).Success?
    ensures r.Success? ==>
      var s := BuildResources(ms, tools).value;
      && WellShaped(r.value)
      && ResourcesOf(r.value) == s.elements
      && ("name", Str(eventName)) in EventOf(r.value).attrs
      && |EventOf(r.value).children| == |ms|
      && ClipsMatch(EventOf(r.value).children, ms, s, tools)
  {
    var s :- BuildResources(ms, tools);
    SecondPassSucceeds(ms, tools);
    // The second loop repeats reads that succeeded in the first.
    var clips := Clips(ms, s, tools).value;
    DocumentShape(s, eventName, ms, clips, tools);
    Success(Document(s.elements, eventName, clips))
  }

  /** After a successful first pass every file has an `asset_map` entry and
      every frame rate is usable, so the second pass cannot fail. */
  lemma SecondPassSucceeds(ms: seq<SyncMatch>, tools: Tools)
    requires BuildResources(ms, tools).Success?
    ensures var s := BuildResources(ms, tools).value;
      forall i :: 0 <= i < |ms| ==> ms[i].videoPath in s.assets && ms[i].audioPath in s.assets
    ensures Clips(ms, BuildResources(ms, tools).value, tools).Success?
  {
    EveryFileRegistered(ms, tools);
    forall i | 0 <= i < |ms|
      ensures ms[i] in ms && Timed(ms[i], tools)
    {
      EveryVideoTimed(ms, tools, ms[i]);
    }
    AllTimedOf(ms, tools);
  }

  /** The document around the clips of `ms` has the shape `Generate` promises. */
  lemma DocumentShape(s: Resources, eventName: string, ms: seq<SyncMatch>, clips: seq<Element>, tools: Tools)
    requires ClipsMatch(clips, ms, s, tools)
    ensures var doc := Document(s.elements, eventName, clips);
      && WellShaped(doc)
      && ResourcesOf(doc) == s.elements
      && ("name", Str(eventName)) in EventOf(doc).attrs
      && |EventOf(doc).children| == |ms|
      && ClipsMatch(EventOf(doc).children, ms, s, tools)
  {
    var doc := Document(s.elements, eventName, clips);
    assert EventOf(doc) == Element("event", [("name", Str(eventName))], clips);
  }

  /** `text` is what the writer returns for `doc`: the XML declaration, the
      doctype, the serialised tree and a final newline. */
  predicate IsDocumentText(text: string, doc: Element, tools: Tools) {
    && |text| > |Header| + |Doctype|
    && text[..|Header| + |Doctype|] == Header + Doctype
    && text[|text| - 1] == '\n'
    && text[|Header| + |Doctype|..|text| - 1] == tools.serialize(doc)
  }

  function DocumentText(doc: Element, tools: Tools): (r: string)
    ensures IsDocumentText(r, doc, tools)
  {
    var head := Header + Doctype;
    var text := head + tools.serialize(doc) + "\n";
    assert text[..|head|] == head;
    assert text[|head|..|text| - 1] == tools.serialize(doc);
    text
  }

  /** `generate_fcpxml(matches, event_name)`: the text of the document. */
  function GenerateText(ms: seq<SyncMatch>, eventName: string, tools: Tools): (r: Result<string>)
    ensures r.Success? <==> BuildResources(ms, tools).Success?
    ensures r.Success? ==> IsDocumentText(r.value, Generate(ms, eventName, tools).value, tools)
  {
    var doc :- Generate(ms, eventName, tools);
    Success(DocumentText(doc, tools))
  }

  // ---------------------------------------------------------------------------
  // Properties of the document
  //
  // Each is stated of any well-shaped tree whose resources are those of a
  // finished first loop and whose clips match `ms`, which is what `Generate`
  // promises, and then of `Generate`'s own result.
  // ---------------------------------------------------------------------------

  /** The resources section lists the format keys `keys`, numbered `r1, r2,
      …` in order, and one asset element per file of `paths`, in order,
      carrying the file's asset id, its stem as name, its URL, and start time
      zero. */
  predicate ListsResources(doc: Element, keys: seq<FormatKey>, paths: seq<Path>, s: Resources, tools: Tools) {
    && WellShaped(doc)
    && var fs := Filter(ResourcesOf(doc), IsFormat);
    && var xs := Filter(ResourcesOf(doc), IsAsset);
    && |fs| == |keys|
    && (forall i :: 0 <= i < |keys| ==> Playable(keys[i]))
    && (forall i :: 0 <= i < |fs| ==> fs[i] == FormatElement(keys[i], i + 1))
    && |xs| == |paths|
    && forall i :: 0 <= i < |xs| ==>
         && paths[i] in s.assets
         && s.assets[paths[i]].id == tools.assetId(paths[i])
         && DescribesAsset(xs[i], paths[i], s.assets[paths[i]], tools)
  }

  lemma ResourcesListed(doc: Element, s: Resources, tools: Tools)
    requires WellShaped(doc) && ResourcesOf(doc) == s.elements && Good(s, tools)
    ensures ListsResources(doc, s.formats, s.assetPaths, s, tools)
  {
    forall i | 0 <= i < |s.assetPaths|
      ensures s.assetPaths[i] in s.assets
    {
      assert s.assetPaths[i] in s.assetPaths;
    }
  }

  /** The resources section: one format element per distinct key met, in
      order of first appearance, and one asset element per distinct file
      met, in order of first appearance. */
  lemma ResourcesSection(ms: seq<SyncMatch>, eventName: string, tools: Tools)
    requires Generate(ms, eventName, tools).Success?
    ensures AllKeys(ms, tools).Success?
    ensures ListsResources(Generate(ms, eventName, tools).value,
      Distinct(AllKeys(ms, tools).value), Distinct(AllPaths(ms)), BuildResources(ms, tools).value, tools)
  {
    ResourcesDeduplicated(ms, tools);
    BuildResourcesGood(ms, tools);
    ResourcesListed(Generate(ms, eventName, tools).value, BuildResources(ms, tools).value, tools);
  }

  /** Clip `i` of `doc`, the sync-clip of match `m`, refers to the resources:
      its two asset-clips name the asset ids of the match's files and the
      resources hold an asset element with each id; its format names a
      format element. */
  predicate ClipRefersToResources(doc: Element, m: SyncMatch, i: int, tools: Tools) {
    && WellShaped(doc)
    && 0 <= i < |EventOf(doc).children|
    && ClipRefersTo(EventOf(doc).children[i], m, Filter(ResourcesOf(doc), IsAsset), Filter(ResourcesOf(doc), IsFormat), tools)
  }

  /** `clip` names the asset ids of `m`'s files, each of which heads an
      element of `xs`, and a format id that heads element `k` of `fs`. */
  predicate ClipRefersTo(clip: Element, m: SyncMatch, xs: seq<Element>, fs: seq<Element>, tools: Tools) {
    && |clip.children| == 3
    && ("ref", Str(tools.assetId(m.videoPath))) in clip.children[0].attrs
    && ("ref", Str(tools.assetId(m.audioPath))) in clip.children[1].attrs
    && (exists j :: 0 <= j < |xs| && |xs[j].attrs| > 0 && xs[j].attrs[0] == ("id", Str(tools.assetId(m.videoPath))))
    && (exists j :: 0 <= j < |xs| && |xs[j].attrs| > 0 && xs[j].attrs[0] == ("id", Str(tools.assetId(m.audioPath))))
    && exists k :: 1 <= k <= |fs| && ("format", Str(FormatId(k))) in clip.attrs
         && |fs[k - 1].attrs| > 0 && fs[k - 1].attrs[0] == ("id", Str(FormatId(k)))
  }

  lemma ClipRefers(doc: Element, ms: seq<SyncMatch>, s: Resources, tools: Tools, i: int)
    requires WellShaped(doc) && ResourcesOf(doc) == s.elements && Good(s, tools)
    requires ClipsMatch(EventOf(doc).children, ms, s, tools) && 0 <= i < |ms|
    ensures ClipRefersToResources(doc, ms[i], i, tools)
  {
    var m := ms[i];
    ClipsMatchAt(EventOf(doc).children, ms, s, tools, i);
    var clip := EventOf(doc).children[i];
    assert clip.children[0].attrs[0] in clip.children[0].attrs;
    assert clip.children[1].attrs[0] in clip.children[1].attrs;
    assert clip.attrs[3] in clip.attrs;
    AssetElementExists(s, tools, m.videoPath);
    AssetElementExists(s, tools, m.audioPath);
    FormatElementExists(s, tools, s.assets[m.videoPath].format);
  }

  /** Every reference resolves. */
  lemma ReferencesResolve(ms: seq<SyncMatch>, eventName: string, tools: Tools, i: int)
    requires Generate(ms, eventName, tools).Success? && 0 <= i < |ms|
    ensures ClipRefersToResources(Generate(ms, eventName, tools).value, ms[i], i, tools)
  {
    BuildResourcesGood(ms, tools);
    ClipRefers(Generate(ms, eventName, tools).value, ms, BuildResources(ms, tools).value, tools, i);
  }

  /** The audio asset-clip of clip `i` of `doc` is delayed or trimmed, never
      both: its offset or its start is zero. */
  predicate AudioDelayedOrTrimmed(doc: Element, i: int) {
    && WellShaped(doc)
    && 0 <= i < |EventOf(doc).children|
    && var clip := EventOf(doc).children[i];
    && |clip.children| == 3
    && (("offset", Time(Zero)) in clip.children[1].attrs || ("start", Time(Zero)) in clip.children[1].attrs)
  }

  lemma AudioPlaced(doc: Element, ms: seq<SyncMatch>, s: Resources, tools: Tools, i: int)
    requires WellShaped(doc) && ClipsMatch(EventOf(doc).children, ms, s, tools) && 0 <= i < |ms|
    ensures AudioDelayedOrTrimmed(doc, i)
  {
    ClipsMatchAt(EventOf(doc).children, ms, s, tools, i);
    var audio := EventOf(doc).children[i].children[1];
    assert audio.attrs[2] in audio.attrs && audio.attrs[3] in audio.attrs;
  }

  /** The audio of a clip is either delayed or trimmed, never both. */
  lemma AudioOffsetOrStart(ms: seq<SyncMatch>, eventName: string, tools: Tools, i: int)
    requires Generate(ms, eventName, tools).Success? && 0 <= i < |ms|
    ensures AudioDelayedOrTrimmed(Generate(ms, eventName, tools).value, i)
  {
    AudioPlaced(Generate(ms, eventName, tools).value, ms, BuildResources(ms, tools).value, tools, i);
  }

  /** Every sync-clip of the document carries the fixed attributes of its
      own match, named after its two files, and ends with the sync source. */
  lemma DocumentClipConstants(ms: seq<SyncMatch>, eventName: string, tools: Tools, i: int)
    requires Generate(ms, eventName, tools).Success? && 0 <= i < |ms|
    ensures var clips := EventOf(Generate(ms, eventName, tools).value).children;
      |clips| == |ms| && ClipConstants(clips[i], ms[i])
  {
    var s := BuildResources(ms, tools).value;
    SecondPassSucceeds(ms, tools);
    var clips := Clips(ms, s, tools).value;
    assert EventOf(Generate(ms, eventName, tools).value).children == clips;
    ClipsConstantAt(clips, ms, i);
  }

  /** No two format elements of `doc` share an id. */
  predicate FormatIdsUnique(doc: Element) {
    && WellShaped(doc)
    && var fs := Filter(ResourcesOf(doc), IsFormat);
    && forall i, j :: 0 <= i < j < |fs| ==>
         |fs[i].attrs| > 0 && |fs[j].attrs| > 0 && fs[i].attrs[0] != fs[j].attrs[0]
  }

  /** No two format elements share an id. */
  lemma FormatIdsDistinct(ms: seq<SyncMatch>, eventName: string, tools: Tools)
    requires Generate(ms, eventName, tools).Success?
    ensures FormatIdsUnique(Generate(ms, eventName, tools).value)
  {
    var s := BuildResources(ms, tools).value;
    BuildResourcesGood(ms, tools);
    FormatIdsDistinctIn(s, tools);
  }
}
