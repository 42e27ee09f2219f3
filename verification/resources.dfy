/** The first pass of `generate_fcpxml`: the `<resources>` section. Every match
    contributes the format of its video, the video as an asset, the format of
    its audio and the audio as an asset; a format already seen (by its key) or
    a file already seen (by its path) adds nothing. Formats are numbered
    `r1, r2, …` by one counter shared by video and audio formats. */
module FcpxmlResources {
  import opened Wrappers
  import opened Sequences
  import opened Text
  import opened Rationals
  import opened Timing
  import opened Paths
  import opened Probe
  import opened Xml
  import SyncEngine

  type SyncMatch = SyncEngine.SyncMatch

  /** The writer's external helpers: `get_media_info` (ffprobe), the md5-based
      `_make_asset_id`, `_file_url`, and ElementTree's indentation and
      serialisation. */
  datatype Tools = Tools(
    probe: Path -> ProbeInfo,
    assetId: Path -> string,
    fileUrl: Path -> string,
    serialize: Element -> string)

  /** The keys of `format_ids`: `(width, height, fps_num, fps_den)` for a video
      and `("audio", sample_rate, channels)` for an audio file. */
  datatype FormatKey =
    | VideoKey(width: int, height: int, fpsNum: int, fpsDen: int)
    | AudioKey(sampleRate: int, channels: int)

  /** A format element can be written for the key: a video format divides by
      both frame-rate components. */
  predicate Playable(k: FormatKey) {
    k.VideoKey? ==> k.fpsNum != 0 && k.fpsDen != 0
  }

  /** The id of the `k`-th format: `f"r{k}"`. */
  function FormatId(k: int): string {
    "r" + IntToString(k)
  }

  /** Different counters give different ids. */
  lemma FormatIdInjective(j: int, k: int)
    requires FormatId(j) == FormatId(k)
    ensures j == k
  {
    assert FormatId(j)[1..] == IntToString(j);
    assert FormatId(k)[1..] == IntToString(k);
    IntToStringInjective(j, k);
  }

  /** `_seconds_to_rational(fps_den / fps_num)`. */
  function FrameDuration(fpsNum: int, fpsDen: int): Fraction
    requires fpsNum != 0
  {
    RationalTime(Reduce(fpsDen, fpsNum))
  }

  /** The `format` element of key `k` numbered `n`. */
  function FormatElement(k: FormatKey, n: int): (e: Element)
    requires Playable(k)
    ensures e.tag == "format" && |e.attrs| >= 2 && e.attrs[0] == ("id", Str(FormatId(n)))
  {
    match k
    case VideoKey(w, h, num, den) =>
      var name := if den == 1 then Str("FFVideoFormat" + IntToString(h) + "p" + IntToString(num))
                  else RateName(h, num, den);
      Element("format", [
        ("id", Str(FormatId(n))),
        ("name", name),
        ("frameDuration", Time(FrameDuration(num, den))),
        ("width", Str(IntToString(w))),
        ("height", Str(IntToString(h)))], [])
    case AudioKey(_, _) =>
      Element("format", [("id", Str(FormatId(n))), ("name", Str("FFAudioFormat"))], [])
  }

  /** A value of `asset_map`: the asset id, the number of its format and its
      duration. */
  datatype AssetEntry = AssetEntry(id: string, format: int, duration: Fraction)

  /** The attributes every `asset` element starts with. */
  function AssetHead(p: Path, entry: AssetEntry, tools: Tools): seq<(string, Value)> {
    [ ("id", Str(entry.id)),
      ("name", Str(Stem(p.name))),
      ("src", Str(tools.fileUrl(p))),
      ("start", Time(Zero)),
      ("duration", Time(entry.duration)),
      ("format", Str(FormatId(entry.format))) ]
  }

  /** The attributes every `asset` element ends with; only a video asset
      says `hasVideo`. */
  function AssetTail(video: bool, sampleRate: int, channels: int): seq<(string, Value)> {
    (if video then [("hasVideo", Str("1"))] else [])
    + [ ("hasAudio", Str("1")),
        ("audioSources", Str("1")),
        ("audioChannels", Str(IntToString(channels))),
        ("audioRate", Str(IntToString(sampleRate))) ]
  }

  /** The `asset` element of a file. */
  function AssetElement(p: Path, entry: AssetEntry, tools: Tools, video: bool, sampleRate: int, channels: int): (e: Element)
    ensures DescribesAsset(e, p, entry, tools)
  {
    var attrs := AssetHead(p, entry, tools) + AssetTail(video, sampleRate, channels);
    assert attrs[..6] == AssetHead(p, entry, tools);
    Element("asset", attrs, [])
  }

  /** After the six head attributes an asset element says `hasVideo` for a
      video only, then one audio source with the file's channel count and
      sample rate, and nothing else. */
  lemma AssetElementTail(p: Path, entry: AssetEntry, tools: Tools, video: bool, sampleRate: int, channels: int)
    ensures var e := AssetElement(p, entry, tools, video, sampleRate, channels);
      var n := if video then 11 else 10;
      && |e.attrs| == n && e.children == []
      && (video ==> e.attrs[6] == ("hasVideo", Str("1")))
      && e.attrs[n - 4] == ("hasAudio", Str("1"))
      && e.attrs[n - 3] == ("audioSources", Str("1"))
      && e.attrs[n - 2] == ("audioChannels", Str(IntToString(channels)))
      && e.attrs[n - 1] == ("audioRate", Str(IntToString(sampleRate)))
  {
  }

  predicate IsFormat(e: Element) { e.tag == "format" }

  predicate IsAsset(e: Element) { e.tag == "asset" }

  /** `e` is an asset element of file `p` registered as `entry`: the head
      of its attributes describes the entry. */
  predicate DescribesAsset(e: Element, p: Path, entry: AssetEntry, tools: Tools) {
    e.tag == "asset" && |e.attrs| >= 6 && e.attrs[..6] == AssetHead(p, entry, tools)
  }

  /** The state of the first loop: the keys of `format_ids` and of `asset_map`
      in insertion order (format `formats[i]` has id `r{i+1}`), `asset_map`
      itself, and the children of `<resources>` so far. */
  datatype Resources = Resources(
    formats: seq<FormatKey>,
    assetPaths: seq<Path>,
    assets: map<Path, AssetEntry>,
    elements: seq<Element>)

  const Empty: Resources := Resources([], [], map[], [])

  /** The format elements are those of the registered keys, numbered in
      order, and each key is registered once. */
  ghost predicate FormatsGood(formats: seq<FormatKey>, elements: seq<Element>) {
    var fs := Filter(elements, IsFormat);
    && NoDuplicates(formats)
    && (forall i :: 0 <= i < |formats| ==> Playable(formats[i]))
    && |fs| == |formats|
    && (forall i :: 0 <= i < |fs| ==> fs[i] == FormatElement(formats[i], i + 1))
  }

  /** The asset elements are those of the registered files, in order; each
      file is registered once, with its own asset id and an existing format. */
  ghost predicate AssetsGood(paths: seq<Path>, assets: map<Path, AssetEntry>, elements: seq<Element>,
                             formatCount: int, tools: Tools) {
    var xs := Filter(elements, IsAsset);
    && NoDuplicates(paths)
    && (forall p :: p in assets <==> p in paths)
    && (forall p :: p in assets ==> assets[p].id == tools.assetId(p) && 1 <= assets[p].format <= formatCount)
    && |xs| == |paths|
    && (forall i :: 0 <= i < |xs| ==> DescribesAsset(xs[i], paths[i], assets[paths[i]], tools))
  }

  /** What the loop keeps true. */
  ghost predicate Good(s: Resources, tools: Tools) {
    && FormatsGood(s.formats, s.elements)
    && AssetsGood(s.assetPaths, s.assets, s.elements, |s.formats|, tools)
  }

  lemma EmptyGood(tools: Tools)
    ensures Good(Empty, tools)
  {
  }

  /** `xs` with `x` added at the end unless already present: how a dict's key
      order grows. */
  function Extend<T(==)>(xs: seq<T>, x: T): seq<T> {
    if x in xs then xs else xs + [x]
  }

  /** Registers format `k` unless it already has an id. Writing a new video
      format divides by both frame-rate components. */
  function AddFormat(s: Resources, k: FormatKey): (r: Result<Resources>)
    ensures r.Failure? <==> k !in s.formats && !Playable(k)
    ensures r.Failure? ==> r.error == ZeroDivision
    ensures r.Success? ==> r.value.formats == Extend(s.formats, k)
    ensures r.Success? ==> r.value.assetPaths == s.assetPaths && r.value.assets == s.assets
  {
    if k in s.formats then Success(s)
    else if !Playable(k) then Failure(ZeroDivision)
    else Success(s.(formats := s.formats + [k], elements := s.elements + [FormatElement(k, |s.formats| + 1)]))
  }

  lemma FormatsGoodSnoc(formats: seq<FormatKey>, elements: seq<Element>, k: FormatKey)
    requires FormatsGood(formats, elements) && k !in formats && Playable(k)
    ensures FormatsGood(formats + [k], elements + [FormatElement(k, |formats| + 1)])
  {
    var e := FormatElement(k, |formats| + 1);
    FilterAppend(elements, [e], IsFormat);
    assert Filter([e], IsFormat) == [e];
    var ks := formats + [k];
    forall i, j | 0 <= i < j < |ks|
      ensures ks[i] != ks[j]
    {
      if j == |formats| {
        assert ks[i] == formats[i];
      }
    }
  }

  /** Adding an element that is not an asset, or allowing more formats, keeps
      the asset elements as they were. */
  lemma AssetsGoodWiden(paths: seq<Path>, assets: map<Path, AssetEntry>, elements: seq<Element>,
                        n: int, e: Element, tools: Tools)
    requires AssetsGood(paths, assets, elements, n, tools) && !IsAsset(e)
    ensures AssetsGood(paths, assets, elements + [e], n + 1, tools)
  {
    FilterAppend(elements, [e], IsAsset);
    assert Filter([e], IsAsset) == [];
  }

  lemma AddFormatGood(s: Resources, k: FormatKey, tools: Tools)
    requires Good(s, tools) && AddFormat(s, k).Success?
    ensures Good(AddFormat(s, k).value, tools)
  {
    if k !in s.formats {
      var e := FormatElement(k, |s.formats| + 1);
      FormatsGoodSnoc(s.formats, s.elements, k);
      AssetsGoodWiden(s.assetPaths, s.assets, s.elements, |s.formats|, e, tools);
    }
  }

  /** Registers file `p` with `entry` and element `e` unless `asset_map`
      already holds it, whatever role it was registered in. */
  function AddAsset(s: Resources, p: Path, entry: AssetEntry, e: Element): (r: Resources)
    ensures r.formats == s.formats
    ensures r.assets.Keys == s.assets.Keys + {p}
    ensures forall q :: q in s.assets ==> r.assets[q] == s.assets[q]
    ensures p in s.assets ==> r == s
    ensures p !in s.assets ==> r.assetPaths == s.assetPaths + [p] && r.assets[p] == entry
  {
    if p in s.assets then s
    else s.(assetPaths := s.assetPaths + [p], assets := s.assets[p := entry], elements := s.elements + [e])
  }

  lemma AssetsGoodSnoc(paths: seq<Path>, assets: map<Path, AssetEntry>, elements: seq<Element>,
                       n: int, p: Path, entry: AssetEntry, e: Element, tools: Tools)
    requires AssetsGood(paths, assets, elements, n, tools) && p !in assets
    requires entry.id == tools.assetId(p) && 1 <= entry.format <= n
    requires DescribesAsset(e, p, entry, tools)
    ensures AssetsGood(paths + [p], assets[p := entry], elements + [e], n, tools)
  {
    FilterAppend(elements, [e], IsAsset);
    assert Filter([e], IsAsset) == [e];
    var ps := paths + [p];
    forall i, j | 0 <= i < j < |ps|
      ensures ps[i] != ps[j]
    {
      if j == |paths| {
        assert ps[i] == paths[i];
      }
    }
    forall i | 0 <= i < |paths|
      ensures assets[p := entry][paths[i]] == assets[paths[i]]
    {
      assert paths[i] in assets;
    }
  }

  lemma FormatsGoodWiden(formats: seq<FormatKey>, elements: seq<Element>, e: Element)
    requires FormatsGood(formats, elements) && !IsFormat(e)
    ensures FormatsGood(formats, elements + [e])
  {
    FilterAppend(elements, [e], IsFormat);
    assert Filter([e], IsFormat) == [];
  }

  lemma AddAssetGood(s: Resources, p: Path, entry: AssetEntry, e: Element, tools: Tools, r: Resources)
    requires Good(s, tools)
    requires entry.id == tools.assetId(p) && 1 <= entry.format <= |s.formats|
    requires DescribesAsset(e, p, entry, tools)
    requires r == AddAsset(s, p, entry, e)
    ensures Good(r, tools)
  {
    if p !in s.assets {
      AssetsGoodSnoc(s.assetPaths, s.assets, s.elements, |s.formats|, p, entry, e, tools);
      FormatsGoodWiden(s.formats, s.elements, e);
    }
  }

  /** The format key of a match's video: its size and frame rate. */
  function VideoKeyOf(m: SyncMatch, tools: Tools): Result<FormatKey> {
    var fps :- GetFps(tools.probe(m.videoPath));
    var size := GetResolution(tools.probe(m.videoPath));
    Success(VideoKey(size.0, size.1, fps.0, fps.1))
  }

  /** The format key of a match's audio: its sample rate and channel count. */
  function AudioKeyOf(m: SyncMatch, tools: Tools): Result<FormatKey> {
    var audio :- GetAudioInfo(tools.probe(m.audioPath));
    Success(AudioKey(audio.0, audio.1))
  }

  /** The video's frame rate can be read and has no zero component, so its
      duration can be rounded to frames. */
  predicate Timed(m: SyncMatch, tools: Tools) {
    var fps := GetFps(tools.probe(m.videoPath));
    fps.Success? && fps.value.0 != 0 && fps.value.1 != 0
  }

  /** The probes of `m` pass every check of one iteration of the first loop:
      the video's frame rate and sample rate parse, the rate has no zero
      component, and the audio's sample rate parses. */
  predicate Registrable(m: SyncMatch, tools: Tools) {
    && Timed(m, tools)
    && GetAudioInfo(tools.probe(m.videoPath)).Success?
    && GetAudioInfo(tools.probe(m.audioPath)).Success?
  }

  /** The video half of an iteration. The exceptions come in the source's
      order: the frame rate, the video's sample rate, then a zero frame-rate
      component, divided by first for a new format and then for the
      duration. */
  function AddVideo(s: Resources, m: SyncMatch, tools: Tools): (r: Result<Resources>)
    ensures r.Success? <==> Timed(m, tools) && GetAudioInfo(tools.probe(m.videoPath)).Success?
    ensures var info := tools.probe(m.videoPath);
      && (GetFps(info).Failure? ==> r == Failure(GetFps(info).error))
      && (GetFps(info).Success? && GetAudioInfo(info).Failure? ==> r == Failure(GetAudioInfo(info).error))
      && (GetFps(info).Success? && GetAudioInfo(info).Success? && !Timed(m, tools) ==> r == Failure(ZeroDivision))
    ensures r.Success? ==> VideoKeyOf(m, tools).Success?
    ensures r.Success? ==> r.value.formats == Extend(s.formats, VideoKeyOf(m, tools).value)
    ensures r.Success? ==> r.value.assets.Keys == s.assets.Keys + {m.videoPath}
    ensures r.Success? ==> forall q :: q in s.assets ==> r.value.assets[q] == s.assets[q]
    ensures r.Success? ==> r.value.assetPaths == if m.videoPath in s.assets then s.assetPaths else s.assetPaths + [m.videoPath]
    ensures r.Success? ==> Timed(m, tools)
  {
    var info := tools.probe(m.videoPath);
    var fps :- GetFps(info);
    var size := GetResolution(info);
    var audio :- GetAudioInfo(info);
    VideoAsset(s, m, tools, fps, size, audio)
  }

  /** The video half once the probe was read: its format, then its asset. */
  function VideoAsset(s: Resources, m: SyncMatch, tools: Tools, fps: (int, int), size: (int, int), audio: (int, int))
    : (r: Result<Resources>)
    ensures r.Success? <==> fps.0 != 0 && fps.1 != 0
    ensures r.Failure? ==> r.error == ZeroDivision
    ensures r.Success? ==> r.value.formats == Extend(s.formats, VideoKey(size.0, size.1, fps.0, fps.1))
    ensures r.Success? ==> r.value.assets.Keys == s.assets.Keys + {m.videoPath}
    ensures r.Success? ==> forall q :: q in s.assets ==> r.value.assets[q] == s.assets[q]
    ensures r.Success? ==> r.value.assetPaths == if m.videoPath in s.assets then s.assetPaths else s.assetPaths + [m.videoPath]
  {
    var k := VideoKey(size.0, size.1, fps.0, fps.1);
    var s1 :- AddFormat(s, k);
    var duration :- DurationRational(m.videoDuration, fps.0, fps.1);
    Success(NewAsset(s1, k, m.videoPath, tools, duration, true, audio))
  }

  /** `r` is `s` with file `p` newly registered: its `asset_map` entry holds
      its asset id, the number of format `k` and `duration`, and the asset
      element describing that entry, with the given sound, is appended. */
  predicate NewEntry(s: Resources, r: Resources, p: Path, k: FormatKey, tools: Tools,
                     duration: Fraction, video: bool, audio: (int, int)) {
    && p in r.assets
    && var entry := r.assets[p];
    && entry.id == tools.assetId(p) && entry.duration == duration
    && 1 <= entry.format <= |r.formats| && r.formats[entry.format - 1] == k
    && r.elements == s.elements + [AssetElement(p, entry, tools, video, audio.0, audio.1)]
  }

  /** Registers the file `p` of format `k` (already registered) under its
      asset id, unless the file already has an entry. */
  function NewAsset(s: Resources, k: FormatKey, p: Path, tools: Tools, duration: Fraction, video: bool, audio: (int, int))
    : (r: Resources)
    requires k in s.formats
    ensures r.formats == s.formats
    ensures r.assets.Keys == s.assets.Keys + {p}
    ensures forall q :: q in s.assets ==> r.assets[q] == s.assets[q]
    ensures r.assetPaths == if p in s.assets then s.assetPaths else s.assetPaths + [p]
  {
    var entry := AssetEntry(tools.assetId(p), Position(s.formats, k) + 1, duration);
    AddAsset(s, p, entry, AssetElement(p, entry, tools, video, audio.0, audio.1))
  }

  /** A file new to `asset_map` is entered with its asset id, the number of
      its format and its duration, and its asset element is appended. */
  lemma NewAssetEntry(s: Resources, k: FormatKey, p: Path, tools: Tools, duration: Fraction, video: bool, audio: (int, int))
    requires k in s.formats && p !in s.assets
    ensures NewEntry(s, NewAsset(s, k, p, tools, duration, video, audio), p, k, tools, duration, video, audio)
  {

  }

  /** The audio half of an iteration; writing an audio format never divides. */
  function AddAudio(s: Resources, m: SyncMatch, tools: Tools): (r: Result<Resources>)
    ensures r.Success? <==> AudioKeyOf(m, tools).Success?
    ensures r.Success? ==> r.value.formats == Extend(s.formats, AudioKeyOf(m, tools).value)
    ensures r.Success? ==> r.value.assets.Keys == s.assets.Keys + {m.audioPath}
    ensures r.Success? ==> forall q :: q in s.assets ==> r.value.assets[q] == s.assets[q]
    ensures r.Success? ==> r.value.assetPaths == if m.audioPath in s.assets then s.assetPaths else s.assetPaths + [m.audioPath]
  {
    var audio :- GetAudioInfo(tools.probe(m.audioPath));
    Success(AudioAsset(s, m, tools, audio))
  }

  /** The audio half once the probe was read: its format, then its asset. */
  function AudioAsset(s: Resources, m: SyncMatch, tools: Tools, audio: (int, int)): (r: Resources)
    ensures r.formats == Extend(s.formats, AudioKey(audio.0, audio.1))
    ensures r.assets.Keys == s.assets.Keys + {m.audioPath}
    ensures forall q :: q in s.assets ==> r.assets[q] == s.assets[q]
    ensures r.assetPaths == if m.audioPath in s.assets then s.assetPaths else s.assetPaths + [m.audioPath]
  {
    var k := AudioKey(audio.0, audio.1);
    NewAsset(AddFormat(s, k).value, k, m.audioPath, tools, RationalTime(m.audioDuration), false, audio)
  }

  /** A video new to `asset_map` gets the entry `(asset id, number of the
      video's format, duration rounded to frames)` and an asset element with
      `hasVideo` and the video's own channels and sample rate. */
  lemma AddVideoEntry(s: Resources, m: SyncMatch, tools: Tools)
    requires AddVideo(s, m, tools).Success? && m.videoPath !in s.assets
    ensures var info := tools.probe(m.videoPath);
      var fps := GetFps(info).value;
      && VideoKeyOf(m, tools).Success? && AddFormat(s, VideoKeyOf(m, tools).value).Success?
      && DurationRational(m.videoDuration, fps.0, fps.1).Success?
      && NewEntry(AddFormat(s, VideoKeyOf(m, tools).value).value, AddVideo(s, m, tools).value, m.videoPath,
                  VideoKeyOf(m, tools).value, tools,
                  DurationRational(m.videoDuration, fps.0, fps.1).value, true, GetAudioInfo(info).value)
  {
    var info := tools.probe(m.videoPath);
    var fps, size, audio := GetFps(info).value, GetResolution(info), GetAudioInfo(info).value;
    assert VideoKeyOf(m, tools) == Success(VideoKey(size.0, size.1, fps.0, fps.1));
    assert AddVideo(s, m, tools) == VideoAsset(s, m, tools, fps, size, audio);
    VideoAssetEntry(s, m, tools, fps, size, audio);
  }

  /** An audio file new to `asset_map` gets the entry `(asset id, number of
      its `("audio", sr, ch)` format, duration as a rational time)` and an
      asset element without `hasVideo`, with its channels and sample rate. */
  lemma AddAudioEntry(s: Resources, m: SyncMatch, tools: Tools)
    requires AddAudio(s, m, tools).Success? && m.audioPath !in s.assets
    ensures AudioKeyOf(m, tools).Success? && AddFormat(s, AudioKeyOf(m, tools).value).Success?
    ensures NewEntry(AddFormat(s, AudioKeyOf(m, tools).value).value, AddAudio(s, m, tools).value, m.audioPath,
                     AudioKeyOf(m, tools).value, tools,
                     RationalTime(m.audioDuration), false, GetAudioInfo(tools.probe(m.audioPath)).value)
  {
    var audio := GetAudioInfo(tools.probe(m.audioPath)).value;
    var k := AudioKey(audio.0, audio.1);
    assert AddAudio(s, m, tools).value == AudioAsset(s, m, tools, audio);
    NewAssetEntry(AddFormat(s, k).value, k, m.audioPath, tools, RationalTime(m.audioDuration), false, audio);
  }

  lemma AddVideoGood(s: Resources, m: SyncMatch, tools: Tools)
    requires Good(s, tools) && AddVideo(s, m, tools).Success?
    ensures Good(AddVideo(s, m, tools).value, tools)
  {
    var info := tools.probe(m.videoPath);
    var fps, size, audio := GetFps(info).value, GetResolution(info), GetAudioInfo(info).value;
    assert AddVideo(s, m, tools) == VideoAsset(s, m, tools, fps, size, audio);
    var k, s1, entry, e := VideoAssetShape(s, m, tools, fps, size, audio);
    AddFormatGood(s, k, tools);
    AddAssetGood(s1, m.videoPath, entry, e, tools, AddVideo(s, m, tools).value);
  }

  /** A successful video half adds the video's format `k`, then an asset
      entry that points at it and an element that describes the entry. */
  lemma VideoAssetShape(s: Resources, m: SyncMatch, tools: Tools, fps: (int, int), size: (int, int), audio: (int, int))
    returns (k: FormatKey, s1: Resources, entry: AssetEntry, e: Element)
    requires VideoAsset(s, m, tools, fps, size, audio).Success?
    ensures AddFormat(s, k).Success? && s1 == AddFormat(s, k).value
    ensures entry.id == tools.assetId(m.videoPath) && 1 <= entry.format <= |s1.formats|
    ensures DescribesAsset(e, m.videoPath, entry, tools)
    ensures VideoAsset(s, m, tools, fps, size, audio).value == AddAsset(s1, m.videoPath, entry, e)
  {
    k := VideoKey(size.0, size.1, fps.0, fps.1);
    s1 := AddFormat(s, k).value;
    var duration := DurationRational(m.videoDuration, fps.0, fps.1).value;
    entry := AssetEntry(tools.assetId(m.videoPath), Position(s1.formats, k) + 1, duration);
    e := AssetElement(m.videoPath, entry, tools, true, audio.0, audio.1);
  }

  /** A successful video half enters a new video with its asset id, the
      number of its format and its duration rounded to frames. */
  lemma VideoAssetEntry(s: Resources, m: SyncMatch, tools: Tools, fps: (int, int), size: (int, int), audio: (int, int))
    requires VideoAsset(s, m, tools, fps, size, audio).Success? && m.videoPath !in s.assets
    ensures var k := VideoKey(size.0, size.1, fps.0, fps.1);
      && AddFormat(s, k).Success? && DurationRational(m.videoDuration, fps.0, fps.1).Success?
      && NewEntry(AddFormat(s, k).value, VideoAsset(s, m, tools, fps, size, audio).value, m.videoPath, k, tools,
                  DurationRational(m.videoDuration, fps.0, fps.1).value, true, audio)
  {
    var k := VideoKey(size.0, size.1, fps.0, fps.1);
    var s1 := AddFormat(s, k);
    assert s1.Success?;
    var d := DurationRational(m.videoDuration, fps.0, fps.1);
    assert d.Success?;
    assert VideoAsset(s, m, tools, fps, size, audio) == Success(NewAsset(s1.value, k, m.videoPath, tools, d.value, true, audio));
    NewAssetEntry(s1.value, k, m.videoPath, tools, d.value, true, audio);
  }

  lemma AddAudioGood(s: Resources, m: SyncMatch, tools: Tools)
    requires Good(s, tools) && AddAudio(s, m, tools).Success?
    ensures Good(AddAudio(s, m, tools).value, tools)
  {
    var audio := GetAudioInfo(tools.probe(m.audioPath)).value;
    assert AddAudio(s, m, tools).value == AudioAsset(s, m, tools, audio);
    var k, s1, entry, e := AudioAssetShape(s, m, tools, audio);
    AddFormatGood(s, k, tools);
    AddAssetGood(s1, m.audioPath, entry, e, tools, AddAudio(s, m, tools).value);
  }

  /** The audio half adds the audio's format `k`, then an asset entry that
      points at it and an element that describes the entry. */
  lemma AudioAssetShape(s: Resources, m: SyncMatch, tools: Tools, audio: (int, int))
    returns (k: FormatKey, s1: Resources, entry: AssetEntry, e: Element)
    ensures AddFormat(s, k).Success? && s1 == AddFormat(s, k).value
    ensures entry.id == tools.assetId(m.audioPath) && 1 <= entry.format <= |s1.formats|
    ensures DescribesAsset(e, m.audioPath, entry, tools)
    ensures AudioAsset(s, m, tools, audio) == AddAsset(s1, m.audioPath, entry, e)
  {
    k := AudioKey(audio.0, audio.1);
    s1 := AddFormat(s, k).value;
    entry := AssetEntry(tools.assetId(m.audioPath), Position(s1.formats, k) + 1, RationalTime(m.audioDuration));
    e := AssetElement(m.audioPath, entry, tools, false, audio.0, audio.1);
    AudioAssetUnfold(s, m, tools, audio);
  }

  /** The audio half is the new format followed by the new asset. */
  lemma AudioAssetUnfold(s: Resources, m: SyncMatch, tools: Tools, audio: (int, int))
    ensures var k := AudioKey(audio.0, audio.1);
      && AddFormat(s, k).Success?
      && var s1 := AddFormat(s, k).value;
      && var entry := AssetEntry(tools.assetId(m.audioPath), Position(s1.formats, k) + 1, RationalTime(m.audioDuration));
      AudioAsset(s, m, tools, audio) == AddAsset(s1, m.audioPath, entry, AssetElement(m.audioPath, entry, tools, false, audio.0, audio.1))
  {
    var k := AudioKey(audio.0, audio.1);
    assert AudioAsset(s, m, tools, audio) == NewAsset(AddFormat(s, k).value, k, m.audioPath, tools, RationalTime(m.audioDuration), false, audio);
  }

  /** One iteration of the first loop. */
  function Step(s: Resources, m: SyncMatch, tools: Tools): Result<Resources> {
    var s1 :- AddVideo(s, m, tools);
    AddAudio(s1, m, tools)
  }

  lemma StepGood(s: Resources, m: SyncMatch, tools: Tools)
    requires Good(s, tools) && Step(s, m, tools).Success?
    ensures Good(Step(s, m, tools).value, tools)
  {
    AddVideoGood(s, m, tools);
    AddAudioGood(AddVideo(s, m, tools).value, m, tools);
  }

  /** The first loop over `matches`; the first exception ends the run. */
  function BuildResources(ms: seq<SyncMatch>, tools: Tools): Result<Resources> {
    if |ms| == 0 then Success(Empty)
    else
      var s :- BuildResources(ms[..|ms| - 1], tools);
      Step(s, ms[|ms| - 1], tools)
  }

  /** One iteration succeeds exactly when the match's probes pass its checks,
      whatever the state. */
  lemma StepSucceeds(s: Resources, m: SyncMatch, tools: Tools)
    ensures Step(s, m, tools).Success? <==> Registrable(m, tools)
  {
  }

  /** The loop over `ms` succeeds exactly when the loop over all but the
      last match does and the last match passes its checks. */
  lemma BuildResourcesSnoc(ms: seq<SyncMatch>, tools: Tools)
    requires |ms| > 0
    ensures BuildResources(ms, tools).Success? <==>
      BuildResources(ms[..|ms| - 1], tools).Success? && Registrable(ms[|ms| - 1], tools)
  {
    var prefix := ms[..|ms| - 1];
    if BuildResources(prefix, tools).Success? {
      StepSucceeds(BuildResources(prefix, tools).value, ms[|ms| - 1], tools);
    }
  }

  /** A match that fails its checks makes the first loop raise. */
  lemma {:induction false} BuildResourcesFailsAt(ms: seq<SyncMatch>, tools: Tools, k: int)
    requires 0 <= k < |ms| && !Registrable(ms[k], tools)
    ensures BuildResources(ms, tools).Failure?
  {
    BuildResourcesSnoc(ms, tools);
    if k < |ms| - 1 {
      var prefix := ms[..|ms| - 1];
      assert prefix[k] == ms[k];
      BuildResourcesFailsAt(prefix, tools, k);
    }
  }

  /** When every match passes its checks, the first loop completes. */
  lemma {:induction false} BuildResourcesCompletes(ms: seq<SyncMatch>, tools: Tools)
    requires forall i :: 0 <= i < |ms| ==> Registrable(ms[i], tools)
    ensures BuildResources(ms, tools).Success?
  {
    if |ms| > 0 {
      var prefix := ms[..|ms| - 1];
      forall i | 0 <= i < |prefix|
        ensures Registrable(prefix[i], tools)
      {
        assert prefix[i] == ms[i];
      }
      BuildResourcesCompletes(prefix, tools);
      BuildResourcesSnoc(ms, tools);
    }
  }

  /** The first loop raises exactly when some match fails the checks of its
      iteration. */
  lemma BuildResourcesSucceeds(ms: seq<SyncMatch>, tools: Tools)
    ensures BuildResources(ms, tools).Success? <==> forall i :: 0 <= i < |ms| ==> Registrable(ms[i], tools)
  {
    if forall i :: 0 <= i < |ms| ==> Registrable(ms[i], tools) {
      BuildResourcesCompletes(ms, tools);
    } else {
      var k :| 0 <= k < |ms| && !Registrable(ms[k], tools);
      BuildResourcesFailsAt(ms, tools, k);
    }
  }

  /** The loop's invariant holds at its end. */
  lemma {:induction false} BuildResourcesGood(ms: seq<SyncMatch>, tools: Tools)
    requires BuildResources(ms, tools).Success?
    ensures Good(BuildResources(ms, tools).value, tools)
  {
    if |ms| == 0 {
      EmptyGood(tools);
    } else {
      BuildResourcesGood(ms[..|ms| - 1], tools);
      StepGood(BuildResources(ms[..|ms| - 1], tools).value, ms[|ms| - 1], tools);
    }
  }

  /** The format keys met by the loop, repeats included: the video's key,
      then the audio's, match after match. */
  function AllKeys(ms: seq<SyncMatch>, tools: Tools): Result<seq<FormatKey>> {
    if |ms| == 0 then Success([])
    else
      var ks :- AllKeys(ms[..|ms| - 1], tools);
      var vk :- VideoKeyOf(ms[|ms| - 1], tools);
      var ak :- AudioKeyOf(ms[|ms| - 1], tools);
      Success(ks + [vk] + [ak])
  }

  /** The paths met by the loop, repeats included: video, then audio, match
      after match. */
  function AllPaths(ms: seq<SyncMatch>): seq<Path> {
    if |ms| == 0 then []
    else AllPaths(ms[..|ms| - 1]) + [ms[|ms| - 1].videoPath, ms[|ms| - 1].audioPath]
  }

  lemma ExtendDistinct<T>(s: seq<T>, x: T)
    ensures Distinct(s + [x]) == Extend(Distinct(s), x)
  {
    DistinctSnoc(s, x);
    assert x in s <==> x in Distinct(s);
  }

  /** Deduplication: the formats written are the distinct keys met, in order
      of first appearance, and the assets written are the distinct paths met,
      in order of first appearance, whether first met as a video or as an
      audio file. */
  lemma {:induction false} ResourcesDeduplicated(ms: seq<SyncMatch>, tools: Tools)
    requires BuildResources(ms, tools).Success?
    ensures AllKeys(ms, tools).Success?
    ensures BuildResources(ms, tools).value.formats == Distinct(AllKeys(ms, tools).value)
    ensures BuildResources(ms, tools).value.assetPaths == Distinct(AllPaths(ms))
  {
    if |ms| > 0 {
      var prefix, m := ms[..|ms| - 1], ms[|ms| - 1];
      BuildResourcesLast(ms, tools);
      ResourcesDeduplicated(prefix, tools);
      BuildResourcesGood(prefix, tools);
      var s := BuildResources(prefix, tools).value;
      StepOrder(s, m, tools);
      var ks := AllKeys(prefix, tools).value;
      var vk, ak := VideoKeyOf(m, tools).value, AudioKeyOf(m, tools).value;
      AllKeysLast(ms, tools);
      ExtendDistinct(ks, vk);
      ExtendDistinct(ks + [vk], ak);
      var ps := AllPaths(prefix);
      AllPathsLast(ms);
      ExtendDistinct(ps, m.videoPath);
      ExtendDistinct(ps + [m.videoPath], m.audioPath);
    }
  }

  lemma AllKeysLast(ms: seq<SyncMatch>, tools: Tools)
    requires |ms| > 0 && AllKeys(ms[..|ms| - 1], tools).Success?
    requires VideoKeyOf(ms[|ms| - 1], tools).Success? && AudioKeyOf(ms[|ms| - 1], tools).Success?
    ensures AllKeys(ms, tools) == Success(AllKeys(ms[..|ms| - 1], tools).value
      + [VideoKeyOf(ms[|ms| - 1], tools).value] + [AudioKeyOf(ms[|ms| - 1], tools).value])
  {
    var ks := AllKeys(ms[..|ms| - 1], tools).value;
    var vk, ak := VideoKeyOf(ms[|ms| - 1], tools).value, AudioKeyOf(ms[|ms| - 1], tools).value;
    assert AllKeys(ms, tools) == Success(ks + [vk] + [ak]);
  }

  lemma AllPathsLast(ms: seq<SyncMatch>)
    requires |ms| > 0
    ensures AllPaths(ms) == AllPaths(ms[..|ms| - 1]) + [ms[|ms| - 1].videoPath] + [ms[|ms| - 1].audioPath]
  {
    var ps, m := AllPaths(ms[..|ms| - 1]), ms[|ms| - 1];
    assert ps + [m.videoPath, m.audioPath] == ps + [m.videoPath] + [m.audioPath];
  }

  lemma BuildResourcesPrefix(ms: seq<SyncMatch>, tools: Tools)
    requires |ms| > 0 && BuildResources(ms, tools).Success?
    ensures BuildResources(ms[..|ms| - 1], tools).Success?
  {
  }

  lemma LastVideoTimed(ms: seq<SyncMatch>, tools: Tools)
    requires |ms| > 0 && BuildResources(ms, tools).Success?
    ensures Timed(ms[|ms| - 1], tools)
  {
    BuildResourcesLast(ms, tools);
    StepFacts(BuildResources(ms[..|ms| - 1], tools).value, ms[|ms| - 1], tools);
  }

  /** The last iteration of a successful loop. */
  lemma BuildResourcesLast(ms: seq<SyncMatch>, tools: Tools)
    requires |ms| > 0 && BuildResources(ms, tools).Success?
    ensures BuildResources(ms[..|ms| - 1], tools).Success?
    ensures BuildResources(ms, tools) == Step(BuildResources(ms[..|ms| - 1], tools).value, ms[|ms| - 1], tools)
  {
  }

  /** An iteration registers the video's key, then the audio's, then the
      video's path, then the audio's, each only if new. */
  lemma StepOrder(s: Resources, m: SyncMatch, tools: Tools)
    requires Good(s, tools) && Step(s, m, tools).Success?
    ensures VideoKeyOf(m, tools).Success? && AudioKeyOf(m, tools).Success?
    ensures Step(s, m, tools).value.formats
         == Extend(Extend(s.formats, VideoKeyOf(m, tools).value), AudioKeyOf(m, tools).value)
    ensures Step(s, m, tools).value.assetPaths == Extend(Extend(s.assetPaths, m.videoPath), m.audioPath)
  {
    AddVideoGood(s, m, tools);
    var s1 := AddVideo(s, m, tools).value;
    assert Step(s, m, tools) == AddAudio(s1, m, tools);
    assert m.videoPath in s.assets <==> m.videoPath in s.assetPaths;
    assert s1.assetPaths == Extend(s.assetPaths, m.videoPath);
    assert m.audioPath in s1.assets <==> m.audioPath in s1.assetPaths;
  }

  lemma StepFacts(s: Resources, m: SyncMatch, tools: Tools)
    requires Step(s, m, tools).Success?
    ensures Timed(m, tools)
    ensures m.videoPath in Step(s, m, tools).value.assets && m.audioPath in Step(s, m, tools).value.assets
    ensures s.assets.Keys <= Step(s, m, tools).value.assets.Keys
  {
  }

  /** Every file of every match is registered once the loop is done. */
  lemma {:induction false} EveryFileRegistered(ms: seq<SyncMatch>, tools: Tools)
    requires BuildResources(ms, tools).Success?
    ensures forall m | m in ms ::
      m.videoPath in BuildResources(ms, tools).value.assets
      && m.audioPath in BuildResources(ms, tools).value.assets
  {
    if |ms| > 0 {
      var prefix, m := ms[..|ms| - 1], ms[|ms| - 1];
      BuildResourcesLast(ms, tools);
      EveryFileRegistered(prefix, tools);
      var before := BuildResources(prefix, tools).value;
      StepFacts(before, m, tools);
      var after := BuildResources(ms, tools).value;
      assert after == Step(before, m, tools).value;
      forall x | x in ms
        ensures x.videoPath in after.assets && x.audioPath in after.assets
      {
        if x != m {
          InPrefix(ms, x);
        }
      }
    }
  }

  /** A successful loop has read a frame rate for every video, with no zero
      component, so every video's duration was rounded to frames. */
  lemma {:induction false} EveryVideoTimed(ms: seq<SyncMatch>, tools: Tools, m: SyncMatch)
    requires BuildResources(ms, tools).Success? && m in ms
    ensures Timed(m, tools)
  {
    if m == ms[|ms| - 1] {
      LastVideoTimed(ms, tools);
    } else {
      InPrefix(ms, m);
      BuildResourcesPrefix(ms, tools);
      EveryVideoTimed(ms[..|ms| - 1], tools, m);
    }
  }

  // ---------------------------------------------------------------------------
  // What the invariant gives the second pass
  // ---------------------------------------------------------------------------

  /** The asset element of a registered file sits at the file's position
      among the registered paths. */
  lemma AssetIndex(s: Resources, tools: Tools, p: Path) returns (j: nat)
    requires Good(s, tools) && p in s.assets
    ensures s.assets[p].id == tools.assetId(p)
    ensures j < |Filter(s.elements, IsAsset)| && DescribesAsset(Filter(s.elements, IsAsset)[j], p, s.assets[p], tools)
  {
    assert p in s.assetPaths;
    j := Position(s.assetPaths, p);
  }

  lemma HasIdAt(xs: seq<Element>, j: nat, p: Path, entry: AssetEntry, tools: Tools)
    requires j < |xs| && DescribesAsset(xs[j], p, entry, tools)
    ensures exists i :: 0 <= i < |xs| && |xs[i].attrs| > 0 && xs[i].attrs[0] == ("id", Str(entry.id))
  {
    assert xs[j].attrs[0] == xs[j].attrs[..6][0] == AssetHead(p, entry, tools)[0];
  }

  /** A registered file has an asset element whose id is the file's asset id. */
  lemma AssetElementExists(s: Resources, tools: Tools, p: Path)
    requires Good(s, tools) && p in s.assets
    ensures s.assets[p].id == tools.assetId(p)
    ensures var xs := Filter(s.elements, IsAsset);
      exists j :: 0 <= j < |xs| && |xs[j].attrs| > 0 && xs[j].attrs[0] == ("id", Str(tools.assetId(p)))
  {
    var j := AssetIndex(s, tools, p);
    HasIdAt(Filter(s.elements, IsAsset), j, p, s.assets[p], tools);
  }

  /** Format number `k` of an entry has a format element with id `r{k}`. */
  lemma FormatElementExists(s: Resources, tools: Tools, k: int)
    requires Good(s, tools) && 1 <= k <= |s.formats|
    ensures var fs := Filter(s.elements, IsFormat);
      k <= |fs| && |fs[k - 1].attrs| > 0 && fs[k - 1].attrs[0] == ("id", Str(FormatId(k)))
  {
    var fs := Filter(s.elements, IsFormat);
    assert fs[k - 1] == FormatElement(s.formats[k - 1], k);
  }

  /** No two format elements share an id. */
  lemma FormatIdsDistinctIn(s: Resources, tools: Tools)
    requires Good(s, tools)
    ensures var fs := Filter(s.elements, IsFormat);
      forall i, j :: 0 <= i < j < |fs| ==>
        |fs[i].attrs| > 0 && |fs[j].attrs| > 0 && fs[i].attrs[0] != fs[j].attrs[0]
  {
    var fs := Filter(s.elements, IsFormat);
    forall i, j | 0 <= i < j < |fs|
      ensures |fs[i].attrs| > 0 && |fs[j].attrs| > 0 && fs[i].attrs[0] != fs[j].attrs[0]
    {
      assert fs[i] == FormatElement(s.formats[i], i + 1);
      assert fs[j] == FormatElement(s.formats[j], j + 1);
      if fs[i].attrs[0] == fs[j].attrs[0] {
        FormatIdInjective(i + 1, j + 1);
      }
    }
  }

  // ---------------------------------------------------------------------------
  // What `asset_map` holds after the first loop
  // ---------------------------------------------------------------------------

  /** Match `j` is the first one to name file `p`, as its video or its audio. */
  predicate FirstMet(ms: seq<SyncMatch>, j: int, p: Path) {
    && 0 <= j < |ms| && (ms[j].videoPath == p || ms[j].audioPath == p)
    && forall i :: 0 <= i < j ==> ms[i].videoPath != p && ms[i].audioPath != p
  }

  /** `entry` is what match `m` stores for file `p` in `asset_map`, with
      `formats` the keys of `format_ids` in order: the asset id of `p`, the
      number of the format of `p`'s role, and as a video the duration
      rounded to frames, as an audio the duration as a rational time. The
      video role wins when `p` is both. */
  predicate EntryBy(p: Path, entry: AssetEntry, m: SyncMatch, tools: Tools, formats: seq<FormatKey>) {
    && entry.id == tools.assetId(p)
    && 1 <= entry.format <= |formats|
    && if p == m.videoPath then
         && Timed(m, tools) && VideoKeyOf(m, tools).Success?
         && formats[entry.format - 1] == VideoKeyOf(m, tools).value
         && var fps := GetFps(tools.probe(m.videoPath)).value;
            entry.duration == DurationRational(m.videoDuration, fps.0, fps.1).value
       else
         && p == m.audioPath && AudioKeyOf(m, tools).Success?
         && formats[entry.format - 1] == AudioKeyOf(m, tools).value
         && entry.duration == RationalTime(m.audioDuration)
  }

  /** Every `asset_map` entry after the first loop was written by the first
      match that names its file, in that file's role there. */
  lemma EntriesFromFirstMatch(ms: seq<SyncMatch>, tools: Tools)
    requires BuildResources(ms, tools).Success?
    ensures var s := BuildResources(ms, tools).value;
      forall p :: p in s.assets ==> exists j :: FirstMet(ms, j, p) && EntryBy(p, s.assets[p], ms[j], tools, s.formats)
  {
    var s := BuildResources(ms, tools).value;
    forall p | p in s.assets
      ensures exists j :: FirstMet(ms, j, p) && EntryBy(p, s.assets[p], ms[j], tools, s.formats)
    {
      var j := EntryFromFirstMatch(ms, tools, p);
    }
  }

  /** After the loop over `ms`, file `p` has an entry, match `j` is the
      first to name it and wrote that entry. */
  predicate EntryFrom(ms: seq<SyncMatch>, tools: Tools, p: Path, j: int) {
    && BuildResources(ms, tools).Success?
    && var s := BuildResources(ms, tools).value;
    && p in s.assets && FirstMet(ms, j, p) && EntryBy(p, s.assets[p], ms[j], tools, s.formats)
  }

  /** The entry of one registered file, and the first match that names it. */
  lemma {:induction false} EntryFromFirstMatch(ms: seq<SyncMatch>, tools: Tools, p: Path) returns (j: int)
    requires BuildResources(ms, tools).Success? && p in BuildResources(ms, tools).value.assets
    ensures EntryFrom(ms, tools, p, j)
  {
    BuildResourcesLast(ms, tools);
    var prefix := ms[..|ms| - 1];
    if p in BuildResources(prefix, tools).value.assets {
      j := EntryFromFirstMatch(prefix, tools, p);
      EntryFromEarlierMatch(ms, tools, p, j);
    } else {
      EntryFromLastMatch(ms, tools, p);
      j := |prefix|;
    }
  }

  /** A file the loop had registered before the last match keeps its entry,
      and the match that wrote it stays the first to name it. */
  lemma EntryFromEarlierMatch(ms: seq<SyncMatch>, tools: Tools, p: Path, j: int)
    requires |ms| > 0 && BuildResources(ms, tools).Success? && EntryFrom(ms[..|ms| - 1], tools, p, j)
    ensures EntryFrom(ms, tools, p, j)
  {
    BuildResourcesLast(ms, tools);
    var prefix, m := ms[..|ms| - 1], ms[|ms| - 1];
    OldEntryKept(BuildResources(prefix, tools).value, m, tools, p, prefix[j]);
    FirstMetExtend(ms, j, p);
  }

  /** A file first registered by the last match gets that match's entry. */
  lemma EntryFromLastMatch(ms: seq<SyncMatch>, tools: Tools, p: Path)
    requires |ms| > 0 && BuildResources(ms, tools).Success? && p in BuildResources(ms, tools).value.assets
    requires BuildResources(ms[..|ms| - 1], tools).Success?
    requires p !in BuildResources(ms[..|ms| - 1], tools).value.assets
    ensures EntryFrom(ms, tools, p, |ms| - 1)
  {
    BuildResourcesLast(ms, tools);
    var prefix, m := ms[..|ms| - 1], ms[|ms| - 1];
    var s := BuildResources(prefix, tools).value;
    StepNewEntry(s, m, tools, p);
    EveryFileRegistered(prefix, tools);
    forall i | 0 <= i < |prefix|
      ensures ms[i].videoPath != p && ms[i].audioPath != p
    {
      assert ms[i] == prefix[i] && prefix[i] in prefix;
    }
  }

  /** A file first named in a prefix of `ms` is first named there in `ms`. */
  lemma FirstMetExtend(ms: seq<SyncMatch>, j: int, p: Path)
    requires |ms| > 0 && FirstMet(ms[..|ms| - 1], j, p)
    ensures FirstMet(ms, j, p) && ms[j] == ms[..|ms| - 1][j]
  {
    assert forall i :: 0 <= i < |ms| - 1 ==> ms[..|ms| - 1][i] == ms[i];
  }

  /** An iteration keeps an entry written earlier, still pointing at the
      same format. */
  lemma OldEntryKept(s: Resources, m: SyncMatch, tools: Tools, p: Path, writer: SyncMatch)
    requires Step(s, m, tools).Success? && p in s.assets
    requires EntryBy(p, s.assets[p], writer, tools, s.formats)
    ensures var r := Step(s, m, tools).value;
      p in r.assets && EntryBy(p, r.assets[p], writer, tools, r.formats)
  {
    StepKeepsEntry(s, m, tools, p);
    StepFormatsGrow(s, m, tools);
    EntryByWiden(p, s.assets[p], writer, tools, s.formats, Step(s, m, tools).value.formats);
  }

  /** An iteration only appends format keys. */
  lemma StepFormatsGrow(s: Resources, m: SyncMatch, tools: Tools)
    requires Step(s, m, tools).Success?
    ensures var r := Step(s, m, tools).value;
      |s.formats| <= |r.formats| && r.formats[..|s.formats|] == s.formats
  {
    var s1 := AddVideo(s, m, tools).value;
    assert Step(s, m, tools) == AddAudio(s1, m, tools);
    ExtendPrefix(s.formats, VideoKeyOf(m, tools).value);
    ExtendPrefix(s1.formats, AudioKeyOf(m, tools).value);
    PrefixOfPrefix(s.formats, s1.formats, Step(s, m, tools).value.formats);
  }

  /** Adding a key keeps the numbers of those already there. */
  lemma ExtendPrefix<T>(xs: seq<T>, x: T)
    ensures |xs| <= |Extend(xs, x)| && Extend(xs, x)[..|xs|] == xs
  {
  }

  lemma EntryByWiden(p: Path, entry: AssetEntry, m: SyncMatch, tools: Tools, formats: seq<FormatKey>, wider: seq<FormatKey>)
    requires EntryBy(p, entry, m, tools, formats)
    requires |formats| <= |wider| && wider[..|formats|] == formats
    ensures EntryBy(p, entry, m, tools, wider)
  {
    assert wider[entry.format - 1] == formats[entry.format - 1];
  }

  /** An iteration leaves the entries of files it does not register alone. */
  lemma StepKeepsEntry(s: Resources, m: SyncMatch, tools: Tools, p: Path)
    requires Step(s, m, tools).Success? && p in s.assets
    ensures p in Step(s, m, tools).value.assets && Step(s, m, tools).value.assets[p] == s.assets[p]
  {
    var s1 := AddVideo(s, m, tools).value;
    assert Step(s, m, tools) == AddAudio(s1, m, tools);
  }

  /** A file new to `asset_map` gets the entry of its role in this match. */
  lemma StepNewEntry(s: Resources, m: SyncMatch, tools: Tools, p: Path)
    requires Step(s, m, tools).Success?
    requires p in Step(s, m, tools).value.assets && p !in s.assets
    ensures var r := Step(s, m, tools).value;
      EntryBy(p, r.assets[p], m, tools, r.formats)
  {
    if p == m.videoPath {
      StepNewVideo(s, m, tools);
    } else {
      StepNewAudio(s, m, tools);
    }
  }

  lemma StepNewVideo(s: Resources, m: SyncMatch, tools: Tools)
    requires Step(s, m, tools).Success? && m.videoPath !in s.assets
    ensures var r := Step(s, m, tools).value;
      m.videoPath in r.assets && EntryBy(m.videoPath, r.assets[m.videoPath], m, tools, r.formats)
  {
    var s1 := AddVideo(s, m, tools).value;
    var r := Step(s, m, tools).value;
    assert Step(s, m, tools) == AddAudio(s1, m, tools);
    AddVideoEntry(s, m, tools);
    assert r.assets[m.videoPath] == s1.assets[m.videoPath];
    ExtendPrefix(s1.formats, AudioKeyOf(m, tools).value);
    EntryByWiden(m.videoPath, s1.assets[m.videoPath], m, tools, s1.formats, r.formats);
  }

  lemma StepNewAudio(s: Resources, m: SyncMatch, tools: Tools)
    requires Step(s, m, tools).Success?
    requires m.audioPath != m.videoPath && m.audioPath !in s.assets
    ensures var r := Step(s, m, tools).value;
      m.audioPath in r.assets && EntryBy(m.audioPath, r.assets[m.audioPath], m, tools, r.formats)
  {
    var s1 := AddVideo(s, m, tools).value;
    assert Step(s, m, tools) == AddAudio(s1, m, tools);
    assert m.audioPath !in s1.assets;
    AddAudioEntry(s1, m, tools);
  }
}
