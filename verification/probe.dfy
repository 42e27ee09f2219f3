/** Reading stream parameters out of an ffprobe report: the frame rate and
    resolution of the first video stream and the sample rate and channel count
    of the first audio stream, each field falling back to a default when the
    report lacks it. */
module Probe {
  import opened Wrappers
  import opened Text

  /** One entry of the report's `streams` list; a field is `None` when the
      report does not carry that key. `r_frame_rate` and `sample_rate` arrive
      as text, the others as integers. */
  datatype Stream = Stream(
    codecType: Option<string>,
    rFrameRate: Option<string>,
    width: Option<int>,
    height: Option<int>,
    sampleRate: Option<string>,
    channels: Option<int>)

  /** The parsed report; `streams` is `None` when the key is missing. */
  datatype ProbeInfo = ProbeInfo(streams: Option<seq<Stream>>)

  const DefaultFps: (int, int) := (30, 1)
  const DefaultFpsText: string := "30/1"
  const DefaultResolution: (int, int) := (1920, 1080)
  const DefaultSampleRate: int := 48000
  const DefaultChannels: int := 2

  function StreamsOf(info: ProbeInfo): seq<Stream> {
    if info.streams.Some? then info.streams.value else []
  }

  /** The first stream whose `codec_type` is `kind`. */
  function FirstOfKind(streams: seq<Stream>, kind: string): (r: Option<nat>)
    ensures r.Some? ==> r.value < |streams| && streams[r.value].codecType == Some(kind)
    ensures r.Some? ==> forall j :: 0 <= j < r.value ==> streams[j].codecType != Some(kind)
    ensures r.None? ==> forall j :: 0 <= j < |streams| ==> streams[j].codecType != Some(kind)
  {
    if |streams| == 0 then None
    else if streams[0].codecType == Some(kind) then Some(0)
    else
      var rest := FirstOfKind(streams[1..], kind);
      if rest.Some? then Some(rest.value + 1) else None
  }

  function GetOr<T>(o: Option<T>, default: T): T {
    if o.Some? then o.value else default
  }

  /** The stream `_get_fps`, `_get_resolution` and `_get_audio_info` read:
      the first one of the wanted kind in the report. */
  function FirstStream(info: ProbeInfo, kind: string): (r: Option<Stream>)
    ensures r.None? <==> forall j :: 0 <= j < |StreamsOf(info)| ==> StreamsOf(info)[j].codecType != Some(kind)
    ensures r.Some? ==> r.value.codecType == Some(kind)
    ensures r.Some? ==>
      exists i :: 0 <= i < |StreamsOf(info)| && StreamsOf(info)[i] == r.value
        && forall j :: 0 <= j < i ==> StreamsOf(info)[j].codecType != Some(kind)
  {
    var i := FirstOfKind(StreamsOf(info), kind);
    if i.Some? then Some(StreamsOf(info)[i.value]) else None
  }

  /** A frame-rate text: the integer before the first "/" over the integer
      after it, or over 1 when there is no "/"; text past a second "/" is
      ignored. A part that is not an integer raises ValueError. */
  function ParseFps(text: string): (r: Result<(int, int)>)
    ensures '/' !in text ==> r == (if ParseInt(text).Success? then Success((ParseInt(text).value, 1)) else Failure(NotAnInteger(text)))
  {
    var parts := Split(text, '/');
    if '/' !in text then SplitWithoutSeparator(text, '/'); ParseFpsParts(parts)
    else ParseFpsParts(parts)
  }

  function ParseFpsParts(parts: seq<string>): Result<(int, int)>
    requires |parts| >= 1
  {
    var num :- ParseInt(parts[0]);
    var den :- if |parts| > 1 then ParseInt(parts[1]) else Success(1);
    Success((num, den))
  }

  /** A rate written as `"<num>/<den>"` reads back as that pair. */
  lemma ParseFpsRoundTrip(num: int, den: int)
    ensures ParseFps(IntToString(num) + "/" + IntToString(den)) == Success((num, den))
  {
    var a, b := IntToString(num), IntToString(den);
    NoSlashInIntText(num);
    NoSlashInIntText(den);
    assert a + "/" + b == a + ['/'] + b;
    SplitAtSeparator(a, b, '/');
    SplitWithoutSeparator(b, '/');
    IntStringRoundTrip(num);
    IntStringRoundTrip(den);
  }

  lemma NoSlashInIntText(n: int)
    ensures '/' !in IntToString(n)
  {
    var s := NatToString(if n < 0 then -n else n);
    assert forall i :: 0 <= i < |s| ==> s[i] != '/';
    if n < 0 {
      assert IntToString(n) == "-" + s;
    }
  }

  /** `_get_fps`: the frame rate of the first video stream, `"30/1"` when that
      stream has no `r_frame_rate`, and (30, 1) when there is no video stream. */
  function GetFps(info: ProbeInfo): (r: Result<(int, int)>)
    ensures FirstStream(info, "video").None? ==> r == Success(DefaultFps)
    ensures FirstStream(info, "video").Some? ==>
      r == ParseFps(GetOr(FirstStream(info, "video").value.rFrameRate, DefaultFpsText))
  {
    match FirstStream(info, "video")
    case None => Success(DefaultFps)
    case Some(st) => ParseFps(GetOr(st.rFrameRate, DefaultFpsText))
  }

  /** `_get_resolution`: width and height of the first video stream, each
      defaulting separately, and (1920, 1080) when there is no video stream. */
  function GetResolution(info: ProbeInfo): (r: (int, int))
    ensures FirstStream(info, "video").None? ==> r == DefaultResolution
    ensures FirstStream(info, "video").Some? ==>
      var st := FirstStream(info, "video").value;
      && (st.width.Some? ==> r.0 == st.width.value)
      && (st.width.None? ==> r.0 == DefaultResolution.0)
      && (st.height.Some? ==> r.1 == st.height.value)
      && (st.height.None? ==> r.1 == DefaultResolution.1)
  {
    match FirstStream(info, "video")
    case None => DefaultResolution
    case Some(st) => (GetOr(st.width, DefaultResolution.0), GetOr(st.height, DefaultResolution.1))
  }

  /** `_get_audio_info`: sample rate and channel count of the first audio
      stream, each defaulting separately, and (48000, 2) when there is no audio
      stream; a sample-rate text that is not an integer raises ValueError. */
  function GetAudioInfo(info: ProbeInfo): (r: Result<(int, int)>)
    ensures FirstStream(info, "audio").None? ==> r == Success((DefaultSampleRate, DefaultChannels))
    ensures FirstStream(info, "audio").Some? ==>
      var st := FirstStream(info, "audio").value;
      && (r.Success? <==> st.sampleRate.None? || ParseInt(st.sampleRate.value).Success?)
      && (r.Success? && st.sampleRate.Some? ==> r.value.0 == ParseInt(st.sampleRate.value).value)
      && (st.sampleRate.None? ==> r.Success? && r.value.0 == DefaultSampleRate)
      && (r.Success? ==> r.value.1 == GetOr(st.channels, DefaultChannels))
  {
    match FirstStream(info, "audio")
    case None => Success((DefaultSampleRate, DefaultChannels))
    case Some(st) =>
      var sr :- if st.sampleRate.Some? then ParseInt(st.sampleRate.value) else Success(DefaultSampleRate);
      Success((sr, GetOr(st.channels, DefaultChannels)))
  }

  /** The report of a 24 fps, 1920x1080 video with 48 kHz stereo sound. */
  function ExampleReport(): ProbeInfo {
    ProbeInfo(Some([
      Stream(Some("video"), Some("24/1"), Some(1920), Some(1080), None, None),
      Stream(Some("audio"), None, None, None, Some("48000"), Some(2))]))
  }

  lemma ExampleReportFps()
    ensures GetFps(ExampleReport()) == Success((24, 1))
    ensures GetFps(ProbeInfo(None)) == Success(DefaultFps)
  {
    var streams := StreamsOf(ExampleReport());
    assert FirstOfKind(streams, "video") == Some(0);
    assert FirstStream(ExampleReport(), "video") == Some(streams[0]);
    assert GetFps(ExampleReport()) == ParseFps("24/1");
    ParseFpsRoundTrip(24, 1);
    RateText24();
  }

  lemma RateText24()
    ensures IntToString(24) + "/" + IntToString(1) == "24/1"
  {
    assert NatToString(2) == "2";
    assert NatToString(24) == NatToString(2) + "4";
    assert NatToString(1) == "1";
  }

  lemma ExampleReportResolution()
    ensures GetResolution(ExampleReport()) == (1920, 1080)
  {
    assert FirstOfKind(StreamsOf(ExampleReport()), "video") == Some(0);
  }

  lemma ExampleReportAudio()
    ensures GetAudioInfo(ExampleReport()) == Success((48000, 2))
  {
    var streams := StreamsOf(ExampleReport());
    assert streams[0].codecType != Some("audio");
    assert FirstOfKind(streams[1..], "audio") == Some(0);
    assert FirstOfKind(streams, "audio") == Some(1);
    assert FirstStream(ExampleReport(), "audio") == Some(streams[1]);
    IntStringRoundTrip(48000);
    assert NatToString(48) == "48";
    assert NatToString(480) == "480";
    assert NatToString(4800) == "4800";
    assert IntToString(48000) == "48000";
  }
}
