/** Waveform matching for the command-line tool: every video is compared with
    every audio file and keeps the first audio of greatest correlation score,
    provided the score reaches a minimum. An audio file may serve several
    videos. */
module SyncEngine {
  import opened Wrappers
  import opened Sequences
  import opened Text
  import opened Rationals
  import opened Paths
  import Correlation

  /** Sample rate the signals are analysed at. */
  const AnalysisRate: int := 8000

  /** Least correlation score accepted as a match. */
  const MinCorrelation: real := 0.1

  /** A standard deviation below this marks a silent signal. */
  const SilenceFloor: real := 0.0000000001

  /** A matched pair with the audio's offset, the score and both durations in
      seconds. */
  datatype SyncMatch = SyncMatch(
    videoPath: Path,
    audioPath: Path,
    offsetSeconds: Rat,
    correlationScore: real,
    videoDuration: Rat,
    audioDuration: Rat)

  type Signal = seq<real>

  /** The numerical kernel: a signal's standard deviation, and the full-mode
      cross-correlation of the two normalised signals divided by the square
      root of the product of their lengths. */
  datatype Numerics = Numerics(std: Signal -> real, correlate: (Signal, Signal) -> seq<real>)

  /** A full-mode correlation has one value per lag. */
  ghost predicate FullLength(k: Numerics) {
    forall x, y :: |x| > 0 && |y| > 0 ==> |k.correlate(x, y)| == |x| + |y| - 1
  }

  // ---------------------------------------------------------------------------
  // find_sync_offset
  // ---------------------------------------------------------------------------

  /** The standard deviation of an empty array is NaN, which is never below
      the floor, so only a non-empty signal can be silent. */
  predicate Silent(s: Signal, k: Numerics) {
    |s| > 0 && k.std(s) < SilenceFloor
  }

  /** `lags[peak_idx]`: the lag (in samples) of the first correlation value of
      largest magnitude; full-mode lags run from `-(|a| - 1)` to `|v| - 1`. */
  function PeakLag(v: Signal, a: Signal, k: Numerics): (lag: int)
    requires FullLength(k) && |v| > 0 && |a| > 0
    ensures -(|a| - 1) <= lag <= |v| - 1
    ensures var corr := k.correlate(v, a);
      var peak := lag + |a| - 1;
      && 0 <= peak < |corr|
      && (forall i :: 0 <= i < |corr| ==> Correlation.AbsR(corr[i]) <= Correlation.AbsR(corr[peak]))
      && (forall i :: 0 <= i < peak ==> Correlation.AbsR(corr[i]) < Correlation.AbsR(corr[peak]))
  {
    var corr := k.correlate(v, a);
    var peak := Correlation.ArgMaxAbs(corr);
    peak - (|a| - 1)
  }

  /** `find_sync_offset(video_audio, ext_audio)`: `(0, 0.0)` when either signal
      is silent; otherwise the peak lag in seconds and the peak magnitude. With
      an empty signal and neither silent, the correlation has no peak and the
      call raises. */
  function FindSyncOffset(v: Signal, a: Signal, k: Numerics): (r: Result<(Rat, real)>)
    requires FullLength(k)
    ensures r.Failure? <==> !Silent(v, k) && !Silent(a, k) && (|v| == 0 || |a| == 0)
    ensures Silent(v, k) || Silent(a, k) ==> r == Success((Zero, 0.0))
    ensures r.Success? && !Silent(v, k) && !Silent(a, k) ==>
      var lag := PeakLag(v, a, k);
      && r.value.0.num * AnalysisRate == lag * r.value.0.den
      && r.value.1 == Correlation.AbsR(k.correlate(v, a)[lag + |a| - 1])
    ensures r.Success? ==> r.value.1 >= 0.0
  {
    if Silent(v, k) || Silent(a, k) then Success((Zero, 0.0))
    else if |v| == 0 || |a| == 0 then Failure(EmptySignal)
    else
      var lag := PeakLag(v, a, k);
      var offset := Reduce(lag, AnalysisRate);
      Success((offset, Correlation.AbsR(k.correlate(v, a)[lag + |a| - 1])))
  }

  // ---------------------------------------------------------------------------
  // match_files
  // ---------------------------------------------------------------------------

  /** The external tools: audio extraction from a video, audio loading (both
      `None` where ffmpeg fails), the media duration from ffprobe, and the
      numerical kernel. */
  datatype Media = Media(
    extract: Path -> Option<Signal>,
    load: Path -> Option<Signal>,
    duration: Path -> Rat,
    numerics: Numerics)

  ghost predicate WellFormed(m: Media) {
    FullLength(m.numerics)
  }

  /** The keys of a dict filled from `paths` with the loads that succeeded:
      first occurrences, in order. */
  function Loaded(paths: seq<Path>, get: Path -> Option<Signal>): (r: seq<Path>)
    ensures NoDuplicates(r)
    ensures forall i :: 0 <= i < |r| ==> r[i] in paths && get(r[i]).Some?
    ensures forall i :: 0 <= i < |paths| && get(paths[i]).Some? ==> paths[i] in r
  {
    var ok := Filter(paths, p => get(p).Some?);
    forall x | x in ok
      ensures x in paths && get(x).Some?
    {
      FilterMembership(paths, p => get(p).Some?, x);
    }
    forall i | 0 <= i < |paths| && get(paths[i]).Some?
      ensures paths[i] in ok
    {
      FilterMembership(paths, p => get(p).Some?, paths[i]);
    }
    Distinct(ok)
  }

  /** The comparisons of one video signal with each loaded audio, in order;
      the first comparison that raises ends the run. */
  function Row(vsig: Signal, audios: seq<Path>, m: Media): (r: Result<seq<(Rat, real)>>)
    requires WellFormed(m) && forall i :: 0 <= i < |audios| ==> m.load(audios[i]).Some?
    ensures r.Success? ==> |r.value| == |audios|
    ensures r.Success? ==> forall i :: 0 <= i < |audios| ==>
      FindSyncOffset(vsig, m.load(audios[i]).value, m.numerics) == Success(r.value[i])
  {
    if |audios| == 0 then Success([])
    else
      var prev :- Row(vsig, audios[..|audios| - 1], m);
      var c :- FindSyncOffset(vsig, m.load(audios[|audios| - 1]).value, m.numerics);
      assert forall i :: 0 <= i < |audios| - 1 ==> audios[..|audios| - 1][i] == audios[i];
      Success(prev + [c])
  }

  /** The running best of the comparison loop: starting from a score of -1 and
      replacing it only on a strictly greater score, it ends on the first
      comparison of greatest score. */
  function Pick(row: seq<(Rat, real)>): (r: (real, Option<nat>))
    ensures r.1.None? ==> r.0 == -1.0 && forall j :: 0 <= j < |row| ==> row[j].1 <= -1.0
    ensures r.1.Some? ==>
      && r.1.value < |row| && r.0 == row[r.1.value].1 && r.0 > -1.0
      && (forall j :: 0 <= j < |row| ==> row[j].1 <= r.0)
      && (forall j :: 0 <= j < r.1.value ==> row[j].1 < r.0)
  {
    if |row| == 0 then (-1.0, None)
    else
      var prev := Pick(row[..|row| - 1]);
      assert forall j :: 0 <= j < |row| - 1 ==> row[..|row| - 1][j] == row[j];
      if row[|row| - 1].1 > prev.0 then (row[|row| - 1].1, Some(|row| - 1)) else prev
  }

  /** A video's best match, when its best score reaches the minimum. */
  datatype Choice = Choice(video: Path, audio: Path, offset: Rat, score: real)

  function Choose(video: Path, audios: seq<Path>, row: seq<(Rat, real)>): (r: Option<Choice>)
    requires |row| == |audios|
    ensures r.Some? <==> Pick(row).1.Some? && Pick(row).0 >= MinCorrelation
    ensures r.Some? ==> var i := Pick(row).1.value;
      r.value == Choice(video, audios[i], row[i].0, row[i].1)
  {
    var (score, best) := Pick(row);
    if best.Some? && score >= MinCorrelation then
      var i := best.value;
      Some(Choice(video, audios[i], row[i].0, score))
    else None
  }

  /** The best-match table over the loaded videos, in their order. */
  function BestMatches(videos: seq<Path>, audios: seq<Path>, m: Media): (r: Result<seq<Choice>>)
    requires WellFormed(m)
    requires forall i :: 0 <= i < |videos| ==> m.extract(videos[i]).Some?
    requires forall i :: 0 <= i < |audios| ==> m.load(audios[i]).Some?
    ensures r.Success? ==> forall i :: 0 <= i < |r.value| ==>
      && r.value[i].score >= MinCorrelation
      && r.value[i].video in videos && r.value[i].audio in audios
    ensures r.Success? && NoDuplicates(videos) ==> forall i, j :: 0 <= i < j < |r.value| ==>
      r.value[i].video != r.value[j].video
  {
    if |videos| == 0 then Success([])
    else
      var prefix := videos[..|videos| - 1];
      var v := videos[|videos| - 1];
      assert forall i :: 0 <= i < |prefix| ==> prefix[i] == videos[i];
      var prev :- BestMatches(prefix, audios, m);
      var row :- Row(m.extract(v).value, audios, m);
      var c := VideoChoice(v, audios, m);
      if c.Some? then
        var r := prev + [c.value];
        assert forall i :: 0 <= i < |prev| ==> r[i] == prev[i];
        assert NoDuplicates(videos) ==> v !in prefix;
        Success(r)
      else Success(prev)
  }

  function ToSyncMatch(c: Choice, m: Media): SyncMatch {
    SyncMatch(c.video, c.audio, c.offset, c.score, m.duration(c.video), m.duration(c.audio))
  }

  /** The result records of the choices, in the same order. */
  function ToSyncMatches(cs: seq<Choice>, m: Media): (r: seq<SyncMatch>)
    ensures |r| == |cs|
    ensures forall i :: 0 <= i < |cs| ==> r[i] == ToSyncMatch(cs[i], m)
  {
    seq(|cs|, i requires 0 <= i < |cs| => ToSyncMatch(cs[i], m))
  }

  function VideoName(s: SyncMatch): string { s.videoPath.name }

  /** `match_files(video_paths, audio_paths)`: the accepted best matches,
      sorted by video file name. */
  function MatchFiles(videos: seq<Path>, audios: seq<Path>, m: Media): (r: Result<seq<SyncMatch>>)
    requires WellFormed(m)
    ensures var best := BestMatches(Loaded(videos, m.extract), Loaded(audios, m.load), m);
      && (r.Success? <==> best.Success?)
      && (r.Success? ==> multiset(r.value) == multiset(ToSyncMatches(best.value, m)))
      && (r.Success? ==> SortedBy(r.value, VideoName, LexLess))
  {
    var best :- BestMatches(Loaded(videos, m.extract), Loaded(audios, m.load), m);
    var results := ToSyncMatches(best, m);
    LexLessStrictOrder();
    Success(SortBy(results, VideoName, LexLess))
  }

  // ---------------------------------------------------------------------------
  // Properties of the matching
  // ---------------------------------------------------------------------------

  /** Scores are magnitudes, so once one audio has been compared the running
      best is always set: a video lacks a match only because no audio was
      loaded or because its best score is below the minimum. */
  lemma ComparedVideoHasBest(vsig: Signal, audios: seq<Path>, m: Media)
    requires WellFormed(m) && forall i :: 0 <= i < |audios| ==> m.load(audios[i]).Some?
    requires Row(vsig, audios, m).Success? && |audios| > 0
    ensures Pick(Row(vsig, audios, m).value).1.Some?
  {
    var row := Row(vsig, audios, m).value;
    assert row[0].1 >= 0.0;
  }

  /** Each match pairs one of the given videos with one of the given audio
      files, scores at least the minimum, and carries both files' durations. */
  lemma MatchesComeFromInputs(videos: seq<Path>, audios: seq<Path>, m: Media, i: int)
    requires WellFormed(m) && MatchFiles(videos, audios, m).Success?
    requires 0 <= i < |MatchFiles(videos, audios, m).value|
    ensures var x := MatchFiles(videos, audios, m).value[i];
      && x.videoPath in videos && x.audioPath in audios
      && x.correlationScore >= MinCorrelation
      && x.videoDuration == m.duration(x.videoPath)
      && x.audioDuration == m.duration(x.audioPath)
  {
    var vs := Loaded(videos, m.extract);
    var xs := Loaded(audios, m.load);
    var best := BestMatches(vs, xs, m).value;
    var results := ToSyncMatches(best, m);
    var r := MatchFiles(videos, audios, m).value;
    assert r[i] in multiset(results);
    var k :| 0 <= k < |results| && results[k] == r[i];
    var a :| 0 <= a < |vs| && vs[a] == best[k].video;
    var b :| 0 <= b < |xs| && xs[b] == best[k].audio;
  }

  /** At most one match per video: the matches name pairwise different
      videos. Nothing of the kind holds for audio files. */
  lemma OneMatchPerVideo(videos: seq<Path>, audios: seq<Path>, m: Media)
    requires WellFormed(m) && MatchFiles(videos, audios, m).Success?
    ensures var r := MatchFiles(videos, audios, m).value;
      forall i, j :: 0 <= i < j < |r| ==> r[i].videoPath != r[j].videoPath
  {
    var vs := Loaded(videos, m.extract);
    var best := BestMatches(vs, Loaded(audios, m.load), m).value;
    var results := ToSyncMatches(best, m);
    PermutationKeepsKeysDistinct(results, MatchFiles(videos, audios, m).value, (s: SyncMatch) => s.videoPath);
  }

  /** What the comparison loop decides for one video on its own: its row of
      comparisons and the best audio in it, if that reaches the minimum. */
  function VideoChoice(v: Path, audios: seq<Path>, m: Media): (r: Option<Choice>)
    requires WellFormed(m) && m.extract(v).Some?
    requires forall i :: 0 <= i < |audios| ==> m.load(audios[i]).Some?
    ensures r.Some? ==>
      && Row(m.extract(v).value, audios, m).Success?
      && r.value.video == v && r.value.audio in audios && r.value.score >= MinCorrelation
  {
    var row := Row(m.extract(v).value, audios, m);
    if row.Success? then Choose(v, audios, row.value) else None
  }

  /** A table that was built had the table of all videos but the last built. */
  lemma BestMatchesPrefix(videos: seq<Path>, audios: seq<Path>, m: Media)
    requires WellFormed(m) && |videos| > 0
    requires forall i :: 0 <= i < |videos| ==> m.extract(videos[i]).Some?
    requires forall i :: 0 <= i < |audios| ==> m.load(audios[i]).Some?
    requires BestMatches(videos, audios, m).Success?
    ensures forall i :: 0 <= i < |videos| - 1 ==> videos[..|videos| - 1][i] == videos[i]
    ensures BestMatches(videos[..|videos| - 1], audios, m).Success?
  {
    var prefix := videos[..|videos| - 1];
    assert forall i :: 0 <= i < |prefix| ==> prefix[i] == videos[i];
  }

  /** A built table is the table of all videos but the last, followed by the
      last video's own decision if it kept one. */
  lemma BestMatchesSnoc(videos: seq<Path>, audios: seq<Path>, m: Media)
    requires WellFormed(m) && |videos| > 0
    requires forall i :: 0 <= i < |videos| ==> m.extract(videos[i]).Some?
    requires forall i :: 0 <= i < |audios| ==> m.load(audios[i]).Some?
    requires BestMatches(videos, audios, m).Success?
    ensures forall i :: 0 <= i < |videos| - 1 ==> videos[..|videos| - 1][i] == videos[i]
    ensures BestMatches(videos[..|videos| - 1], audios, m).Success?
    ensures var c := VideoChoice(videos[|videos| - 1], audios, m);
      BestMatches(videos, audios, m).value
        == BestMatches(videos[..|videos| - 1], audios, m).value + (if c.Some? then [c.value] else [])
  {
    BestMatchesPrefix(videos, audios, m);
  }

  /** Some video of `videos` decides on `c` by itself. */
  ghost predicate DecidedBy(videos: seq<Path>, audios: seq<Path>, m: Media, c: Choice)
    requires WellFormed(m)
    requires forall i :: 0 <= i < |audios| ==> m.load(audios[i]).Some?
  {
    exists i :: 0 <= i < |videos| && m.extract(videos[i]).Some? && VideoChoice(videos[i], audios, m) == Some(c)
  }

  /** A decision by some video of the prefix is one by the longer list. */
  lemma DecidedByPrefix(videos: seq<Path>, audios: seq<Path>, m: Media, c: Choice)
    requires WellFormed(m) && |videos| > 0
    requires forall i :: 0 <= i < |videos| ==> m.extract(videos[i]).Some?
    requires forall i :: 0 <= i < |audios| ==> m.load(audios[i]).Some?
    requires forall i :: 0 <= i < |videos| - 1 ==> videos[..|videos| - 1][i] == videos[i]
    requires DecidedBy(videos[..|videos| - 1], audios, m, c)
    ensures DecidedBy(videos, audios, m, c)
  {
    var prefix := videos[..|videos| - 1];
    var i :| 0 <= i < |prefix| && m.extract(prefix[i]).Some? && VideoChoice(prefix[i], audios, m) == Some(c);
    assert m.extract(videos[i]).Some? && VideoChoice(videos[i], audios, m) == Some(c);
  }

  /** A decision by some video is one by the prefix or by the last video. */
  lemma DecidedByLastOrPrefix(videos: seq<Path>, audios: seq<Path>, m: Media, c: Choice)
    requires WellFormed(m) && |videos| > 0
    requires forall i :: 0 <= i < |videos| ==> m.extract(videos[i]).Some?
    requires forall i :: 0 <= i < |audios| ==> m.load(audios[i]).Some?
    requires forall i :: 0 <= i < |videos| - 1 ==> videos[..|videos| - 1][i] == videos[i]
    requires DecidedBy(videos, audios, m, c)
    ensures DecidedBy(videos[..|videos| - 1], audios, m, c) || VideoChoice(videos[|videos| - 1], audios, m) == Some(c)
  {
    var prefix := videos[..|videos| - 1];
    var i :| 0 <= i < |videos| && m.extract(videos[i]).Some? && VideoChoice(videos[i], audios, m) == Some(c);
    if i < |prefix| {
      assert m.extract(prefix[i]).Some? && VideoChoice(prefix[i], audios, m) == Some(c);
    }
  }

  lemma DecidedBySnoc(videos: seq<Path>, audios: seq<Path>, m: Media, c: Choice)
    requires WellFormed(m) && |videos| > 0
    requires forall i :: 0 <= i < |videos| ==> m.extract(videos[i]).Some?
    requires forall i :: 0 <= i < |audios| ==> m.load(audios[i]).Some?
    requires forall i :: 0 <= i < |videos| - 1 ==> videos[..|videos| - 1][i] == videos[i]
    ensures DecidedBy(videos, audios, m, c) <==>
      DecidedBy(videos[..|videos| - 1], audios, m, c) || VideoChoice(videos[|videos| - 1], audios, m) == Some(c)
  {
    if DecidedBy(videos, audios, m, c) {
      DecidedByLastOrPrefix(videos, audios, m, c);
    }
    if DecidedBy(videos[..|videos| - 1], audios, m, c) {
      DecidedByPrefix(videos, audios, m, c);
    }
    if VideoChoice(videos[|videos| - 1], audios, m) == Some(c) {
      assert DecidedBy(videos, audios, m, c);
    }
  }

  /** The table holds exactly each video's own decision: nothing one video
      chooses depends on what the other videos chose, so there is no set of
      used audio files. */
  lemma {:induction false} BestMatchesPerVideo(videos: seq<Path>, audios: seq<Path>, m: Media, c: Choice)
    requires WellFormed(m)
    requires forall i :: 0 <= i < |videos| ==> m.extract(videos[i]).Some?
    requires forall i :: 0 <= i < |audios| ==> m.load(audios[i]).Some?
    requires BestMatches(videos, audios, m).Success?
    ensures c in BestMatches(videos, audios, m).value <==> DecidedBy(videos, audios, m, c)
  {
    if |videos| > 0 {
      BestMatchesSnoc(videos, audios, m);
      BestMatchesPerVideo(videos[..|videos| - 1], audios, m, c);
      DecidedBySnoc(videos, audios, m, c);
    }
  }

  /** A two-sample signal of mean 0 and population standard deviation 1. */
  const Pulse: Signal := [1.0, -1.0]

  /** `n` correlation values of 0. */
  function Zeros(n: nat): (r: seq<real>)
    ensures |r| == n
  {
    if n == 0 then [] else [0.0] + Zeros(n - 1)
  }

  /** The full-mode correlation of `Pulse` with itself, divided by the square
      root of 2 * 2: -0.5 at lag -1, 1.0 at lag 0 and -0.5 at lag 1. Any other
      pair of signals gets zeros of the full length. */
  function PulseCorrelate(x: Signal, y: Signal): seq<real> {
    if x == Pulse && y == Pulse then [-0.5, 1.0, -0.5]
    else if |x| + |y| >= 1 then Zeros(|x| + |y| - 1)
    else []
  }

  /** Tools under which every file holds `Pulse`. The standard deviation is
      that of `Pulse`, the only signal these tools ever hand out. */
  function PulseMedia(): (m: Media)
    ensures WellFormed(m)
  {
    Media(
      p => Some(Pulse),
      p => Some(Pulse),
      p => Zero,
      Numerics(s => 1.0, PulseCorrelate))
  }

  /** The comparison of two copies of `Pulse`: no lag, score 1. */
  lemma PulseOffset()
    ensures FindSyncOffset(Pulse, Pulse, PulseMedia().numerics) == Success((Reduce(0, AnalysisRate), 1.0))
  {
    var k := PulseMedia().numerics;
    var corr := k.correlate(Pulse, Pulse);
    assert corr == [-0.5, 1.0, -0.5];
    assert Correlation.ArgMaxAbs(corr) == 1;
    assert PeakLag(Pulse, Pulse, k) == 0;
  }

  lemma PulseRow(a: Path)
    ensures Row(Pulse, [a], PulseMedia()) == Success([(Reduce(0, AnalysisRate), 1.0)])
  {
    var m := PulseMedia();
    assert m.load(a) == Some(Pulse);
    PulseOffset();
    assert [a][..0] == [];
    assert Row(Pulse, [], m) == Success([]);
    assert FindSyncOffset(Pulse, m.load([a][0]).value, m.numerics) == Success((Reduce(0, AnalysisRate), 1.0));
    var hit: (Rat, real) := (Reduce(0, AnalysisRate), 1.0);
    var none: seq<(Rat, real)> := [];
    assert none + [hit] == [hit];
  }

  /** Under the pulse tools any video's best audio among `[a]` is `a`. */
  lemma PulseChoice(v: Path, a: Path)
    ensures PulseMedia().extract(v) == Some(Pulse)
    ensures Row(PulseMedia().extract(v).value, [a], PulseMedia()).Success?
    ensures VideoChoice(v, [a], PulseMedia()) == Some(Choice(v, a, Reduce(0, AnalysisRate), 1.0))
  {
    var hit: (Rat, real) := (Reduce(0, AnalysisRate), 1.0);
    PulseRow(a);
    var one: seq<(Rat, real)> := [hit];
    assert one[..0] == [];
    assert Pick(one) == (1.0, Some(0));
  }

  /** The table is built once every video's comparison row is. */
  lemma {:induction false} BestMatchesSucceeds(videos: seq<Path>, audios: seq<Path>, m: Media)
    requires WellFormed(m)
    requires forall i :: 0 <= i < |videos| ==> m.extract(videos[i]).Some?
    requires forall i :: 0 <= i < |audios| ==> m.load(audios[i]).Some?
    requires forall i :: 0 <= i < |videos| ==> Row(m.extract(videos[i]).value, audios, m).Success?
    ensures BestMatches(videos, audios, m).Success?
  {
    if |videos| > 0 {
      var prefix := videos[..|videos| - 1];
      assert forall i :: 0 <= i < |prefix| ==> prefix[i] == videos[i];
      BestMatchesSucceeds(prefix, audios, m);
    }
  }

  /** An audio file is never used up: whenever two videos each decide on the
      same audio file, the table holds both choices. */
  lemma AudioServesSeveralVideos(videos: seq<Path>, audios: seq<Path>, m: Media, i: nat, j: nat)
    requires WellFormed(m)
    requires forall k :: 0 <= k < |videos| ==> m.extract(videos[k]).Some?
    requires forall k :: 0 <= k < |audios| ==> m.load(audios[k]).Some?
    requires BestMatches(videos, audios, m).Success?
    requires i < |videos| && j < |videos|
    requires VideoChoice(videos[i], audios, m).Some? && VideoChoice(videos[j], audios, m).Some?
    ensures VideoChoice(videos[i], audios, m).value in BestMatches(videos, audios, m).value
    ensures VideoChoice(videos[j], audios, m).value in BestMatches(videos, audios, m).value
  {
    BestMatchesPerVideo(videos, audios, m, VideoChoice(videos[i], audios, m).value);
    BestMatchesPerVideo(videos, audios, m, VideoChoice(videos[j], audios, m).value);
  }

  /** Under the pulse tools two different videos decide on the one audio
      file, so a table over them holds the audio twice. */
  lemma PulseVideosShareAudio(v1: Path, v2: Path, a: Path)
    requires v1 != v2
    ensures VideoChoice(v1, [a], PulseMedia()) == Some(Choice(v1, a, Reduce(0, AnalysisRate), 1.0))
    ensures VideoChoice(v2, [a], PulseMedia()) == Some(Choice(v2, a, Reduce(0, AnalysisRate), 1.0))
    ensures BestMatches([v1, v2], [a], PulseMedia()).Success?
    ensures
      && Choice(v1, a, Reduce(0, AnalysisRate), 1.0) in BestMatches([v1, v2], [a], PulseMedia()).value
      && Choice(v2, a, Reduce(0, AnalysisRate), 1.0) in BestMatches([v1, v2], [a], PulseMedia()).value
  {
    PulseChoice(v1, a);
    PulseChoice(v2, a);
    BestMatchesSucceeds([v1, v2], [a], PulseMedia());
    AudioServesSeveralVideos([v1, v2], [a], PulseMedia(), 0, 1);
  }

  // ---------------------------------------------------------------------------
  // Progress reporting
  // ---------------------------------------------------------------------------

  /** The progress messages of a run that completes, in order. */
  datatype Progress =
    | Extracting(video: Path)
    | ExtractWarning(video: Path)
    | Loading(audio: Path)
    | LoadWarning(audio: Path)
    | Comparing(video: Path, audio: Path)

  function ExtractEvents(videos: seq<Path>, extract: Path -> Option<Signal>): seq<Progress> {
    if |videos| == 0 then []
    else [Extracting(videos[0])] + (if extract(videos[0]).None? then [ExtractWarning(videos[0])] else [])
         + ExtractEvents(videos[1..], extract)
  }

  function LoadEvents(audios: seq<Path>, load: Path -> Option<Signal>): seq<Progress> {
    if |audios| == 0 then []
    else [Loading(audios[0])] + (if load(audios[0]).None? then [LoadWarning(audios[0])] else [])
         + LoadEvents(audios[1..], load)
  }

  function CompareEvents(videos: seq<Path>, audios: seq<Path>): (r: seq<Progress>)
    ensures |r| == |videos| * |audios|
  {
    if |videos| == 0 then []
    else seq(|audios|, i requires 0 <= i < |audios| => Comparing(videos[0], audios[i]))
         + CompareEvents(videos[1..], audios)
  }

  function Trace(videos: seq<Path>, audios: seq<Path>, m: Media): seq<Progress> {
    ExtractEvents(videos, m.extract) + LoadEvents(audios, m.load)
    + CompareEvents(Loaded(videos, m.extract), Loaded(audios, m.load))
  }

  /** `total_steps`, announced with every message. */
  function TotalSteps(videos: seq<Path>, audios: seq<Path>): int {
    |videos| + |audios| + |videos| * |audios|
  }

  function Failures(paths: seq<Path>, get: Path -> Option<Signal>): nat {
    |Filter(paths, p => get(p).None?)|
  }

  lemma {:induction false} ExtractEventsLength(videos: seq<Path>, extract: Path -> Option<Signal>)
    ensures |ExtractEvents(videos, extract)| == |videos| + Failures(videos, extract)
  {
    if |videos| > 0 {
      ExtractEventsLength(videos[1..], extract);
    }
  }

  lemma {:induction false} LoadEventsLength(audios: seq<Path>, load: Path -> Option<Signal>)
    ensures |LoadEvents(audios, load)| == |audios| + Failures(audios, load)
  {
    if |audios| > 0 {
      LoadEventsLength(audios[1..], load);
    }
  }

  /** One step per file, one more per failed file, and one per comparison of
      a loaded video with a loaded audio. */
  lemma TraceLength(videos: seq<Path>, audios: seq<Path>, m: Media)
    ensures |Trace(videos, audios, m)|
         == |videos| + Failures(videos, m.extract) + |audios| + Failures(audios, m.load)
            + |Loaded(videos, m.extract)| * |Loaded(audios, m.load)|
  {
    ExtractEventsLength(videos, m.extract);
    LoadEventsLength(audios, m.load);
  }

  /** With distinct paths and no failures the run reports exactly
      `total_steps` steps. */
  lemma TraceMatchesTotal(videos: seq<Path>, audios: seq<Path>, m: Media)
    requires NoDuplicates(videos) && NoDuplicates(audios)
    requires forall i :: 0 <= i < |videos| ==> m.extract(videos[i]).Some?
    requires forall i :: 0 <= i < |audios| ==> m.load(audios[i]).Some?
    ensures |Trace(videos, audios, m)| == TotalSteps(videos, audios)
  {
    TraceLength(videos, audios, m);
    AllLoaded(videos, m.extract);
    AllLoaded(audios, m.load);
    var lv, la := |Loaded(videos, m.extract)|, |Loaded(audios, m.load)|;
    assert lv == |videos| && la == |audios|;
    assert lv * la == |videos| * |audios|;
  }

  /** When every file of a duplicate-free list loads, all of them are kept
      and none fails. */
  lemma AllLoaded(paths: seq<Path>, get: Path -> Option<Signal>)
    requires NoDuplicates(paths)
    requires forall i :: 0 <= i < |paths| ==> get(paths[i]).Some?
    ensures Loaded(paths, get) == paths
    ensures Failures(paths, get) == 0
  {
    FilterAll(paths, p => get(p).Some?);
    DistinctOfDistinct(paths);
    FilterNone(paths, p => get(p).None?);
  }

  /** A failed extraction costs an extra step, so the count can pass
      `total_steps`: one video that cannot be extracted and no audio give two
      steps out of a total of one. */
  lemma TraceCanExceedTotal(v: Path, m: Media)
    requires m.extract(v).None?
    ensures |Trace([v], [], m)| == 2 > TotalSteps([v], [])
  {
    TraceLength([v], [], m);
    assert Filter([v], p => m.extract(p).None?) == [v];
  }
}
