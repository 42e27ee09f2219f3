/** Audio-based matching: every usable video signal is correlated with every
    usable audio signal, and the pairs are assigned one-to-one greedily in
    order of descending confidence, stopping at the first pair below the
    threshold. */
module AudioSync {
  import opened Wrappers
  import opened Sequences
  import opened Text
  import opened Rationals
  import opened Paths
  import opened Correlation

  /** A probed media file: its path and whether it carries sound. */
  datatype MediaFile = MediaFile(path: Path, hasAudio: bool)

  /** A matched video and audio file and the audio's offset in seconds. */
  datatype AudioMatch = AudioMatch(video: MediaFile, audio: MediaFile, offsetSeconds: Fraction)

  /** A correlated candidate: indices into the video and audio lists, the lag
      in samples and the confidence. */
  datatype Pair = Pair(vi: nat, ai: nat, offsetSamples: int, confidence: real)

  type Signal = seq<real>

  /** `_extract_audio_pcm(path, sample_rate)`; `None` where it raises. */
  type Extractor = (Path, int) -> Option<Signal>

  /** Signals shorter than this (0.1 s at 8 kHz) are not correlated. */
  const MinSamples: nat := 800
  const DefaultSampleRate: int := 8000
  const DefaultThreshold: real := 0.15

  // ---------------------------------------------------------------------------
  // Phase 1: the path -> signal tables
  // ---------------------------------------------------------------------------

  /** No later file in the list has the same path as `files[i]`. */
  predicate LastWithPath(files: seq<MediaFile>, i: int)
    requires 0 <= i < |files|
  {
    forall j :: i < j < |files| ==> files[j].path != files[i].path
  }

  function PathsOf(files: seq<MediaFile>): set<Path> {
    set i | 0 <= i < |files| :: files[i].path
  }

  /** `m` is the dict filled from `files` in list order: every listed path is
      a key, nothing else is, and a path's entry is the one its last file
      wrote. */
  ghost predicate Fills(files: seq<MediaFile>, signalOf: MediaFile -> Option<Signal>, m: map<Path, Option<Signal>>) {
    && m.Keys == PathsOf(files)
    && (forall i :: 0 <= i < |files| && LastWithPath(files, i) ==> m[files[i].path] == signalOf(files[i]))
  }

  function Table(files: seq<MediaFile>, signalOf: MediaFile -> Option<Signal>): (m: map<Path, Option<Signal>>)
    ensures Fills(files, signalOf, m)
  {
    if |files| == 0 then map[]
    else
      var prefix := files[..|files| - 1];
      var f := files[|files| - 1];
      var prev := Table(prefix, signalOf);
      TableSnoc(prefix, f, signalOf, prev);
      assert prefix + [f] == files;
      prev[f.path := signalOf(f)]
  }

  lemma TableSnoc(prefix: seq<MediaFile>, f: MediaFile, signalOf: MediaFile -> Option<Signal>, prev: map<Path, Option<Signal>>)
    requires Fills(prefix, signalOf, prev)
    ensures Fills(prefix + [f], signalOf, prev[f.path := signalOf(f)])
  {
    PathsOfSnoc(prefix, f);
    TableValuesSnoc(prefix, f, signalOf, prev);
  }

  lemma PathsOfSnoc(prefix: seq<MediaFile>, f: MediaFile)
    ensures PathsOf(prefix + [f]) == PathsOf(prefix) + {f.path}
  {
    var files := prefix + [f];
    forall p | p in PathsOf(files)
      ensures p in PathsOf(prefix) + {f.path}
    {
      var i :| 0 <= i < |files| && files[i].path == p;
      if i < |prefix| {
        assert prefix[i] == files[i];
      }
    }
    forall p | p in PathsOf(prefix)
      ensures p in PathsOf(files)
    {
      var i :| 0 <= i < |prefix| && prefix[i].path == p;
      assert files[i] == prefix[i];
    }
    assert files[|prefix|] == f;
  }

  /** One step of the filling loop keeps each path's entry the one its last
      file wrote. */
  lemma TableValuesSnoc(prefix: seq<MediaFile>, f: MediaFile, signalOf: MediaFile -> Option<Signal>, prev: map<Path, Option<Signal>>)
    requires forall i :: 0 <= i < |prefix| && LastWithPath(prefix, i) ==>
      prefix[i].path in prev && prev[prefix[i].path] == signalOf(prefix[i])
    ensures var files := prefix + [f];
      var m := prev[f.path := signalOf(f)];
      forall i :: 0 <= i < |files| && LastWithPath(files, i) ==> files[i].path in m && m[files[i].path] == signalOf(files[i])
  {
    var files := prefix + [f];
    forall i | 0 <= i < |files| && LastWithPath(files, i)
      ensures files[i].path in prev[f.path := signalOf(f)] && prev[f.path := signalOf(f)][files[i].path] == signalOf(files[i])
    {
      if i < |prefix| {
        LastWithPathPrefix(prefix, f, i);
      }
    }
  }

  lemma LastWithPathPrefix(prefix: seq<MediaFile>, f: MediaFile, i: int)
    requires 0 <= i < |prefix| && LastWithPath(prefix + [f], i)
    ensures LastWithPath(prefix, i) && f.path != prefix[i].path
  {
    var files := prefix + [f];
    assert files[i] == prefix[i] && files[|prefix|] == f;
    forall j | i < j < |prefix|
      ensures prefix[j].path != prefix[i].path
    {
      assert files[j] == prefix[j];
    }
  }

  /** A video without sound is not extracted. */
  function VideoSignal(v: MediaFile, extract: Extractor, sampleRate: int): Option<Signal> {
    if v.hasAudio then extract(v.path, sampleRate) else None
  }

  function VideoTable(videos: seq<MediaFile>, extract: Extractor, sampleRate: int): map<Path, Option<Signal>> {
    Table(videos, v => VideoSignal(v, extract, sampleRate))
  }

  function AudioTable(audios: seq<MediaFile>, extract: Extractor, sampleRate: int): map<Path, Option<Signal>> {
    Table(audios, (a: MediaFile) => extract(a.path, sampleRate))
  }

  /** `dict.get(path)`. */
  function Get(m: map<Path, Option<Signal>>, p: Path): Option<Signal> {
    if p in m then m[p] else None
  }

  predicate Usable(s: Option<Signal>) {
    s.Some? && |s.value| >= MinSamples
  }

  // ---------------------------------------------------------------------------
  // Phase 2: correlate every usable pair
  // ---------------------------------------------------------------------------

  /** Everything phase 2 reads. */
  datatype Signals = Signals(
    videos: seq<MediaFile>,
    audios: seq<MediaFile>,
    videoPcm: map<Path, Option<Signal>>,
    audioPcm: map<Path, Option<Signal>>,
    kernel: Kernel)

  function VideoSig(t: Signals, vi: nat): Option<Signal>
    requires vi < |t.videos|
  {
    Get(t.videoPcm, t.videos[vi].path)
  }

  function AudioSig(t: Signals, ai: nat): Option<Signal>
    requires ai < |t.audios|
  {
    Get(t.audioPcm, t.audios[ai].path)
  }

  /** `p` is the correlation of a usable video and a usable audio. */
  predicate PairOf(t: Signals, p: Pair)
    requires SizedKernel(t.kernel)
  {
    && p.vi < |t.videos| && p.ai < |t.audios|
    && Usable(VideoSig(t, p.vi)) && Usable(AudioSig(t, p.ai))
    && (p.offsetSamples, p.confidence)
       == CrossCorrelate(VideoSig(t, p.vi).value, AudioSig(t, p.ai).value, t.kernel)
  }

  /** Generation order: by video index, then by audio index. */
  predicate PairBefore(p: Pair, q: Pair) {
    p.vi < q.vi || (p.vi == q.vi && p.ai < q.ai)
  }

  /** The pairs of video `vi` with the audios before `upto`. */
  function RowPairs(t: Signals, vi: nat, upto: nat): (r: seq<Pair>)
    requires SizedKernel(t.kernel) && vi < |t.videos| && Usable(VideoSig(t, vi)) && upto <= |t.audios|
    ensures forall i :: 0 <= i < |r| ==> PairOf(t, r[i]) && r[i].vi == vi && r[i].ai < upto
    ensures forall i, j :: 0 <= i < j < |r| ==> r[i].ai < r[j].ai
    ensures forall ai :: 0 <= ai < upto && Usable(AudioSig(t, ai)) ==>
              exists i :: 0 <= i < |r| && r[i].ai == ai
  {
    if upto == 0 then []
    else
      var prev := RowPairs(t, vi, upto - 1);
      var ai := upto - 1;
      if Usable(AudioSig(t, ai)) then
        var c := CrossCorrelate(VideoSig(t, vi).value, AudioSig(t, ai).value, t.kernel);
        var r := prev + [Pair(vi, ai, c.0, c.1)];
        assert forall i :: 0 <= i < |prev| ==> r[i] == prev[i];
        RowStep(t, prev, Pair(vi, ai, c.0, c.1), upto);
        r
      else prev
  }

  /** Appending the pair of audio `upto - 1` to a row that holds every usable
      audio before it gives a row that holds every usable audio before `upto`. */
  lemma RowStep(t: Signals, prev: seq<Pair>, p: Pair, upto: nat)
    requires 0 < upto <= |t.audios| && p.ai == upto - 1
    requires forall ai :: 0 <= ai < upto - 1 && Usable(AudioSig(t, ai)) ==>
               exists i :: 0 <= i < |prev| && prev[i].ai == ai
    ensures forall ai :: 0 <= ai < upto && Usable(AudioSig(t, ai)) ==>
              exists i :: 0 <= i < |prev + [p]| && (prev + [p])[i].ai == ai
  {
    var r := prev + [p];
    forall ai | 0 <= ai < upto && Usable(AudioSig(t, ai))
      ensures exists i :: 0 <= i < |r| && r[i].ai == ai
    {
      if ai == upto - 1 {
        assert r[|prev|].ai == ai;
      } else {
        var i :| 0 <= i < |prev| && prev[i].ai == ai;
        assert r[i] == prev[i];
      }
    }
  }

  /** The pairs of the videos before `upto`, in generation order. */
  function AllPairs(t: Signals, upto: nat): (r: seq<Pair>)
    requires SizedKernel(t.kernel) && upto <= |t.videos|
    ensures forall i :: 0 <= i < |r| ==> PairOf(t, r[i]) && r[i].vi < upto
    ensures Chain(r, PairBefore)
    ensures forall vi, ai ::
              (0 <= vi < upto && 0 <= ai < |t.audios| && Usable(VideoSig(t, vi)) && Usable(AudioSig(t, ai))) ==>
              exists i :: 0 <= i < |r| && r[i].vi == vi && r[i].ai == ai
  {
    if upto == 0 then []
    else
      var prev := AllPairs(t, upto - 1);
      var vi := upto - 1;
      if Usable(VideoSig(t, vi)) then
        var row := RowPairs(t, vi, |t.audios|);
        AppendRow(t, prev, row, vi);
        prev + row
      else prev
  }

  lemma AppendRow(t: Signals, prev: seq<Pair>, row: seq<Pair>, vi: nat)
    requires SizedKernel(t.kernel) && vi < |t.videos| && Usable(VideoSig(t, vi))
    requires forall i :: 0 <= i < |prev| ==> PairOf(t, prev[i]) && prev[i].vi < vi
    requires Chain(prev, PairBefore)
    requires forall v, ai ::
              (0 <= v < vi && 0 <= ai < |t.audios| && Usable(VideoSig(t, v)) && Usable(AudioSig(t, ai))) ==>
              exists i :: 0 <= i < |prev| && prev[i].vi == v && prev[i].ai == ai
    requires forall i :: 0 <= i < |row| ==> PairOf(t, row[i]) && row[i].vi == vi
    requires forall i, j :: 0 <= i < j < |row| ==> row[i].ai < row[j].ai
    requires forall ai :: 0 <= ai < |t.audios| && Usable(AudioSig(t, ai)) ==>
              exists i :: 0 <= i < |row| && row[i].ai == ai
    ensures var r := prev + row;
      && (forall i :: 0 <= i < |r| ==> PairOf(t, r[i]) && r[i].vi < vi + 1)
      && Chain(r, PairBefore)
      && forall v, ai ::
           (0 <= v < vi + 1 && 0 <= ai < |t.audios| && Usable(VideoSig(t, v)) && Usable(AudioSig(t, ai))) ==>
           exists i :: 0 <= i < |r| && r[i].vi == v && r[i].ai == ai
  {
    var r := prev + row;
    assert forall i :: 0 <= i < |prev| ==> r[i] == prev[i];
    assert forall i :: 0 <= i < |row| ==> r[|prev| + i] == row[i];
    forall v, ai | 0 <= v < vi + 1 && 0 <= ai < |t.audios| && Usable(VideoSig(t, v)) && Usable(AudioSig(t, ai))
      ensures exists i :: 0 <= i < |r| && r[i].vi == v && r[i].ai == ai
    {
      if v == vi {
        var i :| 0 <= i < |row| && row[i].ai == ai;
        assert r[|prev| + i].vi == v && r[|prev| + i].ai == ai;
      } else {
        var i :| 0 <= i < |prev| && prev[i].vi == v && prev[i].ai == ai;
        assert r[i].vi == v;
      }
    }
  }

  // ---------------------------------------------------------------------------
  // Phase 3: greedy one-to-one assignment
  // ---------------------------------------------------------------------------

  function Confidence(p: Pair): real { p.confidence }

  function Greater(a: real, b: real): bool { a > b }

  lemma GreaterStrictOrder()
    ensures StrictOrder(Greater)
  {
  }

  /** `pairs.sort(key=confidence, reverse=True)`: descending and stable. */
  function SortPairs(pairs: seq<Pair>): (r: seq<Pair>) {
    GreaterStrictOrder();
    SortBy(pairs, Confidence, Greater)
  }

  datatype Assignment = Assignment(accepted: seq<Pair>, usedV: set<nat>, usedA: set<nat>, stopped: bool)

  const Start: Assignment := Assignment([], {}, {}, false)

  /** One turn of the scan: skip a pair whose video or audio is taken, stop at
      the first free pair below the threshold, otherwise accept it. */
  function Step(st: Assignment, p: Pair, threshold: real): Assignment {
    if st.stopped then st
    else if p.vi in st.usedV || p.ai in st.usedA then st
    else if p.confidence < threshold then st.(stopped := true)
    else Assignment(st.accepted + [p], st.usedV + {p.vi}, st.usedA + {p.ai}, false)
  }

  function VideosOf(s: seq<Pair>): set<nat> {
    set i | 0 <= i < |s| :: s[i].vi
  }

  function AudiosOf(s: seq<Pair>): set<nat> {
    set i | 0 <= i < |s| :: s[i].ai
  }

  /** No video and no audio index is used twice. */
  predicate OneToOne(s: seq<Pair>) {
    forall i, j :: 0 <= i < j < |s| ==> s[i].vi != s[j].vi && s[i].ai != s[j].ai
  }

  /** `p` cannot be added to the assignment: it is in it, it clashes with it,
      or it is below the threshold. */
  predicate Covered(p: Pair, st: Assignment, threshold: real) {
    p in st.accepted || p.vi in st.usedV || p.ai in st.usedA || p.confidence < threshold
  }

  /** The scan broke at `pairs[s]`, a free pair below the threshold, and
      every pair before it is covered. */
  predicate StoppedAt(pairs: seq<Pair>, s: int, st: Assignment, threshold: real) {
    && 0 <= s < |pairs| && pairs[s].confidence < threshold
    && forall j :: 0 <= j < s ==> Covered(pairs[j], st, threshold)
  }

  /** The scan over `pairs`, as a fold over its prefixes. */
  function Assign(pairs: seq<Pair>, threshold: real): (r: Assignment)
    ensures r.usedV == VideosOf(r.accepted) && r.usedA == AudiosOf(r.accepted)
    ensures OneToOne(r.accepted)
    ensures forall i :: 0 <= i < |r.accepted| ==> r.accepted[i].confidence >= threshold
    ensures forall i :: 0 <= i < |r.accepted| ==> r.accepted[i] in pairs
    ensures !r.stopped ==> forall j :: 0 <= j < |pairs| ==> Covered(pairs[j], r, threshold)
    ensures r.stopped ==> exists s :: StoppedAt(pairs, s, r, threshold)
  {
    if |pairs| == 0 then Start
    else
      var prefix := pairs[..|pairs| - 1];
      var p := pairs[|pairs| - 1];
      var st := Assign(prefix, threshold);
      var r := Step(st, p, threshold);
      AssignStep(prefix, p, st, r, threshold);
      assert pairs == prefix + [p];
      r
  }

  lemma AssignStep(prefix: seq<Pair>, p: Pair, st: Assignment, r: Assignment, threshold: real)
    requires r == Step(st, p, threshold)
    requires st.usedV == VideosOf(st.accepted) && st.usedA == AudiosOf(st.accepted)
    requires OneToOne(st.accepted)
    requires forall i :: 0 <= i < |st.accepted| ==> st.accepted[i].confidence >= threshold
    requires forall i :: 0 <= i < |st.accepted| ==> st.accepted[i] in prefix
    requires !st.stopped ==> forall j :: 0 <= j < |prefix| ==> Covered(prefix[j], st, threshold)
    requires st.stopped ==> exists s :: StoppedAt(prefix, s, st, threshold)
    ensures r.usedV == VideosOf(r.accepted) && r.usedA == AudiosOf(r.accepted)
    ensures OneToOne(r.accepted)
    ensures forall i :: 0 <= i < |r.accepted| ==> r.accepted[i].confidence >= threshold
    ensures forall i :: 0 <= i < |r.accepted| ==> r.accepted[i] in prefix + [p]
    ensures !r.stopped ==> forall j :: 0 <= j < |prefix + [p]| ==> Covered((prefix + [p])[j], r, threshold)
    ensures r.stopped ==> exists s :: StoppedAt(prefix + [p], s, r, threshold)
  {
    var pairs := prefix + [p];
    assert forall j :: 0 <= j < |prefix| ==> pairs[j] == prefix[j];
    assert pairs[|prefix|] == p;
    if st.stopped {
      var s :| StoppedAt(prefix, s, st, threshold);
      assert StoppedAt(pairs, s, r, threshold);
    } else if !(p.vi in st.usedV || p.ai in st.usedA) {
      if p.confidence < threshold {
        assert StoppedAt(pairs, |prefix|, r, threshold);
      } else {
        var acc := st.accepted + [p];
        assert VideosOf(acc) == VideosOf(st.accepted) + {p.vi} by {
          assert forall i :: 0 <= i < |st.accepted| ==> acc[i] == st.accepted[i];
          assert acc[|st.accepted|] == p;
        }
        assert AudiosOf(acc) == AudiosOf(st.accepted) + {p.ai} by {
          assert forall i :: 0 <= i < |st.accepted| ==> acc[i] == st.accepted[i];
          assert acc[|st.accepted|] == p;
        }
        forall j | 0 <= j < |pairs|
          ensures Covered(pairs[j], r, threshold)
        {
          if j < |prefix| {
            assert Covered(prefix[j], st, threshold);
          }
        }
      }
    }
  }

  predicate Descending(s: seq<Pair>) {
    forall i, j :: 0 <= i < j < |s| ==> s[i].confidence >= s[j].confidence
  }

  /** `Assign` over pairs in descending confidence accepts pairs in descending
      confidence. */
  lemma {:induction false} AssignDescending(pairs: seq<Pair>, threshold: real)
    requires SortedBy(pairs, Confidence, Greater)
    ensures Descending(Assign(pairs, threshold).accepted)
  {
    if |pairs| > 0 {
      var prefix := pairs[..|pairs| - 1];
      var p := pairs[|pairs| - 1];
      var st := Assign(prefix, threshold);
      assert forall i :: 0 <= i < |prefix| ==> prefix[i] == pairs[i];
      assert SortedBy(prefix, Confidence, Greater);
      AssignDescending(prefix, threshold);
      assert Assign(pairs, threshold) == Step(st, p, threshold);
      forall i | 0 <= i < |st.accepted|
        ensures st.accepted[i].confidence >= p.confidence
      {
        var m :| 0 <= m < |prefix| && prefix[m] == st.accepted[i];
        assert !Greater(Confidence(pairs[|pairs| - 1]), Confidence(pairs[m]));
      }
      StepDescending(st, p, threshold);
    }
  }

  lemma StepDescending(st: Assignment, p: Pair, threshold: real)
    requires Descending(st.accepted)
    requires forall i :: 0 <= i < |st.accepted| ==> st.accepted[i].confidence >= p.confidence
    ensures Descending(Step(st, p, threshold).accepted)
  {
  }

  /** Over pairs in descending confidence, the assignment is maximal: every
      pair is accepted, clashes with an accepted pair, or is below the
      threshold. */
  lemma AssignMaximal(pairs: seq<Pair>, threshold: real)
    requires SortedBy(pairs, Confidence, Greater)
    ensures var r := Assign(pairs, threshold);
      forall j :: 0 <= j < |pairs| ==> Covered(pairs[j], r, threshold)
  {
    var r := Assign(pairs, threshold);
    if r.stopped {
      var s :| StoppedAt(pairs, s, r, threshold);
      forall j | s <= j < |pairs|
        ensures pairs[j].confidence < threshold
      {
        if s < j {
          assert !Greater(Confidence(pairs[j]), Confidence(pairs[s]));
        }
      }
    }
  }

  /** `p` and `q` share a video or an audio. */
  predicate Clash(p: Pair, q: Pair) {
    p.vi == q.vi || p.ai == q.ai
  }

  /** Every pair at or above the threshold is accepted or loses to an earlier
      accepted pair that shares its video or its audio. */
  predicate GreedyChoice(pairs: seq<Pair>, acc: seq<Pair>, threshold: real) {
    forall j :: 0 <= j < |pairs| && pairs[j].confidence >= threshold ==>
      || pairs[j] in acc
      || exists i :: 0 <= i < j && pairs[i] in acc && Clash(pairs[i], pairs[j])
  }

  /** No two different accepted pairs clash. */
  lemma AcceptedNoClash(pairs: seq<Pair>, threshold: real)
    ensures var acc := Assign(pairs, threshold).accepted;
      forall i, j :: 0 <= i < j < |pairs| && pairs[i] in acc && pairs[j] in acc && pairs[i] != pairs[j] ==>
        !Clash(pairs[i], pairs[j])
  {
  }

  /** Over pairs in descending confidence the scan makes the greedy choice:
      a pair at or above the threshold is skipped only for an earlier accepted
      pair it clashes with. */
  lemma {:induction false} AssignGreedy(pairs: seq<Pair>, threshold: real)
    requires SortedBy(pairs, Confidence, Greater)
    ensures GreedyChoice(pairs, Assign(pairs, threshold).accepted, threshold)
  {
    if |pairs| > 0 {
      var prefix := pairs[..|pairs| - 1];
      var p := pairs[|pairs| - 1];
      assert forall i :: 0 <= i < |prefix| ==> prefix[i] == pairs[i];
      assert SortedBy(prefix, Confidence, Greater);
      AssignGreedy(prefix, threshold);
      assert pairs == prefix + [p];
      GreedyStep(prefix, p, Assign(prefix, threshold), threshold);
    }
  }

  /** One turn of a descending scan keeps the greedy choice. */
  lemma GreedyStep(prefix: seq<Pair>, p: Pair, st: Assignment, threshold: real)
    requires SortedBy(prefix + [p], Confidence, Greater)
    requires st == Assign(prefix, threshold) && GreedyChoice(prefix, st.accepted, threshold)
    ensures GreedyChoice(prefix + [p], Step(st, p, threshold).accepted, threshold)
  {
    var pairs := prefix + [p];
    var acc := Step(st, p, threshold).accepted;
    assert forall i :: 0 <= i < |prefix| ==> prefix[i] == pairs[i];
    assert forall x :: x in st.accepted ==> x in acc;
    forall j | 0 <= j < |pairs| && pairs[j].confidence >= threshold
      ensures || pairs[j] in acc
              || exists i :: 0 <= i < j && pairs[i] in acc && Clash(pairs[i], pairs[j])
    {
      if j < |prefix| {
        if prefix[j] !in st.accepted {
          var i :| 0 <= i < j && prefix[i] in st.accepted && Clash(prefix[i], prefix[j]);
          assert pairs[i] in acc;
        }
      } else {
        NextPairGreedy(prefix, p, st, threshold);
      }
    }
  }

  /** The last pair of a descending scan is accepted, clashes with an accepted
      pair of the prefix, or is below the threshold. */
  lemma NextPairGreedy(prefix: seq<Pair>, p: Pair, st: Assignment, threshold: real)
    requires SortedBy(prefix + [p], Confidence, Greater)
    requires st == Assign(prefix, threshold) && p.confidence >= threshold
    ensures var pairs := prefix + [p];
      || p in Step(st, p, threshold).accepted
      || exists i :: 0 <= i < |prefix| && pairs[i] in Step(st, p, threshold).accepted && Clash(pairs[i], p)
  {
    var pairs := prefix + [p];
    assert forall i :: 0 <= i < |prefix| ==> prefix[i] == pairs[i];
    assert pairs[|prefix|] == p;
    if p.vi in st.usedV {
      var k :| 0 <= k < |st.accepted| && st.accepted[k].vi == p.vi;
      var i :| 0 <= i < |prefix| && prefix[i] == st.accepted[k];
      assert pairs[i] in Step(st, p, threshold).accepted && Clash(pairs[i], p);
    } else if p.ai in st.usedA {
      var k :| 0 <= k < |st.accepted| && st.accepted[k].ai == p.ai;
      var i :| 0 <= i < |prefix| && prefix[i] == st.accepted[k];
      assert pairs[i] in Step(st, p, threshold).accepted && Clash(pairs[i], p);
    }
  }

  /** Pairs of equal confidence keep their generation order through the sort,
      so ties go to the smaller video index, then the smaller audio index. */
  lemma SortTieBreak(pairs: seq<Pair>)
    requires Chain(pairs, PairBefore)
    ensures var sorted := SortPairs(pairs);
      forall i, j :: 0 <= i < j < |sorted| && sorted[i].confidence == sorted[j].confidence ==>
        PairBefore(sorted[i], sorted[j])
  {
    var sorted := SortPairs(pairs);
    GreaterStrictOrder();
    forall i, j | 0 <= i < j < |sorted| && sorted[i].confidence == sorted[j].confidence
      ensures PairBefore(sorted[i], sorted[j])
    {
      var c := Confidence(sorted[i]);
      SortStable(pairs, Confidence, Greater, c);
      KeyClassChain(pairs, Confidence, c, PairBefore);
      ChainWithinClass(sorted, Confidence, PairBefore, i, j);
    }
  }

  // ---------------------------------------------------------------------------
  // match_by_audio
  // ---------------------------------------------------------------------------

  function VideoName(m: AudioMatch): string { m.video.path.name }

  function SignalsOf(videos: seq<MediaFile>, audios: seq<MediaFile>, extract: Extractor,
                     kernel: Kernel, sampleRate: int): Signals {
    Signals(videos, audios, VideoTable(videos, extract, sampleRate),
            AudioTable(audios, extract, sampleRate), kernel)
  }

  /** The accepted pairs, in acceptance order. */
  function Accepted(t: Signals, threshold: real): (acc: seq<Pair>)
    requires SizedKernel(t.kernel)
    ensures forall i :: 0 <= i < |acc| ==> PairOf(t, acc[i])
    ensures OneToOne(acc)
    ensures forall i :: 0 <= i < |acc| ==> acc[i].confidence >= threshold
  {
    var pairs := AllPairs(t, |t.videos|);
    var sorted := SortPairs(pairs);
    var acc := Assign(sorted, threshold).accepted;
    forall i | 0 <= i < |acc|
      ensures PairOf(t, acc[i])
    {
      assert acc[i] in multiset(pairs);
    }
    acc
  }

  function ToMatch(t: Signals, p: Pair, sampleRate: int): AudioMatch
    requires p.vi < |t.videos| && p.ai < |t.audios| && sampleRate != 0
  {
    AudioMatch(t.videos[p.vi], t.audios[p.ai], Reduce(p.offsetSamples, sampleRate))
  }

  /** The accepted pairs as matches, in acceptance order; the offset in
      seconds is the lag divided by the sample rate. */
  function Matches(t: Signals, acc: seq<Pair>, sampleRate: int): (r: seq<AudioMatch>)
    requires sampleRate != 0
    requires forall i :: 0 <= i < |acc| ==> acc[i].vi < |t.videos| && acc[i].ai < |t.audios|
    ensures |r| == |acc|
    ensures forall i :: 0 <= i < |acc| ==>
      && r[i].video == t.videos[acc[i].vi] && r[i].audio == t.audios[acc[i].ai]
      && r[i].offsetSeconds.num * sampleRate == acc[i].offsetSamples * r[i].offsetSeconds.den
  {
    seq(|acc|, i requires 0 <= i < |acc| => ToMatch(t, acc[i], sampleRate))
  }

  /** `match_by_audio(video_files, audio_files, sample_rate, confidence_threshold)`:
      the accepted pairs as matches, sorted by video file name. A zero sample
      rate raises ZeroDivisionError once a pair is accepted. */
  function MatchByAudio(videos: seq<MediaFile>, audios: seq<MediaFile>, extract: Extractor,
                        kernel: Kernel, sampleRate: int, threshold: real): (r: Result<seq<AudioMatch>>)
    requires SizedKernel(kernel)
    ensures var t := SignalsOf(videos, audios, extract, kernel, sampleRate);
      var acc := Accepted(t, threshold);
      && (r.Failure? <==> sampleRate == 0 && |acc| > 0)
      && (r.Success? && sampleRate != 0 ==> multiset(r.value) == multiset(Matches(t, acc, sampleRate)))
      && (r.Success? ==> |r.value| == |acc| && SortedBy(r.value, VideoName, LexLess))
  {
    var t := SignalsOf(videos, audios, extract, kernel, sampleRate);
    var acc := Accepted(t, threshold);
    if sampleRate == 0 then
      if |acc| > 0 then Failure(ZeroDivision) else Success([])
    else
      LexLessStrictOrder();
      var sorted := SortBy(Matches(t, acc, sampleRate), VideoName, LexLess);
      assert |sorted| == |multiset(sorted)|;
      Success(sorted)
  }

  // ---------------------------------------------------------------------------
  // Properties of the assignment as a whole
  // ---------------------------------------------------------------------------

  /** The accepted pairs come in descending confidence, and no correlated pair
      could be added: each is accepted, shares a video or an audio with an
      accepted pair, or is below the threshold. */
  lemma AcceptedGreedy(t: Signals, threshold: real)
    requires SizedKernel(t.kernel)
    ensures Descending(Accepted(t, threshold))
    ensures var acc := Accepted(t, threshold);
      var pairs := AllPairs(t, |t.videos|);
      forall j :: 0 <= j < |pairs| ==>
        pairs[j] in acc || pairs[j].vi in VideosOf(acc) || pairs[j].ai in AudiosOf(acc)
        || pairs[j].confidence < threshold
  {
    var pairs := AllPairs(t, |t.videos|);
    var sorted := SortPairs(pairs);
    var r := Assign(sorted, threshold);
    AssignDescending(sorted, threshold);
    AssignMaximal(sorted, threshold);
    CoveredReordered(pairs, sorted, r, threshold);
  }

  /** Coverage of every pair does not depend on the order they are listed in. */
  lemma CoveredReordered(pairs: seq<Pair>, sorted: seq<Pair>, r: Assignment, threshold: real)
    requires multiset(sorted) == multiset(pairs)
    requires forall j :: 0 <= j < |sorted| ==> Covered(sorted[j], r, threshold)
    ensures forall j :: 0 <= j < |pairs| ==> Covered(pairs[j], r, threshold)
  {
    forall j | 0 <= j < |pairs|
      ensures Covered(pairs[j], r, threshold)
    {
      assert pairs[j] in multiset(sorted);
      var m :| 0 <= m < |sorted| && sorted[m] == pairs[j];
    }
  }

  /** Walking the pairs in the order the scan visits them, each pair at or
      above the threshold is accepted unless an earlier accepted pair shares
      its video or its audio, and no two accepted pairs share either. */
  lemma AcceptedGreedyChoice(t: Signals, threshold: real)
    requires SizedKernel(t.kernel)
    ensures var sorted := SortPairs(AllPairs(t, |t.videos|));
      var acc := Accepted(t, threshold);
      && GreedyChoice(sorted, acc, threshold)
      && forall i, j :: 0 <= i < j < |sorted| && sorted[i] in acc && sorted[j] in acc && sorted[i] != sorted[j] ==>
           !Clash(sorted[i], sorted[j])
  {
    var sorted := SortPairs(AllPairs(t, |t.videos|));
    AssignGreedy(sorted, threshold);
    AcceptedNoClash(sorted, threshold);
  }

  /** A video whose sound is missing is never paired: neither a file flagged
      without audio (when no later file shares its path) nor one whose
      extraction failed. */
  lemma SilentVideoNeverPaired(videos: seq<MediaFile>, audios: seq<MediaFile>, extract: Extractor,
                               kernel: Kernel, sampleRate: int, vi: nat)
    requires SizedKernel(kernel) && vi < |videos| && LastWithPath(videos, vi)
    requires !videos[vi].hasAudio || extract(videos[vi].path, sampleRate).None?
    ensures var t := SignalsOf(videos, audios, extract, kernel, sampleRate);
      var pairs := AllPairs(t, |videos|);
      forall j :: 0 <= j < |pairs| ==> pairs[j].vi != vi
  {
    var t := SignalsOf(videos, audios, extract, kernel, sampleRate);
    assert VideoSig(t, vi) == VideoSignal(videos[vi], extract, sampleRate);
  }

  /** Every pair of usable signals is correlated, and only those. */
  lemma PairsAreUsable(t: Signals, vi: nat, ai: nat)
    requires SizedKernel(t.kernel) && vi < |t.videos| && ai < |t.audios|
    ensures var pairs := AllPairs(t, |t.videos|);
      (exists j :: 0 <= j < |pairs| && pairs[j].vi == vi && pairs[j].ai == ai)
      <==> Usable(VideoSig(t, vi)) && Usable(AudioSig(t, ai))
  {
  }

  /** Equal confidences are decided by generation order. */
  lemma AcceptedTieBreak(t: Signals)
    requires SizedKernel(t.kernel)
    ensures var sorted := SortPairs(AllPairs(t, |t.videos|));
      forall i, j :: 0 <= i < j < |sorted| && sorted[i].confidence == sorted[j].confidence ==>
        PairBefore(sorted[i], sorted[j])
  {
    SortTieBreak(AllPairs(t, |t.videos|));
  }
}
