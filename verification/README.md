# FCPX Sync — a Dafny model of the matcher and the FCPXML writer

FCPX Sync batch-syncs video clips with separately recorded audio for Final
Cut Pro X. It scans a folder for video and audio files and cross-correlates
their waveforms to pair each video with an audio recording and an offset.
It then writes an FCPXML document with one `sync-clip` per pair. This
project models the four pure-logic pieces of that pipeline as immutable
datatypes and pure functions, and proves what each of them promises.

- **Media-file partition and run outcome** (`Cli`, `cli.py`):
  - classifies a sorted directory listing by lower-cased extension;
  - supports single-folder and separate-folder modes;
  - fails in a fixed order: not a directory, no videos, no audios, no matches.
- **Per-video best match** (`SyncEngine`, `sync_engine.py`):
  - `find_sync_offset`'s silence guard and full-mode lag;
  - `match_files`, which keeps for each loaded video the first audio with the greatest score at or above 0.1, and sorts the result by video name;
  - the number of progress steps.
- **Greedy one-to-one assignment** (`AudioSync` and `Correlation`, `audio_sync.py`):
  - the FFT size and circular-index-to-lag conversion of `_cross_correlate`, and its energy guard;
  - pairing of usable signals only;
  - the descending-confidence sort with its stable tie-break;
  - the greedy assignment that stops at the first pair below the threshold;
  - the final sort by video name.
- **FCPXML writer** (`Timing`, `Probe`, `FcpxmlResources`, `Fcpxml`, `fcpxml.py`):
  - rational time encodings: `Fraction.limit_denominator`, and rounding to whole frames with ties to even;
  - reading the first stream of each kind from ffprobe output, with defaults;
  - deduplicated formats numbered `r1, r2, …` by a counter shared by video and audio;
  - deduplicated assets;
  - the sync-clip structure and the audio placement chosen by the sign of the offset;
  - the header, doctype and trailing newline of the text.

Floats become exact rationals (`Rationals.Rat`, a numerator and a positive
denominator). Where the source divides two numbers in floating point and
later takes `Fraction` of the result, the model keeps the exact quotient,
while `Fraction(float)` gives the nearest double. For example,
`Fraction(1/8000)` is 1152921504606847/9223372036854775808, not 1/8000.
Each such place is listed under "Left out". Correlation scores are `real`s
that are only ever compared.

Python exceptions become the `Result` failure path: a non-integer `int()`,
a zero frame-rate component, an empty signal, and a `limit_denominator`
bound below one.

The outside world is passed in as function values:
- ffprobe is `Tools.probe`;
- the md5 asset id is `Tools.assetId`;
- the file URL is `Tools.fileUrl`;
- ElementTree serialisation is `Tools.serialize`;
- ffmpeg extraction and loading are `Media.extract` and `Media.load`;
- the duration probe is `Media.duration`;
- numpy/scipy standard deviation and full cross-correlation are `Numerics`;
- the FFT correlation of `audio_sync.py` is `Kernel`;
- the file system is `Cli.FileSystem`.

Supporting modules:
- `Wrappers` holds `Option` and `Result`.
- `Text` holds Python string ordering, `str(int)`, `int(str)`, `str.split` and ASCII `lower`.
- `Sequences` holds filtering, first-occurrence order and a stable sort.
- `Paths` holds `Path.suffix` and `Path.stem`.
- `Xml` holds the element tree.

## Model

| member | source | states |
|---|---|---|
| Timing.SecondsToRational | fcpx_sync/fcpxml.py:17-23 | The result is a reduced fraction with denominator at most `timebase*100`; a value that already has such a denominator is kept exactly; non-negative input stays non-negative; a bound below one is an error |
| Timing.RationalTimeExact | fcpx_sync/fcpxml.py:17-23 | With the default time base of 1000, a time whose denominator is at most 100000 is written exactly |
| Timing.RationalTimeExamples | fcpx_sync/fcpxml.py:17-23 | 1.0, 0.5 and 0.0 seconds are written "1/1s", "1/2s" and "0/1s" |
| Timing.TimeTextRoundTrip | fcpx_sync/fcpxml.py:23 | The `"<num>/<den>s"` text of a time can be read back to the same fraction |
| Timing.DurationRational | fcpx_sync/fcpxml.py:26-33 | A zero frame-rate component raises ZeroDivision, and that is the only failure; a rounded duration is a fraction in lowest terms |
| Timing.DurationFrames | fcpx_sync/fcpxml.py:26-33 | The rounded duration is a whole number `f` of frames of length `fps_den/fps_num`, with `f` within half a frame of the input limited to denominator 100000 |
| Timing.FrameCountRounds | fcpx_sync/fcpxml.py:31 | `round` on a fraction: the nearest whole number of frames, with an exact tie going to the even count |
| Rationals.LimitDenominator | fcpx_sync/fcpxml.py:22 | `limit_denominator`: a reduced fraction with denominator within the bound; the input itself when its reduced form already fits; non-negative for non-negative input |
| Rationals.Reduce | fcpx_sync/fcpxml.py:22 | The fraction `n/d` in lowest terms with a positive denominator and the same value |
| Probe.FirstStream | fcpx_sync/fcpxml.py:50-51 | The first stream of the requested `codec_type`, and none exactly when no stream has it |
| Probe.GetFps | fcpx_sync/fcpxml.py:48-55 | The frame rate of the first video stream, from `r_frame_rate` or "30/1" when the field is missing; (30,1) without a video stream |
| Probe.ParseFps | fcpx_sync/fcpxml.py:53-54 | A rate without "/" parses as the integer over 1; text that is not an integer is an error |
| Probe.ParseFpsRoundTrip | fcpx_sync/fcpxml.py:52-54 | Any `"num/den"` written from two integers parses back to exactly that pair |
| Probe.GetResolution | fcpx_sync/fcpxml.py:58-63 | Width and height of the first video stream, each defaulting separately to 1920 and 1080; (1920,1080) without a video stream |
| Probe.GetAudioInfo | fcpx_sync/fcpxml.py:66-73 | Sample rate and channels of the first audio stream, with defaults 48000 and 2; a non-integer sample rate is an error; (48000,2) without an audio stream |
| Probe.ExampleReportFps | fcpx_sync/fcpxml.py:48-55 | A report whose video stream says "24/1" gives (24,1); an empty report gives (30,1) |
| FcpxmlResources.FormatIdInjective | fcpx_sync/fcpxml.py:115-116 | Different counter values give different format ids `r<k>` |
| FcpxmlResources.AddFormat | fcpx_sync/fcpxml.py:113-126 | A new key is appended and numbered; a key already seen changes nothing; a new video key with a zero frame-rate component raises ZeroDivision |
| FcpxmlResources.AddAsset | fcpx_sync/fcpxml.py:131-147 | A path already in `asset_map` leaves everything unchanged; a new path is appended with its entry; other entries are untouched |
| FcpxmlResources.AddVideo | fcpx_sync/fcpxml.py:107-147 | Succeeds exactly when the frame rate and the video's sample rate parse and the rate has no zero component; otherwise the first failing of those, in that order, is the error; on success the video's format key is registered, the video path is in `asset_map` and no earlier entry changes |
| FcpxmlResources.VideoAsset | fcpx_sync/fcpxml.py:113-147 | Once the probe was read: the step fails, with ZeroDivision, exactly when a frame-rate component is zero; a successful step registered the video's format key and gave the video path an entry, changing no earlier entry |
| FcpxmlResources.AudioAsset | fcpx_sync/fcpxml.py:152-182 | Once the probe was read: the audio's `(sr, ch)` key is registered and the audio path has an entry, with no earlier entry changed |
| FcpxmlResources.AddAudio | fcpx_sync/fcpxml.py:149-182 | The audio format key `(sr, ch)` is registered and the audio path is in `asset_map`, with no earlier entry changed; it fails only when the audio stream's sample rate is not an integer |
| FcpxmlResources.NewAssetEntry | fcpx_sync/fcpxml.py:131-147 | A file new to `asset_map` is entered with its asset id, the number of its format key and the given duration, and the asset element of that entry is appended after the earlier elements: `id`, `name` (the stem), `src`, `start` 0/1s, `duration`, `format`, then `hasVideo` for a video only, then `hasAudio`, `audioSources`, `audioChannels` and `audioRate` |
| FcpxmlResources.AddVideoEntry | fcpx_sync/fcpxml.py:128-147 | A video new to `asset_map` gets the entry (asset id, number of the video's `(width, height, fps_num, fps_den)` key, duration rounded to frames), and its asset element carries those values with `hasVideo` and the video stream's own channels and sample rate |
| FcpxmlResources.AddAudioEntry | fcpx_sync/fcpxml.py:150-182 | An audio file new to `asset_map` gets the entry (asset id, number of its `("audio", sr, ch)` key, duration as a rational time), and its asset element carries those values without `hasVideo`, with its channels and sample rate |
| FcpxmlResources.AssetElementTail | fcpx_sync/fcpxml.py:141-180 | After the six head attributes an asset element has `hasVideo` "1" for a video only, then `hasAudio` "1", `audioSources` "1", `audioChannels` as `str(ch)` and `audioRate` as `str(sr)`, and nothing more |
| FcpxmlResources.EntriesFromFirstMatch | fcpx_sync/fcpxml.py:105-182 | After the first loop every `asset_map` entry was written by the first match that names its file, in that file's role there, the video role winning: the file's asset id, the number of that role's format key, and the duration rounded to frames (video) or as a rational time (audio) |
| FcpxmlResources.EntryFromFirstMatch | fcpx_sync/fcpxml.py:105-182 | For one registered file: the index of the first match naming it, and that match wrote the file's entry |
| FcpxmlResources.StepSucceeds | fcpx_sync/fcpxml.py:104-182 | One iteration of the first loop succeeds exactly when the match's probes pass its checks, whatever came before |
| FcpxmlResources.BuildResourcesSnoc | fcpx_sync/fcpxml.py:104-182 | The loop over `ms` succeeds exactly when the loop over all but the last match does and the last match passes its checks |
| FcpxmlResources.BuildResourcesFailsAt | fcpx_sync/fcpxml.py:104-182 | A match whose frame rate or sample rates cannot be used makes the first loop raise |
| FcpxmlResources.BuildResourcesCompletes | fcpx_sync/fcpxml.py:104-182 | When every match passes its checks the first loop completes |
| FcpxmlResources.BuildResourcesSucceeds | fcpx_sync/fcpxml.py:104-182 | The first loop succeeds if and only if every match's frame rate and both sample rates parse and the rate has no zero component |
| FcpxmlResources.BuildResourcesGood | fcpx_sync/fcpxml.py:100-182 | After the first loop, the resources hold exactly one format element per registered key, numbered `r1…` in order, and one asset element per registered path, describing its `asset_map` entry |
| FcpxmlResources.ResourcesDeduplicated | fcpx_sync/fcpxml.py:100-182 | The registered formats are the distinct keys of all videos and audios in order of first appearance, and the registered assets the distinct paths |
| FcpxmlResources.EveryFileRegistered | fcpx_sync/fcpxml.py:105-182 | Every video and audio of every match has an `asset_map` entry after the first loop |
| FcpxmlResources.FormatIdsDistinctIn | fcpx_sync/fcpxml.py:114-117 | No two format elements share an id |
| Fcpxml.AudioPlacement | fcpx_sync/fcpxml.py:238-239 | Never both nonzero: a non-negative offset gives `start` 0/1s and a non-negative `offset`; a negative one gives `offset` 0/1s and a non-negative `start`; both in lowest terms |
| Fcpxml.AudioPlacementExact | fcpx_sync/fcpxml.py:238-239 | When the offset's denominator is within the time base, the audio's `offset` equals the offset exactly, or its `start` equals the offset's magnitude |
| Fcpxml.Clip | fcpx_sync/fcpxml.py:188-256 | The sync-clip of a match, which fails exactly when the re-read frame rate cannot be parsed or has a zero component; on success its duration is the video's duration rounded to frames |
| Fcpxml.ClipLength | fcpx_sync/fcpxml.py:210-213 | The sync-clip's duration fails exactly when the re-read frame rate cannot be parsed or has a zero component |
| Fcpxml.ClipLengthFrames | fcpx_sync/fcpxml.py:210-213 | The sync-clip's duration is a whole number of frames of the re-read rate, within half a frame of the video's duration limited to denominator 100000 |
| Fcpxml.SyncClip | fcpx_sync/fcpxml.py:189-256 | The sync-clip's name, format and rounded duration, then in order the video asset-clip at offset 0 with the video's `ref` and asset duration, the audio asset-clip with the audio's `ref` and asset duration placed by the offset's sign, and the sync-source |
| Fcpxml.ClipHasConstants | fcpx_sync/fcpxml.py:216-256 | A sync-clip starts at 0/1s with `tcFormat` NDF; its video asset-clip is named after the video's stem, starts at 0/1s, repeats the clip's format, uses NDF and the `dialogue` role; its audio asset-clip is named after the audio's stem with role `dialogue.dialogue-1` and NDF; the sync-source is the storyline with `dialogue.dialogue-1` active |
| Fcpxml.Clips | fcpx_sync/fcpxml.py:188-256 | One sync-clip per match, in match order; the loop fails exactly when some video's re-read frame rate is unusable |
| Fcpxml.SecondPassSucceeds | fcpx_sync/fcpxml.py:188-213 | Once the first loop succeeded, every match's files are in `asset_map` and the second loop cannot fail |
| Fcpxml.Generate | fcpx_sync/fcpxml.py:94-256 | The tree is `fcpxml > (resources, library > event)`; the resources are those of the first loop; the event carries the name and one matching sync-clip per match, each with the durations above; it fails exactly when the first loop fails |
| Fcpxml.ResourcesListed | fcpx_sync/fcpxml.py:100-182 | The resources of a document built from the first loop's state list that state's format keys, numbered in order, and describe its files, in order, with their `_make_asset_id` ids |
| Fcpxml.ResourcesSection | fcpx_sync/fcpxml.py:100-182 | The format elements of the document are the distinct keys numbered in order, and its asset elements describe the distinct files with their `_make_asset_id` ids |
| Fcpxml.ClipRefers | fcpx_sync/fcpxml.py:189-231 | In a document whose clips match `ms`, clip `i`'s asset-clips name the asset ids of match `i`'s files, each id has an asset element, and the clip's format names a format element |
| Fcpxml.ReferencesResolve | fcpx_sync/fcpxml.py:189-231 | Every asset-clip's `ref` names an asset element of the resources, and every sync-clip's `format` names a format element |
| Fcpxml.FormatIdsDistinct | fcpx_sync/fcpxml.py:114-117 | The format elements of the document have pairwise distinct ids |
| Fcpxml.AudioPlaced | fcpx_sync/fcpxml.py:238-249 | In a document whose clips match `ms`, each clip's audio asset-clip has offset 0/1s or start 0/1s |
| Fcpxml.ClipsConstantAt | fcpx_sync/fcpxml.py:188-256 | When every clip carries its match's constant attributes, clip `i` carries those of match `i` |
| Fcpxml.DocumentClipConstants | fcpx_sync/fcpxml.py:186-256 | Every sync-clip of the generated document carries its own match's constant attributes: starts, NDF, the two files' stems, the roles and the sync-source |
| Fcpxml.AudioOffsetOrStart | fcpx_sync/fcpxml.py:238-249 | Each audio asset-clip has offset 0/1s or start 0/1s |
| Fcpxml.DocumentText | fcpx_sync/fcpxml.py:258-265 | The text is the XML declaration line, the doctype line, the serialised tree and a final newline |
| Fcpxml.GenerateText | fcpx_sync/fcpxml.py:258-265 | The text is the XML declaration line, the doctype line, the serialised tree of `Generate`'s document and a final newline; it fails exactly when the first loop fails |
| Correlation.NextPow2 | fcpx_sync/audio_sync.py:63-66 | `fft_size` is a power of two, at least `n` and at least one, and no smaller power of two reaches `n` |
| Correlation.ToLagRange | fcpx_sync/audio_sync.py:87-91 | A peak index in `[0, size)` becomes a lag in `(-size/2, size/2]` congruent to the index modulo `size` |
| Correlation.ToLagUnique | fcpx_sync/audio_sync.py:87-91 | That lag is the only value in the range congruent to the index |
| Correlation.ArgMaxAbs | fcpx_sync/audio_sync.py:84 | The first index of greatest magnitude |
| Correlation.CrossCorrelate | fcpx_sync/audio_sync.py:63-93 | Energy product below 1e-12 gives (0, 0.0); otherwise the confidence is the largest normalised magnitude, non-negative, and the signed lag is that of the first index reaching it, as `np.argmax` picks |
| AudioSync.Table | fcpx_sync/audio_sync.py:133-150 | The PCM dict has exactly the files' paths as keys, each holding the signal of the last file with that path |
| AudioSync.RowPairs | fcpx_sync/audio_sync.py:160-165 | One video's pairs, in audio order, exactly for the usable audio signals |
| AudioSync.AllPairs | fcpx_sync/audio_sync.py:156-165 | The pairs are generated in (video, audio) order, each correlating two usable signals, and every usable combination occurs |
| AudioSync.PairsAreUsable | fcpx_sync/audio_sync.py:156-165 | A (video, audio) pair exists if and only if both signals are present and have at least 800 samples |
| AudioSync.SilentVideoNeverPaired | fcpx_sync/audio_sync.py:134-143 | A video without audio, or whose extraction failed, appears in no pair |
| AudioSync.Assign | fcpx_sync/audio_sync.py:170-186 | The accepted pairs are one-to-one on videos and audios, all at or above the threshold, all drawn from the input; without a stop every pair is accepted or blocked, and a stop happens at a pair below the threshold |
| AudioSync.AssignStep | fcpx_sync/audio_sync.py:174-186 | One iteration keeps the used sets equal to the accepted pairs' indices and keeps all the loop's invariants |
| AudioSync.AssignDescending | fcpx_sync/audio_sync.py:168-186 | Over pairs sorted by descending confidence, accepted confidences are non-increasing in acceptance order |
| AudioSync.AssignMaximal | fcpx_sync/audio_sync.py:168-186 | Over sorted pairs, every pair is accepted, blocked by a used video or audio, or below the threshold |
| AudioSync.SortTieBreak | fcpx_sync/audio_sync.py:168 | The stable sort keeps pairs of equal confidence in (video index, audio index) order |
| AudioSync.AcceptedTieBreak | fcpx_sync/audio_sync.py:156-168 | Among all generated pairs, ties in confidence stay in generation order after sorting |
| AudioSync.AssignGreedy | fcpx_sync/audio_sync.py:170-186 | Over pairs in descending confidence, every pair at or above the threshold is accepted or shares its video or audio with an earlier accepted pair |
| AudioSync.AcceptedNoClash | fcpx_sync/audio_sync.py:174-186 | No two different accepted pairs share a video or an audio |
| AudioSync.AcceptedGreedyChoice | fcpx_sync/audio_sync.py:167-186 | In the sorted order the scan visits, each pair at or above the threshold is accepted unless an earlier accepted pair shares its video or audio, and no two accepted pairs share either, which fixes the accepted set among distinct pairs |
| AudioSync.Accepted | fcpx_sync/audio_sync.py:167-186 | The accepted pairs are a partial injection of real pairs, all at or above the threshold |
| AudioSync.AcceptedGreedy | fcpx_sync/audio_sync.py:167-186 | The accepted pairs are in descending confidence, and every other pair was blocked or below the threshold |
| AudioSync.CoveredReordered | fcpx_sync/audio_sync.py:168 | Sorting only reorders the pairs, so what holds of every sorted pair holds of every generated pair |
| AudioSync.Matches | fcpx_sync/audio_sync.py:179-184 | Each match names the pair's video and audio file, and its offset is `offset_samples / sample_rate` |
| AudioSync.MatchByAudio | fcpx_sync/audio_sync.py:96-189 | The matches are a permutation of the accepted pairs' matches, sorted by video name; a zero sample rate raises only when some pair is accepted |
| SyncEngine.PeakLag | fcpx_sync/sync_engine.py:118-123 | The full-mode lag lies in `[-(len(ext)-1), len(video)-1]` and indexes the first peak of greatest magnitude |
| SyncEngine.FindSyncOffset | fcpx_sync/sync_engine.py:89-128 | A silent signal (deviation below 1e-10) gives exactly (0, 0.0); otherwise the offset is the lag over 8000 (exact, see Left out) and the score is the peak magnitude; an empty non-silent signal is an error |
| SyncEngine.PulseOffset | fcpx_sync/sync_engine.py:100-129 | Two copies of the signal 1, -1 (standard deviation 1), whose normalised full correlation is -0.5, 1.0, -0.5, give offset 0 and score 1.0 |
| SyncEngine.Loaded | fcpx_sync/sync_engine.py:159-176 | The files that loaded, once each: a file whose extraction failed takes part in no comparison |
| SyncEngine.Row | fcpx_sync/sync_engine.py:187-189 | One video compared against every loaded audio, in order |
| SyncEngine.Pick | fcpx_sync/sync_engine.py:183-194 | Starting from -1.0 with strict `>`, the best is the first audio with the greatest score; none when no score exceeds -1.0 |
| SyncEngine.ComparedVideoHasBest | fcpx_sync/sync_engine.py:183-194 | Once at least one audio was compared a best audio exists, because every score is non-negative |
| SyncEngine.Choose | fcpx_sync/sync_engine.py:196-197 | A video is kept exactly when a best audio exists and its score is at least 0.1, with that audio's offset and score |
| SyncEngine.BestMatches | fcpx_sync/sync_engine.py:180-197 | Every kept match is at or above the threshold, between input files, with at most one match per distinct video |
| SyncEngine.VideoChoice | fcpx_sync/sync_engine.py:181-197 | A video's own decision: when it keeps a choice, its comparison row was computed and the choice names that video, one of the audios, and a score of at least 0.1 |
| SyncEngine.BestMatchesPrefix | fcpx_sync/sync_engine.py:181-189 | When the table of all videos is built, so is the table of all videos but the last |
| SyncEngine.BestMatchesSnoc | fcpx_sync/sync_engine.py:181-197 | A built table is the table of all videos but the last, plus the last video's own decision if it kept one |
| SyncEngine.BestMatchesPerVideo | fcpx_sync/sync_engine.py:180-197 | A choice is in the table exactly when some video, compared by itself against every audio, decides on it; no choice depends on other videos |
| SyncEngine.BestMatchesSucceeds | fcpx_sync/sync_engine.py:181-189 | The table is built whenever every video's comparison row is |
| SyncEngine.AudioServesSeveralVideos | fcpx_sync/sync_engine.py:180-197 | No audio is used up: two videos that each decide on a choice both keep it, whatever audio it names |
| SyncEngine.PulseChoice | fcpx_sync/sync_engine.py:183-197 | When every file holds the two-sample signal 1, -1 (standard deviation 1) and the one audio scores 1.0 at lag 0, any video keeps that audio at offset 0 |
| SyncEngine.PulseVideosShareAudio | fcpx_sync/sync_engine.py:180-197 | Two different videos can both be matched to the same single audio file |
| SyncEngine.MatchFiles | fcpx_sync/sync_engine.py:131-216 | The result is a permutation of the kept best matches of the loaded files, with their probed durations, sorted by video name |
| SyncEngine.MatchesComeFromInputs | fcpx_sync/sync_engine.py:196-211 | Every result pairs an input video with an input audio at score 0.1 or above, carrying both files' durations |
| SyncEngine.OneMatchPerVideo | fcpx_sync/sync_engine.py:180-214 | No video appears in two results |
| SyncEngine.TraceLength | fcpx_sync/sync_engine.py:150-188 | The reported steps number the files, plus one warning per failed load, plus one comparison per loaded video–audio pair |
| SyncEngine.AllLoaded | fcpx_sync/sync_engine.py:159-176 | When every one of a list of distinct files loads, all of them are kept and no load warning is reported |
| SyncEngine.TraceMatchesTotal | fcpx_sync/sync_engine.py:150-188 | With distinct files and no load failure the step count is exactly `V + A + V*A` |
| SyncEngine.TraceCanExceedTotal | fcpx_sync/sync_engine.py:160-167 | A single failed video reports two steps against a total of one |
| Cli.KindOf | fcpx_sync/cli.py:21-27 | A directory entry is a video exactly when it is a file whose lower-cased suffix is a video extension, an audio file exactly when the suffix is an audio extension; non-files are neither |
| Cli.Classify | fcpx_sync/cli.py:20-27 | The scanning loop's two lists are exactly the video entries and exactly the audio entries of the listing (`Select` of each kind), in listing order |
| Cli.FindMediaFilesMembers | fcpx_sync/cli.py:15-29 | A path is in the video (audio) list if and only if the listing has a file entry for it of video (audio) kind |
| Cli.SelectSorted | fcpx_sync/cli.py:20-27 | Keeping the entries of one kind from a listing sorted by name leaves them sorted by name |
| Cli.FindMediaFilesSorted | fcpx_sync/cli.py:20 | Both lists are sorted by file name |
| Cli.NoFileInBoth | fcpx_sync/cli.py:24-27 | In a listing of distinct paths no file lands in both lists |
| Cli.ExtensionIgnoresCase | fcpx_sync/cli.py:23-26 | A file `base.ext` is classified by the lower-cased `.ext` alone |
| Cli.UpperCaseMovIsVideo | fcpx_sync/cli.py:23-25 | `A001.MOV` is a video file |
| Cli.Scan | fcpx_sync/cli.py:15-29 | A listable folder yields `find_media_files` of its listing; an unlistable one is reported |
| Cli.Sources | fcpx_sync/cli.py:87-95 | Without separate folders both lists come from the main folder; with them, videos come from the video folder (or main) and audios from the audio folder (or main), the scan succeeds exactly when both folders can be listed, and a failed scan names the video folder when that one cannot be listed and the audio folder otherwise |
| Cli.Run | fcpx_sync/cli.py:81-144 | The run stops with "not a directory" exactly when the resolved folder is not a directory; it reports an unlistable folder exactly when the folder is a directory and the scan fails, naming the folder the scan names; it writes exactly when the scan found videos and audios, `match_files` returned a non-empty list and `generate_fcpxml` succeeded on it; a written run writes all of `match_files`' matches on the scanned lists to `-o` or `<folder>/synced.fcpxml`, and its text is the document generated from them |
| Cli.Conclude | fcpx_sync/cli.py:119-143 | After the scan a run finds no matches exactly when `match_files` returns an empty list, and raises exactly when `match_files` raises or `generate_fcpxml` raises on a non-empty list; it writes exactly when `match_files` returns a non-empty list and `generate_fcpxml` succeeds on it; a written run carries `match_files`' non-empty result and the generated text, to `-o` or `<folder>/synced.fcpxml` |
| Cli.ChecksInOrder | fcpx_sync/cli.py:97-102 | "No video files" exactly when the directory scanned to no videos; "No audio files" exactly when there were videos but no audios |
| Cli.LastChecksInOrder | fcpx_sync/cli.py:97-140 | "No sync matches" exactly when the scanned directory had videos and audios and `match_files` returned nothing; the run raises exactly when, after such a scan, `match_files` raises or `generate_fcpxml` raises on its non-empty result |
| Cli.WrittenPairsFoundFiles | fcpx_sync/cli.py:87-144 | Every written pair joins a found video and a found audio at score 0.1 or above, each video once, and the text starts with the declaration and doctype |
| Cli.SingleFolderUsesMainFolder | fcpx_sync/cli.py:93-95 | In single-folder mode every matched video is a video file of the main folder's listing |
| Text.IntStringRoundTrip | fcpx_sync/fcpxml.py:54 | `int(str(n)) == n` for every integer |
| Text.LexLessStrictOrder | fcpx_sync/cli.py:20 | Python's string comparison is a strict order, so sorting by name is well defined |
| Text.Split | fcpx_sync/fcpxml.py:53 | `str.split` gives at least one piece, none containing the separator, and joining them gives the text back |
| Paths.StemSuffixSplit | fcpx_sync/cli.py:23 | `stem + suffix` is the file name, and a file with a suffix has a non-empty stem |
| Paths.SuffixOfExtension | fcpx_sync/cli.py:23 | The suffix of `base.ext` is `.ext` and its stem is `base` |
| Sequences.SortStable | fcpx_sync/sync_engine.py:214 | Sorting by a key keeps elements with equal keys in their original order |

## Left out

- ffmpeg/ffprobe subprocesses are function parameters rather than models: `extract_audio_from_video`, `load_audio_file`, `get_media_duration`, `get_media_info`, `_extract_audio_pcm`. Their time-outs and error texts are not modelled.
- FcpxmlResources.Tools: `probe` (`get_media_info`) is a total function, so the model never fails to probe. In the source, a failing ffprobe or output that is not JSON raises out of `generate_fcpxml` (`fcpx_sync/sync_engine.py:75-86`, called at `fcpx_sync/fcpxml.py:106`, `:150` and `:210`). The model keeps only the failures that come from reading the returned report.
- SyncEngine.Media: `duration` (`get_media_duration`) is a total function, so the model never fails to read a duration. In the source, a failing ffprobe or text that is not a float raises out of `match_files` (`fcpx_sync/sync_engine.py:64-73`, called at `:201-202`). `extract` and `load` return `None` for every failure, so the model skips such a file; the source catches only `subprocess.CalledProcessError` there (`fcpx_sync/sync_engine.py:165`, `:174`), and any other error, such as `FileNotFoundError` when ffmpeg is missing, propagates out of `match_files`.
- numpy/scipy numerics are abstract functions: FFT, mean and deviation, and full-mode correlation. Scores are uninterpreted reals, so NaN and float rounding do not arise.
- Correlation.CrossCorrelate: the normalisation divides by the energy product exactly, not in float32.
- `_make_asset_id` (md5 of the resolved path) and `_file_url` (URL quoting) are abstract functions of the path.
- ElementTree indentation and serialisation are one abstract function from the tree to text.
- The format name of a fractional frame rate (`fcpx_sync/fcpxml.py:122`) is kept symbolic as `Xml.RateName`, because it relies on Python's float formatting.
- FcpxmlResources.FrameDuration: `fps_den / fps_num` is a float division in the source, so its `limit_denominator` sees the nearest double. The model divides exactly.
- Timing.DurationRational: `Fraction(seconds)` of the float duration is modelled as the exact rational the duration stands for.
- SyncEngine.FindSyncOffset: `lag_samples / ANALYSIS_SR` (`fcpx_sync/sync_engine.py:128`) is a float division, and the model keeps the exact quotient lag/8000. So a match's `offsetSeconds` is the rational the source's float approximates, not that float. Where the document is written, `limit_denominator(100000)` (`fcpx_sync/fcpxml.py:22`) maps the double back to lag/8000 whenever the offset is below about 5·10^6 seconds.
- AudioSync.Matches: `offset_samples / sample_rate` (`fcpx_sync/audio_sync.py:179`) is a float division, and the model keeps the exact quotient. `Fraction` of the source's value is the nearest double to it. For a sample rate of at most 100000, `limit_denominator(100000)` maps that double back to the exact quotient whenever the offset is below about 4.5·10^10 / sample_rate seconds.
- The `overlap_duration` computation (`fcpx_sync/fcpxml.py:203-208`) is dead code with no effect on the document.
- `Fcpxml.Generate` keeps the source's reuse of `asset_map` entries: a file met first as an audio keeps that entry (id, format, duration) when it later appears as a video, and the reverse. The model follows the code.
- `audio_sync.py` imports a `MediaFile` that `sync_engine.py` does not define, and builds `SyncMatch(video=, audio=, offset_seconds=)`, which does not fit the dataclass. The model gives that path its own records, `AudioSync.MediaFile(path, hasAudio)` and `AudioSync.AudioMatch(video, audio, offsetSeconds)`.
- SyncEngine.BestMatches: its own contract states only the threshold, the inputs and distinctness; the video order of the table is stated by `BestMatchesSnoc` and `BestMatchesPerVideo`, and `MatchFiles` re-sorts by name anyway. An audio may be chosen for several videos; `AudioServesSeveralVideos` and `PulseVideosShareAudio` state it.
- Python's `sorted(folder.iterdir())` compares whole paths. The model compares file names, which orders the same way within one folder.
- Text.Lower: lower-cases ASCII letters only. Python's `str.lower()` also folds non-ASCII letters, for example U+212A KELVIN SIGN to `k`, so a suffix such as `.M\u212AV` counts as a video in the source but is unclassified in the model. `int()` of text with surrounding whitespace or underscores is treated as an error. Text.ParseInt accepts ASCII digits only, while Python's `int()` also accepts other Unicode decimal digits, so a sample rate written `"٤٨٠٠٠"` (Arabic-Indic 48000) parses in the source and is an error in the model.
- Rationals.LimitDenominator: proves the bound, exactness for fitting inputs, and the sign. It does not prove that the result is the closest fraction within the bound, though the loop and final choice follow CPython's algorithm.
- `print_progress`, the `--quiet` flag, the summary and result printing, `argparse` itself, and writing the file are left out; `Cli.Run` returns the path and text to write.
- All UI (`app.py`, `webview_app.py`, `gui.py`) and icon drawing are not part of this model.
