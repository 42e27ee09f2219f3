/** The command-line entry point: scanning folders for media files by
    extension, and the sequence of checks that ends either in an error exit
    or in writing the FCPXML document. The file system is a parameter. */
module Cli {
  import opened Wrappers
  import opened Sequences
  import opened Text
  import opened Paths
  import opened SyncEngine
  import opened FcpxmlResources
  import opened Fcpxml

  /** Extensions recognised as video, compared after lower-casing. */
  const VideoExtensions: set<string> := {".mov", ".mp4", ".m4v", ".mxf", ".avi", ".mkv"}

  /** Extensions recognised as audio, compared after lower-casing. */
  const AudioExtensions: set<string> := {".wav", ".aif", ".aiff", ".mp3", ".m4a", ".flac", ".bwf"}

  /** The name of the output file when no output path is given. */
  const DefaultOutputName: string := "synced.fcpxml"

  /** One entry of a directory listing: its path and whether it is a regular
      file. */
  datatype Entry = Entry(path: Path, isFile: bool)

  datatype Kind = VideoFile | AudioFile | Other

  /** How the scan treats an entry: directories and other non-files are
      skipped, and a file is video or audio by its lower-cased suffix, video
      being tried first. */
  function KindOf(e: Entry): (k: Kind)
    ensures k != Other ==> e.isFile
    ensures k == VideoFile <==> e.isFile && Lower(Suffix(e.path.name)) in VideoExtensions
    ensures k == AudioFile <==> e.isFile && Lower(Suffix(e.path.name)) in AudioExtensions
  {
    if !e.isFile then Other
    else
      var ext := Lower(Suffix(e.path.name));
      if ext in VideoExtensions then VideoFile
      else if ext in AudioExtensions then AudioFile
      else Other
  }

  function EntryName(e: Entry): string { e.path.name }

  function PathName(p: Path): string { p.name }

  // ---------------------------------------------------------------------------
  // The scan against an independent description
  // ---------------------------------------------------------------------------

  /** The paths of the entries of kind `k`, in order: the description the
      scanning loop is checked against. */
  function Select(es: seq<Entry>, k: Kind): seq<Path> {
    if |es| == 0 then [] else (if KindOf(es[0]) == k then [es[0].path] else []) + Select(es[1..], k)
  }

  lemma {:induction false} SelectSnoc(es: seq<Entry>, e: Entry, k: Kind)
    ensures Select(es + [e], k) == Select(es, k) + (if KindOf(e) == k then [e.path] else [])
  {
    if |es| == 0 {
      assert [e][1..] == [];
    } else {
      assert (es + [e])[0] == es[0];
      assert (es + [e])[1..] == es[1..] + [e];
      SelectSnoc(es[1..], e, k);
    }
  }

  /** `Select` of a non-empty listing: that of all but the last entry, then
      the last entry if it has the kind. */
  lemma SelectLast(es: seq<Entry>, k: Kind)
    requires |es| > 0
    ensures Select(es, k) == Select(es[..|es| - 1], k) + (if KindOf(es[|es| - 1]) == k then [es[|es| - 1].path] else [])
  {
    assert es == es[..|es| - 1] + [es[|es| - 1]];
    SelectSnoc(es[..|es| - 1], es[|es| - 1], k);
  }

  /** The scanning loop over an already sorted listing: each entry is appended
      to the list of its kind, so the loop keeps exactly the videos and
      exactly the audio files, each in listing order. */
  function Classify(es: seq<Entry>): (r: (seq<Path>, seq<Path>))
    ensures r == (Select(es, VideoFile), Select(es, AudioFile))
    ensures |r.0| + |r.1| <= |es|
  {
    if |es| == 0 then ([], [])
    else
      var before := Classify(es[..|es| - 1]);
      var e := es[|es| - 1];
      SelectLast(es, VideoFile);
      SelectLast(es, AudioFile);
      (before.0 + (if KindOf(e) == VideoFile then [e.path] else []),
       before.1 + (if KindOf(e) == AudioFile then [e.path] else []))
  }

  /** `find_media_files(folder)` on the folder's listing: the entries sorted
      by name, then split into videos and audio files. Within one folder
      comparing paths is comparing their names. */
  function FindMediaFiles(listing: seq<Entry>): (r: (seq<Path>, seq<Path>))
    ensures |r.0| + |r.1| <= |listing|
  {
    LexLessStrictOrder();
    var sorted := SortBy(listing, EntryName, LexLess);
    assert |sorted| == |multiset(sorted)| == |multiset(listing)| == |listing|;
    Classify(sorted)
  }

  lemma {:induction false} SelectMembership(es: seq<Entry>, k: Kind, p: Path)
    ensures p in Select(es, k) <==> exists i :: 0 <= i < |es| && es[i].path == p && KindOf(es[i]) == k
  {
    if |es| > 0 {
      SelectMembership(es[1..], k, p);
      if exists i :: 0 <= i < |es| && es[i].path == p && KindOf(es[i]) == k {
        var i :| 0 <= i < |es| && es[i].path == p && KindOf(es[i]) == k;
        if i > 0 {
          assert es[1..][i - 1] == es[i];
        }
      }
      if exists i :: 0 <= i < |es[1..]| && es[1..][i].path == p && KindOf(es[1..][i]) == k {
        var i :| 0 <= i < |es[1..]| && es[1..][i].path == p && KindOf(es[1..][i]) == k;
        assert es[i + 1] == es[1..][i];
      }
    }
  }

  lemma {:induction false} SelectSorted(es: seq<Entry>, k: Kind)
    requires StrictOrder(LexLess) && SortedBy(es, EntryName, LexLess)
    ensures SortedBy(Select(es, k), PathName, LexLess)
  {
    if |es| > 0 {
      var rest := Select(es[1..], k);
      SortedTail(es, EntryName, LexLess);
      SelectSorted(es[1..], k);
      if KindOf(es[0]) == k {
        forall p | p in rest
          ensures !LexLess(PathName(p), PathName(es[0].path))
        {
          SelectAfterHead(es, k, p);
        }
        SortedCons(es[0].path, rest, PathName, LexLess);
      }
    }
  }

  /** A path kept from the tail of a sorted listing does not sort before the
      listing's first entry. */
  lemma SelectAfterHead(es: seq<Entry>, k: Kind, p: Path)
    requires SortedBy(es, EntryName, LexLess) && |es| > 0
    requires p in Select(es[1..], k)
    ensures !LexLess(PathName(p), PathName(es[0].path))
  {
    SelectMembership(es[1..], k, p);
    var n :| 0 <= n < |es[1..]| && es[1..][n].path == p && KindOf(es[1..][n]) == k;
    assert es[n + 1] == es[1..][n];
  }

  lemma SortedKeepsEntries(listing: seq<Entry>, e: Entry)
    requires StrictOrder(LexLess)
    ensures e in SortBy(listing, EntryName, LexLess) <==> e in listing
  {
    var sorted := SortBy(listing, EntryName, LexLess);
    assert e in sorted <==> e in multiset(sorted);
    assert e in listing <==> e in multiset(listing);
  }

  /** A path is among the videos found iff the listing has it as a file with
      a video extension, and likewise for audio files. */
  lemma FindMediaFilesMembers(listing: seq<Entry>, p: Path)
    ensures p in FindMediaFiles(listing).0 <==> exists e :: e in listing && e.path == p && KindOf(e) == VideoFile
    ensures p in FindMediaFiles(listing).1 <==> exists e :: e in listing && e.path == p && KindOf(e) == AudioFile
  {
    LexLessStrictOrder();
    var sorted := SortBy(listing, EntryName, LexLess);
    SelectMembership(sorted, VideoFile, p);
    SelectMembership(sorted, AudioFile, p);
    forall e | e in listing
      ensures e in sorted
    {
      SortedKeepsEntries(listing, e);
    }
    forall e | e in sorted
      ensures e in listing
    {
      SortedKeepsEntries(listing, e);
    }
  }

  /** Both lists come out in name order. */
  lemma FindMediaFilesSorted(listing: seq<Entry>)
    ensures SortedBy(FindMediaFiles(listing).0, PathName, LexLess)
    ensures SortedBy(FindMediaFiles(listing).1, PathName, LexLess)
  {
    LexLessStrictOrder();
    var sorted := SortBy(listing, EntryName, LexLess);
    SelectSorted(sorted, VideoFile);
    SelectSorted(sorted, AudioFile);
  }

  /** In a listing where every path occurs once, no file is taken both as
      video and as audio. */
  lemma NoFileInBoth(listing: seq<Entry>, p: Path)
    requires forall i, j :: 0 <= i < j < |listing| ==> listing[i].path != listing[j].path
    ensures !(p in FindMediaFiles(listing).0 && p in FindMediaFiles(listing).1)
  {
    FindMediaFilesMembers(listing, p);
  }

  /** The extension test ignores case: a file `base.ext` is classified by the
      lower-cased `.ext`. */
  lemma ExtensionIgnoresCase(dir: string, base: string, ext: string)
    requires |base| > 0 && |ext| > 0 && '.' !in ext
    ensures var k := KindOf(Entry(Path(dir, base + "." + ext), true));
      && (k == VideoFile <==> Lower("." + ext) in VideoExtensions)
      && (k == AudioFile <==> Lower("." + ext) in AudioExtensions)
  {
    SuffixOfExtension(base, ext);
  }

  /** A camera file named in capitals, `A001.MOV`, counts as a video. */
  lemma UpperCaseMovIsVideo(dir: string)
    ensures KindOf(Entry(Path(dir, "A001.MOV"), true)) == VideoFile
  {
    SuffixOfExtension("A001", "MOV");
    assert "A001" + "." + "MOV" == "A001.MOV";
    assert Suffix("A001.MOV") == ".MOV";
    var low := Lower(".MOV");
    assert low[0] == '.' && low[1] == 'm' && low[2] == 'o' && low[3] == 'v';
    assert low == ".mov";
    assert low in VideoExtensions;
  }

  // ---------------------------------------------------------------------------
  // The command
  // ---------------------------------------------------------------------------

  /** The file system as the command sees it: path resolution, the directory
      test, and a folder's listing (`None` where listing it raises). */
  datatype FileSystem = FileSystem(
    resolve: Path -> Path,
    isDir: Path -> bool,
    listing: Path -> Option<seq<Entry>>)

  /** The parsed command line: the folder, `--output`, `--event-name`,
      `--video-folder` and `--audio-folder`. */
  datatype Options = Options(
    folder: Path,
    output: Option<Path>,
    eventName: string,
    videoFolder: Option<Path>,
    audioFolder: Option<Path>)

  /** How a run ends: one of the four reported errors (exit status 1), an
      exception escaping from listing, matching or generating, or the
      document written to a file (exit status 0). */
  datatype Outcome =
    | NotADirectory(folder: Path)
    | NoVideos
    | NoAudios
    | NoMatches
    | Unlistable(folder: Path)
    | Raised(error: Error)
    | Written(output: Path, matches: seq<SyncMatch>, text: string)

  function ExitStatus(o: Outcome): int {
    if o.Written? then 0 else 1
  }

  /** `dir / name`. */
  function Child(dir: Path, name: string): Path {
    Path(dir.parent + "/" + dir.name, name)
  }

  /** The media files of one folder, or the folder that could not be listed. */
  datatype Scanned = Found(videos: seq<Path>, audios: seq<Path>) | Unreadable(folder: Path)


  function Scan(fs: FileSystem, dir: Path): (r: Scanned)
    ensures r.Found? <==> fs.listing(dir).Some?
    ensures r.Found? ==> (r.videos, r.audios) == FindMediaFiles(fs.listing(dir).value)
    ensures r.Unreadable? ==> r.folder == dir
  {
    match fs.listing(dir)
    case None => Unreadable(dir)
    case Some(es) =>
      var (videos, audios) := FindMediaFiles(es);
      Found(videos, audios)
  }

  /** The files to match. With either separate folder given, the videos come
      from the video folder and the audio files from the audio folder, each
      defaulting to the main folder; otherwise both come from the main folder. */
  function Sources(o: Options, fs: FileSystem, main: Path): (r: Scanned)
    ensures o.videoFolder.None? && o.audioFolder.None? ==> r == Scan(fs, main)
    ensures (o.videoFolder.Some? || o.audioFolder.Some?) && r.Found? ==>
      var v := fs.resolve(if o.videoFolder.Some? then o.videoFolder.value else main);
      var a := fs.resolve(if o.audioFolder.Some? then o.audioFolder.value else main);
      && fs.listing(v).Some? && fs.listing(a).Some?
      && r.videos == FindMediaFiles(fs.listing(v).value).0
      && r.audios == FindMediaFiles(fs.listing(a).value).1
    ensures o.videoFolder.Some? || o.audioFolder.Some? ==>
      var v := fs.resolve(if o.videoFolder.Some? then o.videoFolder.value else main);
      var a := fs.resolve(if o.audioFolder.Some? then o.audioFolder.value else main);
      && (r.Found? <==> fs.listing(v).Some? && fs.listing(a).Some?)
      && (r.Unreadable? ==> r.folder == if fs.listing(v).None? then v else a)
  {
    if o.videoFolder.Some? || o.audioFolder.Some? then
      var v := fs.resolve(if o.videoFolder.Some? then o.videoFolder.value else main);
      var a := fs.resolve(if o.audioFolder.Some? then o.audioFolder.value else main);
      match Scan(fs, v)
      case Unreadable(d) => Unreadable(d)
      case Found(videos, _) =>
        match Scan(fs, a)
        case Unreadable(d) => Unreadable(d)
        case Found(_, audios) => Found(videos, audios)
    else Scan(fs, main)
  }

  /** `main()` after argument parsing: the directory check, the scan, the
      empty-list checks, matching, the empty-result check, and generation;
      the document goes to `--output` or to `synced.fcpxml` in the folder. */
  function Run(o: Options, fs: FileSystem, m: Media, tools: Tools): (r: Outcome)
    requires WellFormed(m)
    ensures r.NotADirectory? <==> !fs.isDir(fs.resolve(o.folder))
    ensures var main := fs.resolve(o.folder);
      && (r.Unlistable? <==> fs.isDir(main) && Sources(o, fs, main).Unreadable?)
      && (r.Unlistable? ==> r.folder == Sources(o, fs, main).folder)
    ensures var main := fs.resolve(o.folder);
      var src := Sources(o, fs, main);
      r.Written? <==>
        && fs.isDir(main) && src.Found? && |src.videos| > 0 && |src.audios| > 0
        && MatchFiles(src.videos, src.audios, m).Success? && |MatchFiles(src.videos, src.audios, m).value| > 0
        && GenerateText(MatchFiles(src.videos, src.audios, m).value, o.eventName, tools).Success?
    ensures var src := Sources(o, fs, fs.resolve(o.folder));
      r.Written? ==>
      && r.output == (if o.output.Some? then o.output.value else Child(fs.resolve(o.folder), DefaultOutputName))
      && src.Found? && MatchFiles(src.videos, src.audios, m).Success?
      && r.matches == MatchFiles(src.videos, src.audios, m).value
      && |r.matches| > 0
      && GenerateText(r.matches, o.eventName, tools) == Success(r.text)
  {
    var main := fs.resolve(o.folder);
    if !fs.isDir(main) then NotADirectory(main)
    else
      match Sources(o, fs, main)
      case Unreadable(d) => Unlistable(d)
      case Found(videos, audios) =>
        if |videos| == 0 then NoVideos
        else if |audios| == 0 then NoAudios
        else Conclude(o, main, videos, audios, m, tools)
  }

  /** What follows the scan: matching, the empty-result check, and
      generation. It ends in an exception, in no matches, or in the written
      document. */
  function Conclude(o: Options, main: Path, videos: seq<Path>, audios: seq<Path>, m: Media, tools: Tools): (r: Outcome)
    requires WellFormed(m)
    ensures r.Raised? || r.NoMatches? || r.Written?
    ensures r.NoMatches? <==> MatchFiles(videos, audios, m) == Success([])
    ensures r.Raised? <==>
      || MatchFiles(videos, audios, m).Failure?
      || (|MatchFiles(videos, audios, m).value| > 0
          && GenerateText(MatchFiles(videos, audios, m).value, o.eventName, tools).Failure?)
    ensures r.Written? <==>
      && MatchFiles(videos, audios, m).Success? && |MatchFiles(videos, audios, m).value| > 0
      && GenerateText(MatchFiles(videos, audios, m).value, o.eventName, tools).Success?
    ensures r.Written? ==>
      && MatchFiles(videos, audios, m).Success? && r.matches == MatchFiles(videos, audios, m).value
      && r.output == (if o.output.Some? then o.output.value else Child(main, DefaultOutputName))
      && |r.matches| > 0
      && GenerateText(r.matches, o.eventName, tools) == Success(r.text)
  {
    match MatchFiles(videos, audios, m)
    case Failure(e) => Raised(e)
    case Success(matches) =>
      if |matches| == 0 then NoMatches
      else
        match GenerateText(matches, o.eventName, tools)
        case Failure(e) => Raised(e)
        case Success(text) =>
          var output := if o.output.Some? then o.output.value else Child(main, DefaultOutputName);
          Written(output, matches, text)
  }

  // ---------------------------------------------------------------------------
  // Properties of a run
  // ---------------------------------------------------------------------------

  /** The checks come in order: no videos is reported only when the folder
      exists and none were found, no audio only when videos were found. */
  lemma ChecksInOrder(o: Options, fs: FileSystem, m: Media, tools: Tools)
    requires WellFormed(m)
    ensures var r := Run(o, fs, m, tools);
      var src := Sources(o, fs, fs.resolve(o.folder));
      && (r.NoVideos? <==> fs.isDir(fs.resolve(o.folder)) && src.Found? && |src.videos| == 0)
      && (r.NoAudios? <==> fs.isDir(fs.resolve(o.folder)) && src.Found? && |src.videos| > 0 && |src.audios| == 0)
  {
  }

  /** The last two checks: no matches is reported exactly when both lists
      are non-empty and matching returned nothing, and an exception escapes
      exactly when matching or generation raised. */
  lemma LastChecksInOrder(o: Options, fs: FileSystem, m: Media, tools: Tools)
    requires WellFormed(m)
    ensures var r := Run(o, fs, m, tools);
      var src := Sources(o, fs, fs.resolve(o.folder));
      var scanned := fs.isDir(fs.resolve(o.folder)) && src.Found? && |src.videos| > 0 && |src.audios| > 0;
      && (r.NoMatches? <==> scanned && MatchFiles(src.videos, src.audios, m) == Success([]))
      && (r.Raised? <==>
            && scanned
            && (|| MatchFiles(src.videos, src.audios, m).Failure?
                || (|MatchFiles(src.videos, src.audios, m).value| > 0
                    && GenerateText(MatchFiles(src.videos, src.audios, m).value, o.eventName, tools).Failure?)))
  {
  }

  /** A written document pairs found files only: each match is a found video
      with a found audio file, no video appears twice, and the text is a
      complete FCPXML document. */
  lemma WrittenPairsFoundFiles(o: Options, fs: FileSystem, m: Media, tools: Tools, i: int)
    requires WellFormed(m) && Run(o, fs, m, tools).Written?
    requires 0 <= i < |Run(o, fs, m, tools).matches|
    ensures var r := Run(o, fs, m, tools);
      var src := Sources(o, fs, fs.resolve(o.folder));
      && src.Found?
      && r.matches[i].videoPath in src.videos
      && r.matches[i].audioPath in src.audios
      && r.matches[i].correlationScore >= MinCorrelation
      && (forall j :: 0 <= j < |r.matches| && j != i ==> r.matches[j].videoPath != r.matches[i].videoPath)
      && r.text[..|Header| + |Doctype|] == Header + Doctype
  {
    var src := Sources(o, fs, fs.resolve(o.folder));
    var r := Run(o, fs, m, tools);
    assert r.matches == MatchFiles(src.videos, src.audios, m).value;
    MatchesComeFromInputs(src.videos, src.audios, m, i);
    OneMatchPerVideo(src.videos, src.audios, m);
  }

  /** In single-folder mode a written run used the main folder's videos and
      audio files. */
  lemma SingleFolderUsesMainFolder(o: Options, fs: FileSystem, m: Media, tools: Tools, i: int)
    requires WellFormed(m) && o.videoFolder.None? && o.audioFolder.None?
    requires Run(o, fs, m, tools).Written? && 0 <= i < |Run(o, fs, m, tools).matches|
    ensures var main := fs.resolve(o.folder);
      var x := Run(o, fs, m, tools).matches[i];
      && fs.listing(main).Some?
      && exists e :: e in fs.listing(main).value && e.path == x.videoPath && KindOf(e) == VideoFile
  {
    var main := fs.resolve(o.folder);
    var x := Run(o, fs, m, tools).matches[i];
    WrittenPairsFoundFiles(o, fs, m, tools, i);
    FindMediaFilesMembers(fs.listing(main).value, x.videoPath);
  }
}
