/**
 * The manifest data model (video_clipper.py:38-117): clips as values, and the
 * two objects whose dictionaries the program changes in place, `VideoFile`
 * and `Manifest` (VideoClipperManifest). `ManifestView` is the value a
 * manifest object stands for; serialisation and the clip-declaration
 * specification are functions on it.
 */
module Manifests {
  import opened Dicts
  import opened Documents
  import opened Naming

  /** The checksum a clip has before it was ever produced. */
  const NO_CHECKSUM: string := "none"

  datatype VideoClip = VideoClip(filename: string, startTimestamp: string, endTimestamp: string, checksum: string)

  /** A video file's state: its name relative to the input directory and its clips by file name. */
  datatype VideoEntry = VideoEntry(filename: string, clips: Dict<VideoClip>)

  datatype ManifestView = ManifestView(version: Json, videos: Dict<VideoEntry>)

  /** What every manifest the program builds satisfies: dict invariants, and each entry stores its own key. */
  ghost predicate EntryValid(entry: VideoEntry)
  {
    Dicts.Valid(entry.clips) && forall c :: c in entry.clips.items ==> entry.clips.items[c].filename == c
  }

  ghost predicate ViewValid(view: ManifestView)
  {
    && Dicts.Valid(view.videos)
    && forall v :: v in view.videos.items ==>
         view.videos.items[v].filename == v && EntryValid(view.videos.items[v])
  }

  // ---------------------------------------------------------------------
  // Serialisation: the `to_json` methods (video_clipper.py:45-50, 61-66, 100-107)

  function ClipToJson(clip: VideoClip): Json
  {
    JObject([(KEY_START, JString(clip.startTimestamp)),
             (KEY_END, JString(clip.endTimestamp)),
             (KEY_SHA256_CHECKSUM, JString(clip.checksum))])
  }

  /** `{clip.filename: clip.to_json() for clip in clips.values()}`, in the dict's order. */
  function ClipMembers(clips: Dict<VideoClip>): (members: seq<(string, Json)>)
    requires Dicts.Valid(clips)
    ensures |members| == |clips.keys|
  {
    seq(|clips.keys|, i requires 0 <= i < |clips.keys| =>
      (clips.items[clips.keys[i]].filename, ClipToJson(clips.items[clips.keys[i]])))
  }

  function VideoToJson(entry: VideoEntry): Json
    requires Dicts.Valid(entry.clips)
  {
    JObject([(KEY_CLIPS, JObject(ClipMembers(entry.clips)))])
  }

  /** `{video.filename: video.to_json() for video in video_files.values()}`, in the dict's order. */
  function VideoMembers(videos: Dict<VideoEntry>): (members: seq<(string, Json)>)
    requires Dicts.Valid(videos)
    requires forall v :: v in videos.items ==> Dicts.Valid(videos.items[v].clips)
    ensures |members| == |videos.keys|
  {
    seq(|videos.keys|, i requires 0 <= i < |videos.keys| =>
      (videos.items[videos.keys[i]].filename, VideoToJson(videos.items[videos.keys[i]])))
  }

  function ManifestToJson(view: ManifestView): Json
    requires ViewValid(view)
  {
    JObject([(KEY_VERSION, view.version), (KEY_VIDEOS, JObject(VideoMembers(view.videos)))])
  }

  // ---------------------------------------------------------------------
  // Declaring a clip (video_clipper.py:71-92, 109-117)

  /** Some clip of the dict already spans exactly `begin` to `end` (the duplicate test, string equality). */
  predicate HasSpan(clips: Dict<VideoClip>, begin: string, end: string)
  {
    exists c :: c in clips.items && clips.items[c].startTimestamp == begin && clips.items[c].endTimestamp == end
  }

  /** The name the naming loop settles on: the least ordinal whose name is not yet a clip of the entry. */
  function NewClipName(entry: VideoEntry): (name: string)
    ensures name !in entry.clips.items
    ensures exists k: nat :: IsLeastFree(entry.clips.items.Keys, entry.filename, k) && name == ClipName(entry.filename, k)
  {
    var k := LeastFreeOrdinal(entry.clips.items.Keys, entry.filename);
    assert IsLeastFree(entry.clips.items.Keys, entry.filename, k);
    ClipName(entry.filename, k)
  }

  /**
   * `VideoFile.add_new_clip` on values: rejected, with nothing changed, when the
   * span is already declared; otherwise exactly one new clip, under a name not
   * used before, appended after the existing clips, which stay as they were.
   */
  function AddClip(entry: VideoEntry, begin: string, end: string, checksum: string): (r: (bool, VideoEntry))
    ensures EntryValid(entry) ==> EntryValid(r.1)
  {
    if HasSpan(entry.clips, begin, end) then (false, entry)
    else
      var name := NewClipName(entry);
      (true, VideoEntry(entry.filename, Insert(entry.clips, name, VideoClip(name, begin, end, checksum))))
  }

  /** The outcome of AddClip, stated without its naming and insertion steps. */
  lemma AddClipMeaning(entry: VideoEntry, begin: string, end: string, checksum: string)
    ensures var r := AddClip(entry, begin, end, checksum);
      && (r.0 <==> !HasSpan(entry.clips, begin, end))
      && (!r.0 ==> r.1 == entry)
      && (r.0 ==>
        var name := NewClipName(entry);
        && r.1.filename == entry.filename
        && r.1.clips.keys == entry.clips.keys + [name]
        && r.1.clips.items == entry.clips.items[name := VideoClip(name, begin, end, checksum)]
        && |r.1.clips.items| == |entry.clips.items| + 1)
  {
  }

  /** Once a span is declared, declaring it again is rejected; the names of successive clips are distinct. */
  lemma AddClipTwice(entry: VideoEntry, begin: string, end: string, checksum: string, begin2: string, end2: string)
    requires EntryValid(entry) && !HasSpan(entry.clips, begin, end)
    ensures var first := AddClip(entry, begin, end, checksum).1;
      && !AddClip(first, begin, end, checksum).0
      && (AddClip(first, begin2, end2, checksum).0 ==> NewClipName(first) != NewClipName(entry))
  {
    AddClipMeaning(entry, begin, end, checksum);
    var first := AddClip(entry, begin, end, checksum).1;
    var name := NewClipName(entry);
    assert first.clips.items[name].startTimestamp == begin && first.clips.items[name].endTimestamp == end;
    assert name in first.clips.items;
  }

  /** The video's current state, or a fresh empty one when the manifest does not list it yet. */
  function EntryOrEmpty(view: ManifestView, videoFilename: string): VideoEntry
  {
    if videoFilename in view.videos.items then view.videos.items[videoFilename] else VideoEntry(videoFilename, Empty())
  }

  /**
   * `VideoClipperManifest.add_new_clip` on values: creates the video's entry
   * when it is absent (appended last), then declares the clip in it; every
   * other video is left as it was.
   */
  function AddToManifest(view: ManifestView, videoFilename: string, begin: string, end: string, checksum: string)
    : (r: (bool, ManifestView))
    requires ViewValid(view)
    ensures ViewValid(r.1) && r.1.version == view.version
  {
    var entry := EntryOrEmpty(view, videoFilename);
    EntryOrEmptyValid(view, videoFilename);
    var r := AddClip(entry, begin, end, checksum);
    InsertEntryValid(view, videoFilename, r.1);
    (r.0, ManifestView(view.version, Insert(view.videos, videoFilename, r.1)))
  }

  /**
    * Where adding a clip puts the video: it is present afterwards, appended last when it
    * was new, and every other video is unchanged.
    */
  lemma AddToManifestPlacement(view: ManifestView, videoFilename: string, begin: string, end: string, checksum: string)
    requires ViewValid(view)
    ensures var r := AddToManifest(view, videoFilename, begin, end, checksum);
      && r.1.videos.items.Keys == view.videos.items.Keys + {videoFilename}
      && (videoFilename in view.videos.items ==> r.1.videos.keys == view.videos.keys)
      && (videoFilename !in view.videos.items ==> r.1.videos.keys == view.videos.keys + [videoFilename])
      && (forall v :: v in view.videos.items && v != videoFilename ==> r.1.videos.items[v] == view.videos.items[v])
  {
    var entry := AddClip(EntryOrEmpty(view, videoFilename), begin, end, checksum).1;
    assert AddToManifest(view, videoFilename, begin, end, checksum).1.videos == Insert(view.videos, videoFilename, entry);
    InsertPlacement(view.videos, videoFilename, entry);
  }

  /**
    * What adding a clip does to the video's entry: it is the entry AddClip gives, a new
    * video always receives the clip, and a duplicate span leaves the whole manifest as it was.
    */
  lemma AddToManifestEntry(view: ManifestView, videoFilename: string, begin: string, end: string, checksum: string)
    requires ViewValid(view)
    ensures var r := AddToManifest(view, videoFilename, begin, end, checksum);
      && (r.0, r.1.videos.items[videoFilename]) == AddClip(EntryOrEmpty(view, videoFilename), begin, end, checksum)
      && (videoFilename !in view.videos.items ==> r.0)
      && (!r.0 ==> r.1 == view)
  {
    var r := AddToManifest(view, videoFilename, begin, end, checksum);
    if !r.0 {
      assert videoFilename in view.videos.items;
      InsertPresent(view.videos, videoFilename);
    }
  }

  /**
    * Adding a clip to a manifest is adding it to the video's entry and storing that entry
    * under the video's name, whether or not the entry was stored there first.
    */
  lemma AddToManifestInserts(before: ManifestView, mid: ManifestView, videoFilename: string, begin: string, end: string,
                             checksum: string, added: bool, entry: VideoEntry)
    requires ViewValid(before)
    requires mid == ManifestView(before.version, Insert(before.videos, videoFilename, EntryOrEmpty(before, videoFilename)))
    requires (added, entry) == AddClip(EntryOrEmpty(before, videoFilename), begin, end, checksum)
    ensures (added, ManifestView(mid.version, Insert(mid.videos, videoFilename, entry)))
         == AddToManifest(before, videoFilename, begin, end, checksum)
  {
    InsertOverwrite(before.videos, videoFilename, EntryOrEmpty(before, videoFilename), entry);
  }

  lemma EntryOrEmptyValid(view: ManifestView, videoFilename: string)
    requires ViewValid(view)
    ensures EntryValid(EntryOrEmpty(view, videoFilename)) && EntryOrEmpty(view, videoFilename).filename == videoFilename
  {
  }

  lemma InsertEntryValid(view: ManifestView, videoFilename: string, entry: VideoEntry)
    requires ViewValid(view) && EntryValid(entry) && entry.filename == videoFilename
    ensures ViewValid(ManifestView(view.version, Insert(view.videos, videoFilename, entry)))
  {
  }

  // ---------------------------------------------------------------------
  // Recording a clip's checksum (video_clipper.py:408-410)

  /** The manifest has a video `v` with a clip `c`. */
  predicate HasClip(view: ManifestView, v: string, c: string)
  {
    v in view.videos.items && c in view.videos.items[v].clips.items
  }

  function ClipAt(view: ManifestView, v: string, c: string): VideoClip
    requires HasClip(view, v, c)
  {
    view.videos.items[v].clips.items[c]
  }

  /** The entry with clip `c`'s checksum replaced: `clip.sha256_checksum = checksum`. */
  function WithChecksum(entry: VideoEntry, c: string, checksum: string): (r: VideoEntry)
    requires c in entry.clips.items
    ensures EntryValid(entry) ==> EntryValid(r)
  {
    VideoEntry(entry.filename, Insert(entry.clips, c, entry.clips.items[c].(checksum := checksum)))
  }

  /** The manifest with the checksum of video `v`'s clip `c` replaced. */
  function SetChecksum(view: ManifestView, v: string, c: string, checksum: string): (r: ManifestView)
    requires ViewValid(view) && HasClip(view, v, c)
    ensures ViewValid(r)
  {
    ManifestView(view.version, Insert(view.videos, v, WithChecksum(view.videos.items[v], c, checksum)))
  }

  /**
    * Recording a checksum changes that one clip's checksum and nothing else: the
    * same videos and clips in the same order, the same names and timestamps.
    */
  lemma SetChecksumEffect(view: ManifestView, v: string, c: string, checksum: string)
    requires ViewValid(view) && HasClip(view, v, c)
    ensures var r := SetChecksum(view, v, c, checksum);
      && SameShape(view, r)
      && ClipAt(r, v, c).checksum == checksum
      && forall v', c' :: HasClip(view, v', c') && (v', c') != (v, c) ==> ClipAt(r, v', c') == ClipAt(view, v', c')
  {
  }

  /** Two manifests that differ at most in their clips' checksums. */
  ghost predicate SameShape(a: ManifestView, b: ManifestView)
  {
    && a.version == b.version
    && a.videos.keys == b.videos.keys
    && a.videos.items.Keys == b.videos.items.Keys
    && forall v :: v in a.videos.items ==> SameClips(a.videos.items[v], b.videos.items[v])
  }

  ghost predicate SameClips(x: VideoEntry, y: VideoEntry)
  {
    && x.filename == y.filename
    && x.clips.keys == y.clips.keys
    && x.clips.items.Keys == y.clips.items.Keys
    && forall c :: c in x.clips.items ==>
         && x.clips.items[c].filename == y.clips.items[c].filename
         && x.clips.items[c].startTimestamp == y.clips.items[c].startTimestamp
         && x.clips.items[c].endTimestamp == y.clips.items[c].endTimestamp
  }

  lemma SameShapeTransitive(a: ManifestView, b: ManifestView, c: ManifestView)
    requires SameShape(a, b) && SameShape(b, c)
    ensures SameShape(a, c)
  {
  }

  // ---------------------------------------------------------------------
  // The objects

  /** `VideoFile`: a video file and the clips declared for it. */
  class VideoFile {
    const filename: string
    var clips: Dict<VideoClip>

    ghost predicate Valid()
      reads this
    {
      EntryValid(Entry())
    }

    function Entry(): VideoEntry
      reads this
    {
      VideoEntry(filename, clips)
    }

    constructor (filename: string)
      ensures this.filename == filename && clips == Empty() && Valid()
    {
      this.filename := filename;
      clips := Empty();
    }

    /** The duplicate scan of `add_new_clip`: some clip already spans `begin` to `end`. */
    method HasClipSpanning(begin: string, end: string) returns (found: bool)
      requires Valid()
      ensures found == HasSpan(clips, begin, end)
    {
      var i := 0;
      while i < |clips.keys|
        invariant 0 <= i <= |clips.keys|
        invariant forall j :: 0 <= j < i ==>
          !(clips.items[clips.keys[j]].startTimestamp == begin && clips.items[clips.keys[j]].endTimestamp == end)
      {
        var clip := clips.items[clips.keys[i]];
        if clip.startTimestamp == begin && clip.endTimestamp == end {
          return true;
        }
        i := i + 1;
      }
      forall c | c in clips.items
        ensures !(clips.items[c].startTimestamp == begin && clips.items[c].endTimestamp == end)
      {
        var j :| 0 <= j < |clips.keys| && clips.keys[j] == c;
      }
      return false;
    }

    /** The naming loop of `add_new_clip`: ordinals 0, 1, 2, ... until a name is free. */
    method FirstFreeOrdinal() returns (k: nat)
      ensures k == LeastFreeOrdinal(clips.items.Keys, filename)
      ensures ClipName(filename, k) !in clips.items
    {
      k := 0;
      while ClipName(filename, k) in clips.items
        invariant forall j :: 0 <= j < k ==> ClipName(filename, j) in clips.items
        decreases |clips.items.Keys| - k
      {
        TakenOrdinalsBound(clips.items.Keys, filename, k + 1);
        k := k + 1;
      }
      LeastFreeUnique(clips.items.Keys, filename, k);
    }

    /** `clip.sha256_checksum = checksum` for the clip stored under `c`. */
    method RecordChecksum(c: string, checksum: string)
      requires Valid() && c in clips.items
      modifies this
      ensures Valid()
      ensures Entry() == WithChecksum(old(Entry()), c, checksum)
    {
      clips := Insert(clips, c, clips.items[c].(checksum := checksum));
    }

    /** `add_new_clip`: the duplicate scan, then the search for the first free ordinal, then the insertion. */
    method AddNewClip(begin: string, end: string, checksum: string) returns (added: bool)
      requires Valid()
      modifies this
      ensures Valid()
      ensures (added, Entry()) == AddClip(old(Entry()), begin, end, checksum)
    {
      var found := HasClipSpanning(begin, end);
      if found {
        return false;
      }
      var k := FirstFreeOrdinal();
      var name := ClipName(filename, k);
      assert name == NewClipName(Entry());
      clips := Insert(clips, name, VideoClip(name, begin, end, checksum));
      return true;
    }
  }

  /** `VideoClipperManifest`: the version tag and the video files by name. */
  class Manifest {
    var version: Json
    var videoFiles: Dict<VideoFile>
    ghost var Repr: set<VideoFile>

    /**
      * The dict holds objects of Repr, each stored under its own file name (so no object
      * is stored under two names).
      */
    ghost predicate Valid()
      reads this, Repr
    {
      && Dicts.Valid(videoFiles)
      && (forall v :: v in videoFiles.items ==> videoFiles.items[v] in Repr)
      && (forall v :: v in videoFiles.items ==> videoFiles.items[v].filename == v && videoFiles.items[v].Valid())
    }

    /** The manifest this object stands for. */
    function Model(): (view: ManifestView)
      reads this, Repr
      requires Valid()
      ensures ViewValid(view)
      ensures view.version == version && view.videos.keys == videoFiles.keys
      ensures view.videos.items.Keys == videoFiles.items.Keys
    {
      ManifestView(version, Dict(videoFiles.keys, map v | v in videoFiles.items :: videoFiles.items[v].Entry()))
    }

    constructor (version: Json)
      ensures Valid() && Repr == {}
      ensures Model() == ManifestView(version, Empty())
    {
      this.version := version;
      videoFiles := Empty();
      Repr := {};
      new;
      assert Model().videos.items == map[];
    }

    /** `self.video_files.get(name)`, storing a new, empty `VideoFile` under the name when there is none. */
    method EntryFor(videoFilename: string) returns (entry: VideoFile)
      requires Valid()
      modifies this
      ensures Valid() && fresh(Repr - old(Repr)) && version == old(version)
      ensures videoFilename in videoFiles.items && videoFiles.items[videoFilename] == entry
      ensures entry.Entry() == EntryOrEmpty(old(Model()), videoFilename)
      ensures Model() == ManifestView(old(Model()).version,
                                      Insert(old(Model()).videos, videoFilename, EntryOrEmpty(old(Model()), videoFilename)))
    {
      if videoFilename in videoFiles.items {
        entry := videoFiles.items[videoFilename];
        InsertPresent(Model().videos, videoFilename);
      } else {
        entry := new VideoFile(videoFilename);
        videoFiles := Insert(videoFiles, videoFilename, entry);
        Repr := Repr + {entry};
        ModelAfterInsert(this, entry);
      }
    }

    /** `add_new_clip`: find or create the video's entry, then declare the clip in it. */
    method AddNewClip(videoFilename: string, begin: string, end: string, checksum: string) returns (added: bool)
      requires Valid()
      modifies this, Repr
      ensures Valid() && fresh(Repr - old(Repr))
      ensures (added, Model()) == AddToManifest(old(Model()), videoFilename, begin, end, checksum)
    {
      ghost var before := Model();
      var entry := EntryFor(videoFilename);
      ghost var mid := Model();
      label Found:
      added := entry.AddNewClip(begin, end, checksum);
      ModelAfterClipsChange@Found(this, videoFilename);
      AddToManifestInserts(before, mid, videoFilename, begin, end, checksum, added, entry.Entry());
    }

    /** The checksum of video `v`'s clip `c` is replaced in the clip object itself, which the manifest holds. */
    method RecordChecksum(v: string, c: string, checksum: string)
      requires Valid() && HasClip(Model(), v, c)
      modifies Repr
      ensures Valid() && Repr == old(Repr)
      ensures Model() == SetChecksum(old(Model()), v, c, checksum)
    {
      var file := videoFiles.items[v];
      label Before:
      file.RecordChecksum(c, checksum);
      ModelAfterClipsChange@Before(this, v);
    }
  }

  /** Storing a valid video file object under its own name keeps the manifest valid. */
  twostate lemma InsertKeepsValid(m: Manifest, new e: VideoFile)
    requires old(m.Valid())
    requires m.videoFiles == Insert(old(m.videoFiles), e.filename, e)
    requires m.Repr == old(m.Repr) + {e} && e.Valid()
    requires forall o :: o in old(m.Repr) ==> unchanged(o)
    ensures m.Valid()
  {
    InsertPlacement(old(m.videoFiles), e.filename, e);
    forall v | v in m.videoFiles.items && v != e.filename
      ensures m.videoFiles.items[v] in m.Repr && m.videoFiles.items[v].filename == v && m.videoFiles.items[v].Valid()
    {
      var f := m.videoFiles.items[v];
      assert f == old(m.videoFiles.items[v]) && f in old(m.Repr);
      assert unchanged(f) && old(f.Valid());
    }
  }

  /** Storing a video file object under its name, in place of whatever was there, changes only that entry of the model. */
  twostate lemma ModelAfterInsert(m: Manifest, new e: VideoFile)
    requires old(m.Valid()) && m.version == old(m.version)
    requires m.videoFiles == Insert(old(m.videoFiles), e.filename, e)
    requires m.Repr == old(m.Repr) + {e} && e.Valid()
    requires forall o :: o in old(m.Repr) ==> unchanged(o)
    ensures m.Valid()
    ensures m.Model() == ManifestView(old(m.version), Insert(old(m.Model()).videos, e.filename, e.Entry()))
  {
    InsertKeepsValid(m, e);
    OtherEntriesKept(m, e);
    ViewAfterInsert(old(m.Model()), m.Model(), e.filename, e.Entry());
  }

  /** The entries of the other names are those of the same, unchanged, objects. */
  twostate lemma OtherEntriesKept(m: Manifest, new e: VideoFile)
    requires old(m.Valid()) && m.Valid()
    requires m.videoFiles == Insert(old(m.videoFiles), e.filename, e)
    requires forall o :: o in old(m.Repr) ==> unchanged(o)
    ensures forall v :: v in m.videoFiles.items && v != e.filename ==> m.Model().videos.items[v] == old(m.Model()).videos.items[v]
  {
    forall v | v in m.videoFiles.items && v != e.filename
      ensures m.Model().videos.items[v] == old(m.Model()).videos.items[v]
    {
      var f := m.videoFiles.items[v];
      assert f == old(m.videoFiles.items[v]) && f in old(m.Repr);
      assert unchanged(f);
    }
  }

  /** Two views that differ only in the entry stored under `videoFilename`, at the place Insert gives it. */
  lemma ViewAfterInsert(before: ManifestView, after: ManifestView, videoFilename: string, entry: VideoEntry)
    requires after.version == before.version
    requires videoFilename in before.videos.items ==> after.videos.keys == before.videos.keys
    requires videoFilename !in before.videos.items ==> after.videos.keys == before.videos.keys + [videoFilename]
    requires after.videos.items.Keys == before.videos.items.Keys + {videoFilename}
    requires after.videos.items[videoFilename] == entry
    requires forall v :: v in after.videos.items && v != videoFilename ==> after.videos.items[v] == before.videos.items[v]
    ensures after == ManifestView(before.version, Insert(before.videos, videoFilename, entry))
  {
    assert after.videos.items == before.videos.items[videoFilename := entry];
  }

  /** Changing the clips of one video file object changes only that entry of the model. */
  twostate lemma ModelAfterClipsChange(m: Manifest, new videoFilename: string)
    requires old(m.Valid()) && unchanged(m) && videoFilename in m.videoFiles.items
    requires forall o :: o in old(m.Repr) && o != m.videoFiles.items[videoFilename] ==> unchanged(o)
    requires m.videoFiles.items[videoFilename].Valid()
    ensures m.Valid()
    ensures m.Model() == ManifestView(old(m.version), Insert(old(m.Model()).videos, videoFilename, m.videoFiles.items[videoFilename].Entry()))
  {
    var e := m.videoFiles.items[videoFilename];
    ClipsChangeKeepsValid(m, videoFilename);
    var after := m.Model();
    var before := old(m.Model());
    forall v | v in after.videos.items && v != videoFilename
      ensures after.videos.items[v] == before.videos.items[v]
    {
      assert after.videos.items[v] == m.videoFiles.items[v].Entry();
    }
    ViewAfterInsert(before, after, videoFilename, e.Entry());
  }

  /** Changing the clips of one video file object leaves the other objects' entries as they were. */
  twostate lemma ClipsChangeKeepsValid(m: Manifest, new videoFilename: string)
    requires old(m.Valid()) && unchanged(m) && videoFilename in m.videoFiles.items
    requires forall o :: o in old(m.Repr) && o != m.videoFiles.items[videoFilename] ==> unchanged(o)
    requires m.videoFiles.items[videoFilename].Valid()
    ensures m.Valid()
    ensures forall v :: v in m.videoFiles.items && v != videoFilename ==>
      m.videoFiles.items[v].Entry() == old(m.videoFiles.items[v].Entry())
  {
    forall v | v in m.videoFiles.items && v != videoFilename
      ensures m.videoFiles.items[v].Entry() == old(m.videoFiles.items[v].Entry())
    {
      assert m.videoFiles.items[v] in old(m.Repr);
    }
  }
}
