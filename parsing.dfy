/**
 * `parse_manifest` (video_clipper.py:194-236): reading a loaded manifest
 * document into the model. Both of its loops have one shape: walk the
 * members of a dict in document order, make something of each member and
 * store it under the member's name, and give up at the first member that
 * fails. `ReadMembers` is that shape; the specification `Parse` uses it for
 * the `videos` dict and, inside each video, for its `clips` dict, and checks
 * the keys in the order the code does. `ParseManifest` is the imperative
 * parser, filling the objects in place, proved against `Parse`.
 */
module Parsing {
  import opened Wrappers
  import opened Dicts
  import opened Documents
  import opened Manifests

  // ---------------------------------------------------------------------
  // Specification

  /**
   * One clip member: `start` and `end` must be present and not null, and a
   * missing `sha256_checksum` becomes "none". Values that are not strings are
   * a type mismatch.
   */
  function ParseClip(name: string, clipJson: Json): (r: Result<VideoClip, ParseError>)
    ensures r.Success? ==> r.value.filename == name
  {
    if !clipJson.JObject? then Failure(TypeMismatch)
    else
      match GetField(clipJson.members, KEY_START)
      case Absent => Failure(MissingStart(name))
      case Null => Failure(MissingStart(name))
      case OtherValue => Failure(TypeMismatch)
      case Text(start) =>
        match GetField(clipJson.members, KEY_END)
        case Absent => Failure(MissingEnd(name))
        case Null => Failure(MissingEnd(name))
        case OtherValue => Failure(TypeMismatch)
        case Text(end) =>
          match GetField(clipJson.members, KEY_SHA256_CHECKSUM)
          case Absent => Success(VideoClip(name, start, end, NO_CHECKSUM))
          case Text(checksum) => Success(VideoClip(name, start, end, checksum))
          case _ => Failure(TypeMismatch)
  }

  /**
   * The loop over the members of a dict from the `i`-th on: what `read` makes of
   * each member is stored into `acc` under the member's name, and the first
   * member `read` rejects ends the loop with its error.
   */
  function ReadMembers<V>(members: seq<(string, Json)>, i: nat, acc: Dict<V>, read: (string, Json) -> Result<V, ParseError>)
    : (r: Result<Dict<V>, ParseError>)
    requires i <= |members|
    ensures r.Success? && Dicts.Valid(acc) ==> Dicts.Valid(r.value)
    decreases |members| - i
  {
    if i == |members| then Success(acc)
    else
      match read(members[i].0, members[i].1)
      case Failure(e) => Failure(e)
      case Success(v) => ReadMembers(members, i + 1, Insert(acc, members[i].0, v), read)
  }

  /** The clip members of one video member: its `clips` must be present and a dict. */
  function ClipMembersOf(name: string, videoJson: Json): Result<seq<(string, Json)>, ParseError>
  {
    match Contains(videoJson, KEY_CLIPS)
    case Failure(e) => Failure(e)
    case Success(hasClips) =>
      if !hasClips then Failure(MissingClips(name))
      else
        match Index(videoJson, KEY_CLIPS)
        case Failure(e) => Failure(e)
        case Success(clipsJson) =>
          if !clipsJson.JObject? then Failure(TypeMismatch)
          else Success(clipsJson.members)
  }

  /** One video member: its clip members, every one of which must parse. */
  function ParseVideo(name: string, videoJson: Json): (r: Result<VideoEntry, ParseError>)
    ensures r.Success? ==> r.value.filename == name && EntryValid(r.value)
  {
    match ClipMembersOf(name, videoJson)
    case Failure(e) => Failure(e)
    case Success(members) =>
      match ReadMembers(members, 0, Empty(), ParseClip)
      case Failure(e) => Failure(e)
      case Success(clips) =>
        ParsedClipsAreKeyed(members, clips);
        Success(VideoEntry(name, clips))
  }

  /**
   * The top level of `parse_manifest`: `version` must be present (a document
   * that is not a dict fails here or at the lookup), then `videos`, which must
   * be a dict; the result is the version and the video members.
   */
  function Header(doc: Json): Result<(Json, seq<(string, Json)>), ParseError>
  {
    match Contains(doc, KEY_VERSION)
    case Failure(e) => Failure(e)
    case Success(hasVersion) =>
      if !hasVersion then Failure(MissingVersion)
      else
        match Index(doc, KEY_VERSION)
        case Failure(e) => Failure(e)
        case Success(version) =>
          match Contains(doc, KEY_VIDEOS)
          case Failure(e) => Failure(e)
          case Success(hasVideos) =>
            if !hasVideos then Failure(MissingVideos)
            else
              match Index(doc, KEY_VIDEOS)
              case Failure(e) => Failure(e)
              case Success(videosJson) =>
                if !videosJson.JObject? then Failure(TypeMismatch)
                else Success((version, videosJson.members))
  }

  /** `parse_manifest`: the header, then every video member must parse. */
  function Parse(doc: Json): (r: Result<ManifestView, ParseError>)
    ensures r.Success? ==> ViewValid(r.value)
  {
    match Header(doc)
    case Failure(e) => Failure(e)
    case Success((version, members)) =>
      match ReadMembers(members, 0, Empty(), ParseVideo)
      case Failure(e) => Failure(e)
      case Success(videos) =>
        ParsedVideosAreKeyed(members, videos);
        Success(ManifestView(version, videos))
  }

  /** The members of the dict stored under `key` in `value`, or none when there is no such dict. */
  function ObjectMembers(value: Json, key: string): seq<(string, Json)>
  {
    if value.JObject? && Lookup(value.members, key).Some? && Lookup(value.members, key).value.JObject?
    then Lookup(value.members, key).value.members
    else []
  }

  // ---------------------------------------------------------------------
  // The member loop: success, the first failure, where each entry comes from

  /** The loop succeeds exactly when `read` accepts every remaining member. */
  lemma {:induction false} ReadMembersSuccessIff<V>(members: seq<(string, Json)>, i: nat, acc: Dict<V>,
                                                    read: (string, Json) -> Result<V, ParseError>)
    requires i <= |members|
    ensures ReadMembers(members, i, acc, read).Success? <==>
      forall j :: i <= j < |members| ==> read(members[j].0, members[j].1).Success?
    decreases |members| - i
  {
    if i < |members| && read(members[i].0, members[i].1).Success? {
      ReadMembersSuccessIff(members, i + 1, Insert(acc, members[i].0, read(members[i].0, members[i].1).value), read);
    }
  }

  /** A failing loop reports the error of the first member `read` rejects. */
  lemma {:induction false} ReadMembersFirstFailure<V>(members: seq<(string, Json)>, i: nat, acc: Dict<V>,
                                                      read: (string, Json) -> Result<V, ParseError>)
    requires i <= |members| && ReadMembers(members, i, acc, read).Failure?
    ensures exists j :: (i <= j < |members|
      && read(members[j].0, members[j].1) == Failure(ReadMembers(members, i, acc, read).error)
      && forall j' :: i <= j' < j ==> read(members[j'].0, members[j'].1).Success?)
    decreases |members| - i
  {
    if read(members[i].0, members[i].1).Success? {
      ReadMembersFirstFailure(members, i + 1, Insert(acc, members[i].0, read(members[i].0, members[i].1).value), read);
    } else {
      assert read(members[i].0, members[i].1) == Failure(ReadMembers(members, i, acc, read).error);
    }
  }

  /** A successful loop keeps every name it started with. */
  lemma {:induction false} ReadMembersKeepsNames<V>(members: seq<(string, Json)>, i: nat, acc: Dict<V>,
                                                    read: (string, Json) -> Result<V, ParseError>, k: string)
    requires i <= |members| && ReadMembers(members, i, acc, read).Success? && k in acc.items
    ensures k in ReadMembers(members, i, acc, read).value.items
    decreases |members| - i
  {
    if i < |members| {
      ReadMembersKeepsNames(members, i + 1, Insert(acc, members[i].0, read(members[i].0, members[i].1).value), read, k);
    }
  }

  /** After a successful loop every remaining member's name is a key. */
  lemma {:induction false} ReadMembersCovers<V>(members: seq<(string, Json)>, i: nat, acc: Dict<V>,
                                                read: (string, Json) -> Result<V, ParseError>)
    requires i <= |members| && ReadMembers(members, i, acc, read).Success?
    ensures forall j :: i <= j < |members| ==> members[j].0 in ReadMembers(members, i, acc, read).value.items
    decreases |members| - i
  {
    if i < |members| {
      var next := Insert(acc, members[i].0, read(members[i].0, members[i].1).value);
      ReadMembersCovers(members, i + 1, next, read);
      ReadMembersKeepsNames(members, i + 1, next, read, members[i].0);
    }
  }

  /** Every entry after a successful loop is untouched from `acc` or what `read` made of a member of its name. */
  lemma {:induction false} ReadMembersOrigin<V>(members: seq<(string, Json)>, i: nat, acc: Dict<V>,
                                                read: (string, Json) -> Result<V, ParseError>, k: string)
    requires i <= |members| && ReadMembers(members, i, acc, read).Success?
    requires k in ReadMembers(members, i, acc, read).value.items
    ensures var v := ReadMembers(members, i, acc, read).value.items[k];
      || (k in acc.items && v == acc.items[k])
      || exists j :: i <= j < |members| && members[j].0 == k && read(k, members[j].1) == Success(v)
    decreases |members| - i
  {
    if i < |members| {
      var next := Insert(acc, members[i].0, read(members[i].0, members[i].1).value);
      ReadMembersOrigin(members, i + 1, next, read, k);
      var v := ReadMembers(members, i, acc, read).value.items[k];
      if k in next.items && v == next.items[k] && k == members[i].0 {
        assert read(k, members[i].1) == Success(v);
      }
    }
  }

  /** The clips read from a dict of clip members are each stored under their own file name. */
  lemma ParsedClipsAreKeyed(members: seq<(string, Json)>, clips: Dict<VideoClip>)
    requires ReadMembers(members, 0, Empty(), ParseClip) == Success(clips)
    ensures Dicts.Valid(clips) && forall c :: c in clips.items ==> clips.items[c].filename == c
  {
    forall c | c in clips.items
      ensures clips.items[c].filename == c
    {
      ReadMembersOrigin(members, 0, Empty(), ParseClip, c);
    }
  }

  /** The videos read from a dict of video members are each stored under their own file name. */
  lemma ParsedVideosAreKeyed(members: seq<(string, Json)>, videos: Dict<VideoEntry>)
    requires ReadMembers(members, 0, Empty(), ParseVideo) == Success(videos)
    ensures Dicts.Valid(videos)
    ensures forall v :: v in videos.items ==> videos.items[v].filename == v && EntryValid(videos.items[v])
  {
    forall v | v in videos.items
      ensures videos.items[v].filename == v && EntryValid(videos.items[v])
    {
      ReadMembersOrigin(members, 0, Empty(), ParseVideo, v);
    }
  }

  // ---------------------------------------------------------------------
  // What parsing a document means

  /**
   * What one clip member must hold: a missing or null `start` is reported
   * first, then a missing or null `end`; a parsed clip has the member's start,
   * end and checksum strings, and "none" when the member has no checksum.
   */
  lemma ParseClipMeaning(name: string, clipJson: Json)
    ensures var r := ParseClip(name, clipJson);
      && (clipJson.JObject? && (Lookup(clipJson.members, KEY_START).None? || Lookup(clipJson.members, KEY_START) == Some(JNull))
          ==> r == Failure(MissingStart(name)))
      && (clipJson.JObject? && Lookup(clipJson.members, KEY_START).Some? && Lookup(clipJson.members, KEY_START).value.JString?
          && (Lookup(clipJson.members, KEY_END).None? || Lookup(clipJson.members, KEY_END) == Some(JNull))
          ==> r == Failure(MissingEnd(name)))
      && (r.Success? ==>
          && clipJson.JObject?
          && Lookup(clipJson.members, KEY_START) == Some(JString(r.value.startTimestamp))
          && Lookup(clipJson.members, KEY_END) == Some(JString(r.value.endTimestamp))
          && (Lookup(clipJson.members, KEY_SHA256_CHECKSUM).None? ==> r.value.checksum == NO_CHECKSUM)
          && (Lookup(clipJson.members, KEY_SHA256_CHECKSUM).Some? ==>
                Lookup(clipJson.members, KEY_SHA256_CHECKSUM) == Some(JString(r.value.checksum))))
  {
  }

  /** A video member without `clips` is reported as such; a parsed video holds the clips read from its `clips` dict. */
  lemma ParseVideoMeaning(name: string, videoJson: Json)
    ensures var r := ParseVideo(name, videoJson);
      && (videoJson.JObject? && Lookup(videoJson.members, KEY_CLIPS).None? ==> r == Failure(MissingClips(name)))
      && (r.Success? ==> Success(r.value.clips) == ReadMembers(ObjectMembers(videoJson, KEY_CLIPS), 0, Empty(), ParseClip))
  {
  }

  /**
   * `version` is looked for first, then `videos`; a parsed document is a dict
   * whose version is the result's and whose videos are read from its `videos` dict.
   */
  lemma ParseMeaning(doc: Json)
    ensures var r := Parse(doc);
      && (doc.JObject? && Lookup(doc.members, KEY_VERSION).None? ==> r == Failure(MissingVersion))
      && (doc.JObject? && Lookup(doc.members, KEY_VERSION).Some? && Lookup(doc.members, KEY_VIDEOS).None?
          ==> r == Failure(MissingVideos))
      && (r.Success? ==>
          && doc.JObject?
          && Lookup(doc.members, KEY_VERSION) == Some(r.value.version)
          && Success(r.value.videos) == ReadMembers(ObjectMembers(doc, KEY_VIDEOS), 0, Empty(), ParseVideo))
  {
  }

  /** A document fails to parse when one of its videos is a dict without `clips`. */
  lemma ParseFailsWithoutClips(doc: Json, j: nat)
    requires j < |ObjectMembers(doc, KEY_VIDEOS)|
    requires ObjectMembers(doc, KEY_VIDEOS)[j].1.JObject?
    requires Lookup(ObjectMembers(doc, KEY_VIDEOS)[j].1.members, KEY_CLIPS).None?
    ensures Parse(doc).Failure?
  {
    var videos := ObjectMembers(doc, KEY_VIDEOS);
    ParseVideoMeaning(videos[j].0, videos[j].1);
    ReadMembersSuccessIff(videos, 0, Empty(), ParseVideo);
    ParseMeaning(doc);
  }

  /** A document fails to parse when one of its clips is a dict whose `start` or `end` is missing or null. */
  lemma ParseFailsWithoutTimestamp(doc: Json, j: nat, k: nat)
    requires j < |ObjectMembers(doc, KEY_VIDEOS)|
    requires k < |ObjectMembers(ObjectMembers(doc, KEY_VIDEOS)[j].1, KEY_CLIPS)|
    requires var clipJson := ObjectMembers(ObjectMembers(doc, KEY_VIDEOS)[j].1, KEY_CLIPS)[k].1;
      && clipJson.JObject?
      && (|| Lookup(clipJson.members, KEY_START).None? || Lookup(clipJson.members, KEY_START) == Some(JNull)
          || Lookup(clipJson.members, KEY_END).None? || Lookup(clipJson.members, KEY_END) == Some(JNull))
    ensures Parse(doc).Failure?
  {
    var videos := ObjectMembers(doc, KEY_VIDEOS);
    var clips := ObjectMembers(videos[j].1, KEY_CLIPS);
    ParseClipMeaning(clips[k].0, clips[k].1);
    ReadMembersSuccessIff(clips, 0, Empty(), ParseClip);
    ParseVideoMeaning(videos[j].0, videos[j].1);
    ReadMembersSuccessIff(videos, 0, Empty(), ParseVideo);
    ParseMeaning(doc);
  }

  /** Every video member of a parsed document is a video of the result. */
  lemma ParsedVideosCovered(doc: Json)
    requires Parse(doc).Success?
    ensures forall j :: 0 <= j < |ObjectMembers(doc, KEY_VIDEOS)| ==>
      ObjectMembers(doc, KEY_VIDEOS)[j].0 in Parse(doc).value.videos.items
  {
    ParseMeaning(doc);
    ReadMembersCovers(ObjectMembers(doc, KEY_VIDEOS), 0, Empty(), ParseVideo);
  }

  /**
   * Every clip of a parsed document was declared in it: under a video member
   * of its video's name, as a clip member of its own name, which it is the
   * parse of (so its file name is its key and, by ParseClipMeaning, its
   * checksum is "none" when the member has none).
   */
  lemma ParsedClipIsDeclared(doc: Json, v: string, c: string)
    requires Parse(doc).Success?
    requires v in Parse(doc).value.videos.items && c in Parse(doc).value.videos.items[v].clips.items
    ensures var clip := Parse(doc).value.videos.items[v].clips.items[c];
      var videos := ObjectMembers(doc, KEY_VIDEOS);
      && clip.filename == c
      && exists j, k :: (0 <= j < |videos| && videos[j].0 == v
           && 0 <= k < |ObjectMembers(videos[j].1, KEY_CLIPS)| && ObjectMembers(videos[j].1, KEY_CLIPS)[k].0 == c
           && ParseClip(c, ObjectMembers(videos[j].1, KEY_CLIPS)[k].1) == Success(clip))
  {
    var view := Parse(doc).value;
    var videos := ObjectMembers(doc, KEY_VIDEOS);
    ParseMeaning(doc);
    ReadMembersOrigin(videos, 0, Empty(), ParseVideo, v);
    var j :| 0 <= j < |videos| && videos[j].0 == v && ParseVideo(v, videos[j].1) == Success(view.videos.items[v]);
    var clips := ObjectMembers(videos[j].1, KEY_CLIPS);
    ParseVideoMeaning(v, videos[j].1);
    ReadMembersOrigin(clips, 0, Empty(), ParseClip, c);
    var k :| 0 <= k < |clips| && clips[k].0 == c && ParseClip(c, clips[k].1) == Success(view.videos.items[v].clips.items[c]);
  }

  // ---------------------------------------------------------------------
  // Round trip: parsing what `to_json` writes gives the manifest back

  lemma ClipRoundTrip(clip: VideoClip)
    ensures ParseClip(clip.filename, ClipToJson(clip)) == Success(clip)
  {
    var members := ClipToJson(clip).members;
    assert KEY_START != KEY_END && KEY_START != KEY_SHA256_CHECKSUM && KEY_END != KEY_SHA256_CHECKSUM;
    assert Lookup(members, KEY_START) == Some(JString(clip.startTimestamp));
    assert Lookup(members, KEY_END) == Lookup(members[1..], KEY_END) == Some(JString(clip.endTimestamp));
    assert Lookup(members, KEY_SHA256_CHECKSUM) == Lookup(members[1..][1..], KEY_SHA256_CHECKSUM) == Some(JString(clip.checksum));
  }

  lemma {:induction false} ClipsRoundTrip(entry: VideoEntry, n: nat)
    requires EntryValid(entry) && n <= |entry.clips.keys|
    ensures ReadMembers(ClipMembers(entry.clips), n, Prefix(entry.clips, n), ParseClip) == Success(entry.clips)
    decreases |entry.clips.keys| - n
  {
    if n == |entry.clips.keys| {
      PrefixFull(entry.clips);
    } else {
      var name := entry.clips.keys[n];
      var clip := entry.clips.items[name];
      assert ClipMembers(entry.clips)[n] == (name, ClipToJson(clip));
      ClipRoundTrip(clip);
      PrefixStep(entry.clips, n);
      ClipsRoundTrip(entry, n + 1);
    }
  }

  lemma PrefixEmpty<V>(d: Dict<V>)
    requires Dicts.Valid(d)
    ensures Prefix(d, 0) == Empty()
  {
    assert Prefix(d, 0).items == map[];
  }

  lemma VideoRoundTrip(entry: VideoEntry)
    requires EntryValid(entry)
    ensures ParseVideo(entry.filename, VideoToJson(entry)) == Success(entry)
  {
    PrefixEmpty(entry.clips);
    ClipsRoundTrip(entry, 0);
  }

  lemma {:induction false} VideosRoundTrip(view: ManifestView, n: nat)
    requires ViewValid(view) && n <= |view.videos.keys|
    ensures ReadMembers(VideoMembers(view.videos), n, Prefix(view.videos, n), ParseVideo) == Success(view.videos)
    decreases |view.videos.keys| - n
  {
    if n == |view.videos.keys| {
      PrefixFull(view.videos);
    } else {
      var name := view.videos.keys[n];
      var entry := view.videos.items[name];
      assert VideoMembers(view.videos)[n] == (name, VideoToJson(entry));
      VideoRoundTrip(entry);
      PrefixStep(view.videos, n);
      VideosRoundTrip(view, n + 1);
    }
  }

  /** Parsing the document a valid manifest serialises to rebuilds that manifest. */
  lemma ParseToJson(view: ManifestView)
    requires ViewValid(view)
    ensures Parse(ManifestToJson(view)) == Success(view)
  {
    var members := ManifestToJson(view).members;
    assert Lookup(members, KEY_VERSION) == Some(view.version);
    assert Lookup(members[1..], KEY_VIDEOS) == Some(JObject(VideoMembers(view.videos)));
    PrefixEmpty(view.videos);
    VideosRoundTrip(view, 0);
  }

  // ---------------------------------------------------------------------
  // The parser as the program runs it: objects filled in place

  /** The body of the inner loop of `parse_manifest`: the checks on one clip member, in order. */
  method ReadClip(clipName: string, clipJson: Json) returns (r: Result<VideoClip, ParseError>)
    ensures r == ParseClip(clipName, clipJson)
  {
    if !clipJson.JObject? {
      return Failure(TypeMismatch);
    }
    var start := GetField(clipJson.members, KEY_START);
    if start.Absent? || start.Null? {
      return Failure(MissingStart(clipName));
    }
    if !start.Text? {
      return Failure(TypeMismatch);
    }
    var end := GetField(clipJson.members, KEY_END);
    if end.Absent? || end.Null? {
      return Failure(MissingEnd(clipName));
    }
    if !end.Text? {
      return Failure(TypeMismatch);
    }
    var checksum := GetField(clipJson.members, KEY_SHA256_CHECKSUM);
    var sha256: string;
    if checksum.Absent? {
      sha256 := NO_CHECKSUM;
    } else if checksum.Text? {
      sha256 := checksum.s;
    } else {
      return Failure(TypeMismatch);
    }
    return Success(VideoClip(clipName, start.s, end.s, sha256));
  }

  /** The inner loop of `parse_manifest`: each clip member into `file.clips`, stopping at the first bad one. */
  method ReadClips(file: VideoFile, members: seq<(string, Json)>) returns (error: Option<ParseError>)
    requires file.Valid()
    modifies file
    ensures file.Valid()
    ensures error.None? ==> ReadMembers(members, 0, old(file.clips), ParseClip) == Success(file.clips)
    ensures error.Some? ==> ReadMembers(members, 0, old(file.clips), ParseClip) == Failure(error.value)
  {
    ghost var clips0 := file.clips;
    var j := 0;
    while j < |members|
      invariant 0 <= j <= |members|
      invariant file.Valid()
      invariant ReadMembers(members, 0, clips0, ParseClip) == ReadMembers(members, j, file.clips, ParseClip)
    {
      var clip := ReadClip(members[j].0, members[j].1);
      if clip.Failure? {
        assert ReadMembers(members, j, file.clips, ParseClip) == Failure(clip.error);
        return Some(clip.error);
      }
      file.clips := Insert(file.clips, members[j].0, clip.value);
      j := j + 1;
    }
    return None;
  }

  /**
   * One step of the outer loop of `parse_manifest`: a new video file object is
   * stored under the member name, then its clips are read into it.
   */
  method ReadVideo(manifest: Manifest, members: seq<(string, Json)>, i: nat) returns (error: Option<ParseError>, videoFile: VideoFile)
    requires manifest.Valid() && i < |members|
    modifies manifest
    ensures manifest.Valid() && manifest.version == old(manifest.version)
    ensures fresh(videoFile) && manifest.Repr == old(manifest.Repr) + {videoFile}
    ensures error.Some? ==> ReadMembers(members, i, old(manifest.Model()).videos, ParseVideo) == Failure(error.value)
    ensures error.None? ==>
      ReadMembers(members, i, old(manifest.Model()).videos, ParseVideo) == ReadMembers(members, i + 1, manifest.Model().videos, ParseVideo)
  {
    var (videoName, videoJson) := members[i];
    ghost var before := manifest.Model();
    videoFile := new VideoFile(videoName);
    manifest.videoFiles := Insert(manifest.videoFiles, videoName, videoFile);
    manifest.Repr := manifest.Repr + {videoFile};
    ModelAfterInsert(manifest, videoFile);

    var clipMembers := ClipMembersOf(videoName, videoJson);
    if clipMembers.Failure? {
      return Some(clipMembers.error), videoFile;
    }
    label Stored:
    error := ReadClips(videoFile, clipMembers.value);
    if error.Some? {
      ClipsChangeKeepsValid@Stored(manifest, videoName);
      return;
    }
    ModelAfterClipsChange@Stored(manifest, videoName);
    InsertOverwrite(before.videos, videoName, VideoEntry(videoName, Empty()), videoFile.Entry());
  }

  /** The outer loop of `parse_manifest`: each video member into `manifest`, stopping at the first bad one. */
  method ReadVideos(manifest: Manifest, members: seq<(string, Json)>) returns (error: Option<ParseError>, ghost added: set<VideoFile>)
    requires manifest.Valid()
    modifies manifest
    ensures manifest.Valid() && manifest.version == old(manifest.version)
    ensures fresh(added) && manifest.Repr == old(manifest.Repr) + added
    ensures error.None? ==> ReadMembers(members, 0, old(manifest.Model()).videos, ParseVideo) == Success(manifest.Model().videos)
    ensures error.Some? ==> ReadMembers(members, 0, old(manifest.Model()).videos, ParseVideo) == Failure(error.value)
  {
    ghost var videos0 := manifest.Model().videos;
    ghost var repr0 := manifest.Repr;
    added := {};
    var i := 0;
    while i < |members|
      invariant 0 <= i <= |members|
      invariant manifest.Valid() && manifest.version == old(manifest.version)
      invariant fresh(added) && manifest.Repr == repr0 + added
      invariant ReadMembers(members, 0, videos0, ParseVideo) == ReadMembers(members, i, manifest.Model().videos, ParseVideo)
    {
      var videoError, videoFile := ReadVideo(manifest, members, i);
      assert fresh(videoFile);
      added := added + {videoFile};
      if videoError.Some? {
        return videoError, added;
      }
      i := i + 1;
    }
    return None, added;
  }

  /**
   * `parse_manifest`: the header, then the manifest object filled video by
   * video. (The code creates the object before it looks for `videos`; a
   * failure discards it, so the order is not observable.)
   */
  method ParseManifest(doc: Json) returns (r: Result<Manifest, ParseError>)
    ensures r.Success? <==> Parse(doc).Success?
    ensures r.Failure? ==> r.error == Parse(doc).error
    ensures r.Success? ==> fresh(r.value) && fresh(r.value.Repr) && r.value.Valid() && r.value.Model() == Parse(doc).value
  {
    var header := Header(doc);
    if header.Failure? {
      return Failure(header.error);
    }
    var (version, members) := header.value;
    var manifest := new Manifest(version);
    var error, _ := ReadVideos(manifest, members);
    if error.Some? {
      return Failure(error.value);
    }
    return Success(manifest);
  }
}
