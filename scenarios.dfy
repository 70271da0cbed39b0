/**
 * Concrete runs of the model: declaring the clip `a_0.mp4` of `a.mp4`, and
 * producing it with `clip_command` on an empty output directory.
 */
module Scenarios {
  import opened Wrappers
  import opened Dicts
  import opened Documents
  import opened Naming
  import opened Manifests
  import opened Parsing
  import opened Reconciling
  import opened Commands

  /** `a.mp4` has no directory part, and its last dot is at index 1. */
  lemma FindsInMp4()
    ensures RFind("a.mp4", '/') == -1 && RFind("a.mp4", '.') == 1
  {
    assert "a.mp4"[..4] == "a.mp" && "a.mp"[..3] == "a.m" && "a.m"[..2] == "a." && "a."[..1] == "a" && "a"[..0] == "";
    assert RFind("a", '/') == -1;
    assert RFind("a.", '/') == -1;
    assert RFind("a.m", '/') == -1;
    assert RFind("a.mp", '/') == -1;
    assert RFind("a.", '.') == 1;
    assert RFind("a.m", '.') == 1;
    assert RFind("a.mp", '.') == 1;
  }

  /** `a.mp4` splits into the stem `a` and the suffix `.mp4`. */
  lemma SplitMp4()
    ensures Stem("a.mp4") == "a" && Suffix("a.mp4") == ".mp4"
  {
    FindsInMp4();
    assert BaseName("a.mp4") == "a.mp4";
  }

  /** `b.c.mkv` has no directory part, and its last dot is at index 3. */
  lemma FindsInMkv()
    ensures RFind("b.c.mkv", '/') == -1 && RFind("b.c.mkv", '.') == 3
  {
    assert "b.c.mkv"[..6] == "b.c.mk" && "b.c.mk"[..5] == "b.c.m" && "b.c.m"[..4] == "b.c.";
    assert "b.c."[..3] == "b.c" && "b.c"[..2] == "b." && "b."[..1] == "b" && "b"[..0] == "";
    assert RFind("b", '/') == -1;
    assert RFind("b.", '/') == -1;
    assert RFind("b.c", '/') == -1;
    assert RFind("b.c.", '/') == -1;
    assert RFind("b.c.m", '/') == -1;
    assert RFind("b.c.mk", '/') == -1;
    assert RFind("b.c.", '.') == 3;
    assert RFind("b.c.m", '.') == 3;
    assert RFind("b.c.mk", '.') == 3;
  }

  /** `b.c.mkv` splits at its last dot: the stem `b.c` and the suffix `.mkv`. */
  lemma SplitMkv()
    ensures Stem("b.c.mkv") == "b.c" && Suffix("b.c.mkv") == ".mkv"
  {
    FindsInMkv();
    assert BaseName("b.c.mkv") == "b.c.mkv";
  }

  /** The decimal strings of the ordinals used below. */
  lemma SomeDecimals()
    ensures NatToString(0) == "0" && NatToString(1) == "1" && NatToString(12) == "12"
  {
    assert NatToString(12) == NatToString(1) + [DigitChar(2)];
  }

  /** A clip name is the stem, an underscore, the ordinal in decimal and the suffix. */
  lemma ClipNameParts(videoFilename: string, stem: string, suffix: string, k: nat, digits: string)
    requires Stem(videoFilename) == stem && Suffix(videoFilename) == suffix && NatToString(k) == digits
    ensures ClipName(videoFilename, k) == stem + "_" + digits + suffix
  {
  }

  /** The first clip of `a.mp4` is named `a_0.mp4`: the stem, an underscore, the ordinal, the suffix. */
  lemma ClipNameOfMp4First()
    ensures ClipName("a.mp4", 0) == "a_0.mp4"
  {
    assert "a" + "_" + "0" + ".mp4" == "a_0.mp4";
    SplitMp4();
    SomeDecimals();
    ClipNameParts("a.mp4", "a", ".mp4", 0, "0");
  }

  /** The second clip of `a.mp4` is named `a_1.mp4`. */
  lemma ClipNameOfMp4Second()
    ensures ClipName("a.mp4", 1) == "a_1.mp4"
  {
    assert "a" + "_" + "1" + ".mp4" == "a_1.mp4";
    SplitMp4();
    SomeDecimals();
    ClipNameParts("a.mp4", "a", ".mp4", 1, "1");
  }

  /** Only the last dot starts the suffix: clip 12 of `b.c.mkv` is `b.c_12.mkv`. */
  lemma ClipNameOfMkv()
    ensures ClipName("b.c.mkv", 12) == "b.c_12.mkv"
  {
    assert "b.c" + "_" + "12" + ".mkv" == "b.c_12.mkv";
    SplitMkv();
    SomeDecimals();
    ClipNameParts("b.c.mkv", "b.c", ".mkv", 12, "12");
  }

  /** The clip declared for `00:00:10` to `00:00:20` with the given checksum. */
  function TheClip(checksum: string): VideoClip
  {
    VideoClip("a_0.mp4", "00:00:10", "00:00:20", checksum)
  }

  /** The manifest with that one clip of `a.mp4`. */
  function TheView(checksum: string): (view: ManifestView)
    ensures ViewValid(view)
  {
    var clips := Insert(Empty(), "a_0.mp4", TheClip(checksum));
    ManifestView(JString("1"), Insert(Empty(), "a.mp4", VideoEntry("a.mp4", clips)))
  }

  /** The manifest document of that manifest. */
  function TheDocument(checksum: string): Json
  {
    JObject([
      (KEY_VERSION, JString("1")),
      (KEY_VIDEOS, JObject([
        ("a.mp4", JObject([
          (KEY_CLIPS, JObject([
            ("a_0.mp4", JObject([
              (KEY_START, JString("00:00:10")),
              (KEY_END, JString("00:00:20")),
              (KEY_SHA256_CHECKSUM, JString(checksum))]))]))]))]))])
  }

  lemma TheDocumentReads(checksum: string)
    ensures ManifestToJson(TheView(checksum)) == TheDocument(checksum)
    ensures Parse(TheDocument(checksum)) == Success(TheView(checksum))
  {
    var view := TheView(checksum);
    var entry := view.videos.items["a.mp4"];
    assert ClipMembers(entry.clips) == [("a_0.mp4", ClipToJson(TheClip(checksum)))];
    assert VideoMembers(view.videos) == [("a.mp4", VideoToJson(entry))];
    ParseToJson(view);
  }

  /** The name of the first clip declared for `a.mp4` is `a_0.mp4`. */
  lemma FirstClipName()
    ensures NewClipName(VideoEntry("a.mp4", Empty())) == "a_0.mp4"
  {
    var empty := VideoEntry("a.mp4", Empty());
    ClipNameOfMp4First();
    LeastFreeUnique(empty.clips.items.Keys, "a.mp4", 0);
  }

  /**
   * Declaring `00:00:10`..`00:00:20` for `a.mp4` in an empty manifest creates
   * the video and names the clip `a_0.mp4`, with an unknown checksum.
   */
  lemma DeclareOnce()
    ensures AddToManifest(ManifestView(JString("1"), Empty()), "a.mp4", "00:00:10", "00:00:20", NO_CHECKSUM)
         == (true, TheView(NO_CHECKSUM))
  {
    var before := ManifestView(JString("1"), Empty());
    var empty := VideoEntry("a.mp4", Empty());
    assert EntryOrEmpty(before, "a.mp4") == empty;
    FirstClipName();
    assert !HasSpan(empty.clips, "00:00:10", "00:00:20");
    assert AddClip(empty, "00:00:10", "00:00:20", NO_CHECKSUM) == (true, TheView(NO_CHECKSUM).videos.items["a.mp4"]);
  }

  /** Declaring the same span a second time is rejected and changes nothing. */
  lemma DeclareAgain()
    ensures AddToManifest(TheView(NO_CHECKSUM), "a.mp4", "00:00:10", "00:00:20", NO_CHECKSUM)
         == (false, TheView(NO_CHECKSUM))
  {
    var view := TheView(NO_CHECKSUM);
    assert HasSpan(view.videos.items["a.mp4"].clips, "00:00:10", "00:00:20") by {
      assert view.videos.items["a.mp4"].clips.items["a_0.mp4"] == TheClip(NO_CHECKSUM);
    }
    AddToManifestEntry(view, "a.mp4", "00:00:10", "00:00:20", NO_CHECKSUM);
  }

  lemma TheManifestIsValid(sources: set<string>)
    requires "a.mp4" in sources
    ensures Validation.Validate(TheView(NO_CHECKSUM), sources)
  {
    Timestamps.RenderedTimeIsValid(0, 0, 10);
    Timestamps.RenderedTimeIsValid(0, 0, 20);
    assert Timestamps.Render(0, 0, 10) == "00:00:10" && Timestamps.Render(0, 0, 20) == "00:00:20";
    assert Validation.ClipIsWellFormed(TheClip(NO_CHECKSUM));
  }

  /** A manifest with one video holding one clip is processed in one iteration, on that clip. */
  lemma OneClipPairs(view: ManifestView, v: string, c: string)
    requires ViewValid(view) && view.videos.keys == [v] && view.videos.items[v].clips.keys == [c]
    ensures ClipPairs(view) == [(v, c)]
  {
    assert PairsFrom(view, 1) == [];
    assert VideoPairs(v, [c]) == [(v, c)];
    assert PairsFrom(view, 0) == VideoPairs(v, [c]) + PairsFrom(view, 1);
  }

  lemma TheManifestPairs(checksum: string)
    ensures ClipPairs(TheView(checksum)) == [("a.mp4", "a_0.mp4")]
  {
    var view := TheView(checksum);
    assert view.videos.keys == ["a.mp4"];
    assert view.videos.items["a.mp4"].clips.keys == ["a_0.mp4"];
    OneClipPairs(view, "a.mp4", "a_0.mp4");
  }

  /** Recording a checksum for `a_0.mp4` gives the manifest with that checksum. */
  lemma TheChecksumRecorded(checksum: string)
    ensures SetChecksum(TheView(NO_CHECKSUM), "a.mp4", "a_0.mp4", checksum) == TheView(checksum)
  {
    var entry := VideoEntry("a.mp4", Insert(Empty(), "a_0.mp4", TheClip(NO_CHECKSUM)));
    var entry' := VideoEntry("a.mp4", Insert(Empty(), "a_0.mp4", TheClip(checksum)));
    assert TheClip(NO_CHECKSUM).(checksum := checksum) == TheClip(checksum);
    InsertOverwrite(Empty(), "a_0.mp4", TheClip(NO_CHECKSUM), TheClip(checksum));
    assert WithChecksum(entry, "a_0.mp4", checksum) == entry';
    InsertOverwrite(Empty(), "a.mp4", entry, entry');
  }

  /** The one step of the loop: the output is missing, so ffmpeg is run and its file's hash recorded. */
  lemma TheClipIsMade(hash: Bytes -> string, materialize: (Outputs, Job) -> Outputs)
    requires "a_0.mp4" in materialize(map[], Job("a.mp4", "00:00:10", "00:00:20", "a_0.mp4"))
    ensures var made := materialize(map[], Job("a.mp4", "00:00:10", "00:00:20", "a_0.mp4"));
      Step(TheView(NO_CHECKSUM), map[], "a.mp4", "a_0.mp4", false, false, hash, materialize)
        == Completed(TheView(hash(made["a_0.mp4"])), made)
  {
    var made := materialize(map[], Job("a.mp4", "00:00:10", "00:00:20", "a_0.mp4"));
    var view := TheView(NO_CHECKSUM);
    assert ClipAt(view, "a.mp4", "a_0.mp4") == TheClip(NO_CHECKSUM);
    assert view.videos.items["a.mp4"].filename == "a.mp4";
    assert ShouldClip(TheClip(NO_CHECKSUM), map[], false, hash);
    TheChecksumRecorded(hash(made["a_0.mp4"]));
  }

  lemma TheManifestReconciles(hash: Bytes -> string, materialize: (Outputs, Job) -> Outputs)
    requires "a_0.mp4" in materialize(map[], Job("a.mp4", "00:00:10", "00:00:20", "a_0.mp4"))
    ensures var made := materialize(map[], Job("a.mp4", "00:00:10", "00:00:20", "a_0.mp4"));
      Reconcile(TheView(NO_CHECKSUM), map[], false, false, hash, materialize) == Completed(TheView(hash(made["a_0.mp4"])), made)
  {
    TheManifestPairs(NO_CHECKSUM);
    TheClipIsMade(hash, materialize);
    assert [("a.mp4", "a_0.mp4")][1..] == [];
  }

  /**
   * With `a.mp4` present and nothing in the output directory, `clip_command`
   * without overwriting runs ffmpeg once, on `a.mp4` from `00:00:10` to
   * `00:00:20` into `a_0.mp4`, records the hash of the file it made, and saves
   * the manifest with the old one as backup.
   */
  lemma ProduceOneClip(hash: Bytes -> string, materialize: (Outputs, Job) -> Outputs)
    requires "a_0.mp4" in materialize(map[], Job("a.mp4", "00:00:10", "00:00:20", "a_0.mp4"))
    ensures var made := materialize(map[], Job("a.mp4", "00:00:10", "00:00:20", "a_0.mp4"));
      ClipOutcome(ManifestFile(TheDocument(NO_CHECKSUM), None), {"a.mp4"}, map[], false, false, false, hash, materialize)
        == Returned(true, ManifestFile(TheDocument(hash(made["a_0.mp4"])), Some(TheDocument(NO_CHECKSUM))), made)
  {
    var made := materialize(map[], Job("a.mp4", "00:00:10", "00:00:20", "a_0.mp4"));
    TheDocumentReads(NO_CHECKSUM);
    TheDocumentReads(hash(made["a_0.mp4"]));
    TheManifestIsValid({"a.mp4"});
    TheManifestReconciles(hash, materialize);
  }
}
