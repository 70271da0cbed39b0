/**
 * `VideoClipperManifest.validate` (video_clipper.py:119-142): a read-only
 * search over the videos in dict order and, inside each video, over its
 * clips in dict order, stopping at the first video whose source file is
 * missing or the first clip whose start or end timestamp is malformed.
 *
 * Whether `input_dir / filename` is an existing file is the set `sources`
 * of file names (relative to the input directory) that are; the output
 * directory is not consulted by `validate`.
 */
module Validation {
  import opened Wrappers
  import opened Dicts
  import opened Timestamps
  import opened Manifests

  /** The reason `validate` gives for returning False. */
  datatype Problem =
    | MissingSource(video: string)
    | InvalidStart(video: string, clip: string)
    | InvalidEnd(video: string, clip: string)

  predicate ClipIsWellFormed(clip: VideoClip)
  {
    IsValidTimeFormat(clip.startTimestamp) && IsValidTimeFormat(clip.endTimestamp)
  }

  /** The start is checked before the end. */
  function ClipProblem(video: string, clip: VideoClip): Problem
  {
    if !IsValidTimeFormat(clip.startTimestamp) then InvalidStart(video, clip.filename)
    else InvalidEnd(video, clip.filename)
  }

  /** The inner loop of `validate` from the `i`-th clip of a video on: the first malformed clip, if any. */
  function FirstClipProblem(video: string, clips: Dict<VideoClip>, i: nat): (r: Option<Problem>)
    requires Dicts.Valid(clips) && i <= |clips.keys|
    ensures r.None? <==> forall j :: i <= j < |clips.keys| ==> ClipIsWellFormed(clips.items[clips.keys[j]])
    ensures r.Some? ==>
      exists j :: (i <= j < |clips.keys|
        && !ClipIsWellFormed(clips.items[clips.keys[j]])
        && r.value == ClipProblem(video, clips.items[clips.keys[j]])
        && forall j' :: i <= j' < j ==> ClipIsWellFormed(clips.items[clips.keys[j']]))
    decreases |clips.keys| - i
  {
    if i == |clips.keys| then None
    else
      var clip := clips.items[clips.keys[i]];
      if !ClipIsWellFormed(clip) then Some(ClipProblem(video, clip))
      else FirstClipProblem(video, clips, i + 1)
  }

  /** What `validate` finds wrong with one video: its source file, else its first malformed clip. */
  function VideoProblem(view: ManifestView, sources: set<string>, video: string): Option<Problem>
    requires ViewValid(view) && video in view.videos.items
  {
    if video !in sources then Some(MissingSource(video))
    else FirstClipProblem(video, view.videos.items[video].clips, 0)
  }

  /** The outer loop of `validate` from the `i`-th video on: the first problem, in iteration order. */
  function FirstProblem(view: ManifestView, sources: set<string>, i: nat): (r: Option<Problem>)
    requires ViewValid(view) && i <= |view.videos.keys|
    ensures r.None? <==> forall j :: i <= j < |view.videos.keys| ==> VideoProblem(view, sources, view.videos.keys[j]).None?
    ensures r.Some? ==>
      exists j :: (i <= j < |view.videos.keys|
        && r == VideoProblem(view, sources, view.videos.keys[j])
        && forall j' :: i <= j' < j ==> VideoProblem(view, sources, view.videos.keys[j']).None?)
    decreases |view.videos.keys| - i
  {
    if i == |view.videos.keys| then None
    else
      var problem := VideoProblem(view, sources, view.videos.keys[i]);
      if problem.Some? then problem else FirstProblem(view, sources, i + 1)
  }

  /** Every video's source file exists and every clip's start and end are well-formed timestamps. */
  ghost predicate AllValid(view: ManifestView, sources: set<string>)
  {
    forall v :: v in view.videos.items ==>
      && v in sources
      && forall c :: c in view.videos.items[v].clips.items ==> ClipIsWellFormed(view.videos.items[v].clips.items[c])
  }

  /** `validate`: True exactly when nothing is wrong. */
  function Validate(view: ManifestView, sources: set<string>): (ok: bool)
    requires ViewValid(view)
    ensures ok <==> AllValid(view, sources)
  {
    ValidateIsAllValid(view, sources);
    FirstProblem(view, sources, 0).None?
  }

  lemma FirstClipProblemNoneIff(video: string, clips: Dict<VideoClip>)
    requires Dicts.Valid(clips)
    ensures FirstClipProblem(video, clips, 0).None? <==> forall c :: c in clips.items ==> ClipIsWellFormed(clips.items[c])
  {
    if FirstClipProblem(video, clips, 0).None? {
      forall c | c in clips.items
        ensures ClipIsWellFormed(clips.items[c])
      {
        var j :| 0 <= j < |clips.keys| && clips.keys[j] == c;
      }
    }
  }

  lemma ValidateIsAllValid(view: ManifestView, sources: set<string>)
    requires ViewValid(view)
    ensures FirstProblem(view, sources, 0).None? <==> AllValid(view, sources)
  {
    forall v | v in view.videos.items
      ensures VideoProblem(view, sources, v).None? <==>
        (v in sources && forall c :: c in view.videos.items[v].clips.items ==> ClipIsWellFormed(view.videos.items[v].clips.items[c]))
    {
      FirstClipProblemNoneIff(v, view.videos.items[v].clips);
    }
    if FirstProblem(view, sources, 0).None? {
      forall v | v in view.videos.items
        ensures VideoProblem(view, sources, v).None?
      {
        var j :| 0 <= j < |view.videos.keys| && view.videos.keys[j] == v;
      }
    }
  }

  /**
    * A problem found in a video is real: it names that video, and a clip
    * problem names a clip of it, malformed in the way reported, of a video
    * whose source exists.
    */
  lemma VideoProblemIsReal(view: ManifestView, sources: set<string>, video: string)
    requires ViewValid(view) && video in view.videos.items
    ensures match VideoProblem(view, sources, video)
      case None => true
      case Some(MissingSource(v)) => v == video && v !in sources
      case Some(InvalidStart(v, c)) =>
        && v == video && v in sources && c in view.videos.items[v].clips.items
        && !IsValidTimeFormat(view.videos.items[v].clips.items[c].startTimestamp)
      case Some(InvalidEnd(v, c)) =>
        && v == video && v in sources && c in view.videos.items[v].clips.items
        && IsValidTimeFormat(view.videos.items[v].clips.items[c].startTimestamp)
        && !IsValidTimeFormat(view.videos.items[v].clips.items[c].endTimestamp)
  {
    var r := VideoProblem(view, sources, video);
    if r.Some? && video in sources {
      var clips := view.videos.items[video].clips;
      var k :| 0 <= k < |clips.keys| && !ClipIsWellFormed(clips.items[clips.keys[k]])
        && r.value == ClipProblem(video, clips.items[clips.keys[k]]);
      assert clips.items[clips.keys[k]].filename == clips.keys[k];
    }
  }
}
