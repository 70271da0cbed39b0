/**
 * Reconciling the manifest with the output directory: `should_clip_video`
 * (video_clipper.py:239-262) and the loop of `clip_command` over every clip
 * (video_clipper.py:391-410).
 *
 * The output directory is a map from file name to contents. SHA-256 is a
 * function `hash` from contents to a digest string, and ffmpeg is a function
 * `materialize` from the directory and the job it is given to the directory
 * afterwards; nothing is assumed of either unless a lemma says so. A clip's
 * output path is `output_dir / clip.filename`, so its file is the entry under
 * `clip.filename`.
 */
module Reconciling {
  import opened Dicts
  import opened Manifests

  type Bytes = seq<bv8>

  /** The files of the output directory, by name. */
  type Outputs = map<string, Bytes>

  /** What `clip_video` asks ffmpeg for: cut `start`..`end` of `source` (under the input directory) into `destination`. */
  datatype Job = Job(source: string, start: string, end: string, destination: string)

  /**
   * The four rows of the decision table of `should_clip_video`: no output file;
   * an output kept because overwriting is off (its hash is never computed); an
   * output whose hash is the recorded one; an output whose hash `found` differs.
   */
  datatype Decision = NoOutput | Kept | Unchanged | Drifted(found: string)

  function Decide(clip: VideoClip, outputs: Outputs, overwrite: bool, hash: Bytes -> string): Decision
  {
    if clip.filename !in outputs then NoOutput
    else if !overwrite then Kept
    else
      var current := hash(outputs[clip.filename]);
      if current == clip.checksum then Unchanged else Drifted(current)
  }

  /** `should_clip_video`: the clip is (re)made when its output is missing or, if overwriting is allowed, has drifted. */
  predicate ShouldClip(clip: VideoClip, outputs: Outputs, overwrite: bool, hash: Bytes -> string)
  {
    Decide(clip, outputs, overwrite, hash).NoOutput? || Decide(clip, outputs, overwrite, hash).Drifted?
  }

  /**
    * The decision table row by row: a missing output is made; an existing one is
    * kept when overwriting is off, whatever the hash function; with overwriting on
    * it is remade exactly when its current hash differs from the recorded checksum,
    * which is then reported.
    */
  lemma ShouldClipTable(clip: VideoClip, outputs: Outputs, overwrite: bool, hash: Bytes -> string, other: Bytes -> string)
    ensures clip.filename !in outputs ==> ShouldClip(clip, outputs, overwrite, hash)
    ensures clip.filename in outputs && !overwrite ==>
      && !ShouldClip(clip, outputs, overwrite, hash)
      && Decide(clip, outputs, overwrite, hash) == Decide(clip, outputs, overwrite, other) == Kept
    ensures clip.filename in outputs && overwrite ==>
      && (ShouldClip(clip, outputs, overwrite, hash) <==> hash(outputs[clip.filename]) != clip.checksum)
      && (ShouldClip(clip, outputs, overwrite, hash) ==> Decide(clip, outputs, overwrite, hash) == Drifted(hash(outputs[clip.filename])))
  {
  }

  // ---------------------------------------------------------------------
  // The clips in the order the loop visits them (video_clipper.py:391-395)

  /**
   * `(video, clip)` for each clip of the video `v`, in the clips dict's order:
   * the pairs are exactly the clips of `v`, each once when the keys are distinct.
   */
  function VideoPairs(v: string, clipKeys: seq<string>): (pairs: seq<(string, string)>)
    ensures |pairs| == |clipKeys|
    ensures forall i :: 0 <= i < |pairs| ==> pairs[i] == (v, clipKeys[i])
    ensures forall w, c :: (w, c) in pairs <==> w == v && c in clipKeys
    ensures Dicts.Distinct(clipKeys) ==> forall i, j :: 0 <= i < j < |pairs| ==> pairs[i] != pairs[j]
  {
    assert Dicts.Distinct(clipKeys) ==> forall i, j :: 0 <= i < j < |clipKeys| ==> clipKeys[i] != clipKeys[j] by {
      if Dicts.Distinct(clipKeys) {
        forall i, j | 0 <= i < j < |clipKeys|
          ensures clipKeys[i] != clipKeys[j]
        {
          DistinctIndices(clipKeys, i, j);
        }
      }
    }
    seq(|clipKeys|, i requires 0 <= i < |clipKeys| => (v, clipKeys[i]))
  }

  /** Every pair names a clip of the manifest. */
  ghost predicate PairsIn(view: ManifestView, pairs: seq<(string, string)>)
  {
    forall p :: p in pairs ==> HasClip(view, p.0, p.1)
  }

  /** The pairs of the videos from the `i`-th on, video by video. */
  function PairsFrom(view: ManifestView, i: nat): (pairs: seq<(string, string)>)
    requires ViewValid(view) && i <= |view.videos.keys|
    ensures PairsIn(view, pairs)
    ensures forall v, c :: HasClip(view, v, c) && v in view.videos.keys[i..] ==> (v, c) in pairs
    decreases |view.videos.keys| - i
  {
    if i == |view.videos.keys| then []
    else
      var v := view.videos.keys[i];
      var rest := PairsFrom(view, i + 1);
      var here := VideoPairs(v, view.videos.items[v].clips.keys);
      assert forall c :: c in view.videos.items[v].clips.items ==> (v, c) in here by {
        forall c | c in view.videos.items[v].clips.items
          ensures (v, c) in here
        {
          var j :| 0 <= j < |view.videos.items[v].clips.keys| && view.videos.items[v].clips.keys[j] == c;
          assert here[j] == (v, c);
        }
      }
      assert forall w :: w in view.videos.keys[i..] ==> w == v || w in view.videos.keys[i + 1..];
      here + rest
  }

  /**
   * `all_clips_with_file`: every clip of the manifest, videos in their dict's
   * order and the clips of each video in theirs. Each pair names a clip, and
   * every clip is named.
   */
  function ClipPairs(view: ManifestView): (pairs: seq<(string, string)>)
    requires ViewValid(view)
    ensures PairsIn(view, pairs)
    ensures forall v, c :: HasClip(view, v, c) ==> (v, c) in pairs
  {
    assert view.videos.keys[0..] == view.videos.keys;
    PairsFrom(view, 0)
  }

  /** The order of the loop depends only on the names, which recording checksums does not change. */
  lemma {:induction false} SameShapeSamePairs(a: ManifestView, b: ManifestView, i: nat)
    requires ViewValid(a) && ViewValid(b) && SameShape(a, b) && i <= |a.videos.keys|
    ensures PairsFrom(a, i) == PairsFrom(b, i)
    decreases |a.videos.keys| - i
  {
    if i < |a.videos.keys| {
      var v := a.videos.keys[i];
      assert v in a.videos.items && SameClips(a.videos.items[v], b.videos.items[v]);
      assert VideoPairs(v, a.videos.items[v].clips.keys) == VideoPairs(v, b.videos.items[v].clips.keys);
      SameShapeSamePairs(a, b, i + 1);
    }
  }

  // ---------------------------------------------------------------------
  // The loop as a function

  /** Manifests of the same shape have the same clips, under the same output names. */
  lemma SameShapePairsIn(a: ManifestView, b: ManifestView, pairs: seq<(string, string)>)
    requires SameShape(a, b) && PairsIn(a, pairs) && |pairs| > 0
    ensures PairsIn(b, pairs[1..])
    ensures DistinctOutputs(a) ==> DistinctOutputs(b)
  {
    assert forall v, c :: HasClip(a, v, c) <==> HasClip(b, v, c);
    assert forall v, c :: HasClip(a, v, c) ==> ClipAt(a, v, c).filename == ClipAt(b, v, c).filename;
  }

  /** How the loop ends: it runs to the end, or hashing an output ffmpeg did not leave behind raises FileNotFoundError. */
  datatype Outcome = Completed(view: ManifestView, outputs: Outputs) | Crashed(outputs: Outputs)

  /**
   * One iteration (video_clipper.py:398-410): nothing unless the decision table
   * says to make the clip; in a dry run nothing either; otherwise ffmpeg is run
   * on the clip's timestamps, from the video's file to the clip's, and the clip's
   * checksum becomes the hash of whatever file is there afterwards.
   */
  function Step(view: ManifestView, outputs: Outputs, v: string, c: string, overwrite: bool, dryrun: bool,
                hash: Bytes -> string, materialize: (Outputs, Job) -> Outputs): (r: Outcome)
    requires ViewValid(view) && HasClip(view, v, c)
    ensures r.Completed? ==> ViewValid(r.view) && SameShape(view, r.view)
  {
    var clip := ClipAt(view, v, c);
    if !ShouldClip(clip, outputs, overwrite, hash) || dryrun then Completed(view, outputs)
    else
      var after := materialize(outputs, Job(view.videos.items[v].filename, clip.startTimestamp, clip.endTimestamp, clip.filename));
      if clip.filename !in after then Crashed(after)
      else
        SetChecksumEffect(view, v, c, hash(after[clip.filename]));
        Completed(SetChecksum(view, v, c, hash(after[clip.filename])), after)
  }

  /** The loop over the remaining `pairs`, each step seeing the manifest and directory the steps before it left. */
  function RunFrom(view: ManifestView, outputs: Outputs, pairs: seq<(string, string)>, overwrite: bool, dryrun: bool,
                   hash: Bytes -> string, materialize: (Outputs, Job) -> Outputs): (r: Outcome)
    requires ViewValid(view) && PairsIn(view, pairs)
    ensures r.Completed? ==> ViewValid(r.view) && SameShape(view, r.view)
    decreases |pairs|
  {
    if |pairs| == 0 then Completed(view, outputs)
    else
      match Step(view, outputs, pairs[0].0, pairs[0].1, overwrite, dryrun, hash, materialize)
      case Crashed(after) => Crashed(after)
      case Completed(next, after) =>
        var r := RunFrom(next, after, pairs[1..], overwrite, dryrun, hash, materialize);
        if r.Completed? then SameShapeTransitive(view, next, r.view); r else r
  }

  /** The reconcile loop of `clip_command` over every clip of the manifest. */
  function Reconcile(view: ManifestView, outputs: Outputs, overwrite: bool, dryrun: bool,
                     hash: Bytes -> string, materialize: (Outputs, Job) -> Outputs): Outcome
    requires ViewValid(view)
  {
    RunFrom(view, outputs, ClipPairs(view), overwrite, dryrun, hash, materialize)
  }

  // ---------------------------------------------------------------------
  // What the loop guarantees

  /** A dry run never runs ffmpeg and changes neither the manifest nor the output directory. */
  lemma {:induction false} DryRunFromChangesNothing(view: ManifestView, outputs: Outputs, pairs: seq<(string, string)>,
                                                    overwrite: bool, hash: Bytes -> string, materialize: (Outputs, Job) -> Outputs)
    requires ViewValid(view) && PairsIn(view, pairs)
    ensures RunFrom(view, outputs, pairs, overwrite, true, hash, materialize) == Completed(view, outputs)
    decreases |pairs|
  {
    if |pairs| > 0 {
      DryRunFromChangesNothing(view, outputs, pairs[1..], overwrite, hash, materialize);
    }
  }

  lemma DryRunChangesNothing(view: ManifestView, outputs: Outputs, overwrite: bool,
                             hash: Bytes -> string, materialize: (Outputs, Job) -> Outputs)
    requires ViewValid(view)
    ensures Reconcile(view, outputs, overwrite, true, hash, materialize) == Completed(view, outputs)
  {
    DryRunFromChangesNothing(view, outputs, ClipPairs(view), overwrite, hash, materialize);
  }

  /** The loop changes no name, timestamp or order: at most checksums are rewritten. */
  lemma ReconcileKeepsShape(view: ManifestView, outputs: Outputs, overwrite: bool, dryrun: bool,
                            hash: Bytes -> string, materialize: (Outputs, Job) -> Outputs)
    requires ViewValid(view)
    ensures var r := Reconcile(view, outputs, overwrite, dryrun, hash, materialize);
      r.Completed? ==> ViewValid(r.view) && SameShape(view, r.view) && ClipPairs(r.view) == ClipPairs(view)
  {
    var r := Reconcile(view, outputs, overwrite, dryrun, hash, materialize);
    if r.Completed? {
      SameShapeSamePairs(view, r.view, 0);
    }
  }

  /**
   * A clip is settled when its output file exists and, if overwriting is on,
   * the recorded checksum is the hash of that file: `should_clip_video` then
   * leaves it alone.
   */
  ghost predicate Settled(view: ManifestView, outputs: Outputs, overwrite: bool, hash: Bytes -> string, v: string, c: string)
    requires HasClip(view, v, c)
  {
    var clip := ClipAt(view, v, c);
    clip.filename in outputs && (overwrite ==> clip.checksum == hash(outputs[clip.filename]))
  }

  /** Over settled clips the loop does nothing, whatever ffmpeg would do and whether or not it is a dry run. */
  lemma {:induction false} RunFromIdle(view: ManifestView, outputs: Outputs, pairs: seq<(string, string)>, overwrite: bool,
                                       dryrun: bool, hash: Bytes -> string, materialize: (Outputs, Job) -> Outputs)
    requires ViewValid(view) && PairsIn(view, pairs)
    requires forall p :: p in pairs ==> Settled(view, outputs, overwrite, hash, p.0, p.1)
    ensures RunFrom(view, outputs, pairs, overwrite, dryrun, hash, materialize) == Completed(view, outputs)
    decreases |pairs|
  {
    if |pairs| > 0 {
      assert Settled(view, outputs, overwrite, hash, pairs[0].0, pairs[0].1);
      assert !ShouldClip(ClipAt(view, pairs[0].0, pairs[0].1), outputs, overwrite, hash);
      RunFromIdle(view, outputs, pairs[1..], overwrite, dryrun, hash, materialize);
    }
  }

  /** ffmpeg writes (or removes) its destination file and leaves every other file of the directory as it was. */
  ghost predicate OnlyWritesDestination(materialize: (Outputs, Job) -> Outputs)
  {
    forall outputs: Outputs, job: Job :: materialize(outputs, job) - {job.destination} == outputs - {job.destination}
  }

  /** No two clips of the manifest, in the same video or in different ones, share an output file. */
  ghost predicate DistinctOutputs(view: ManifestView)
  {
    forall v, w, c, d :: HasClip(view, v, c) && HasClip(view, w, d) && (v, c) != (w, d) ==>
      ClipAt(view, v, c).filename != ClipAt(view, w, d).filename
  }

  lemma OtherFileKept(materialize: (Outputs, Job) -> Outputs, outputs: Outputs, job: Job, f: string)
    requires OnlyWritesDestination(materialize) && f != job.destination
    ensures f in materialize(outputs, job) <==> f in outputs
    ensures f in outputs ==> materialize(outputs, job)[f] == outputs[f]
  {
    var after := materialize(outputs, job);
    assert after - {job.destination} == outputs - {job.destination};
    assert f in after <==> f in after - {job.destination};
    assert f in outputs <==> f in outputs - {job.destination};
    if f in outputs {
      assert (after - {job.destination})[f] == after[f];
      assert (outputs - {job.destination})[f] == outputs[f];
    }
  }

  /** One step settles its own clip and unsettles none of the clips settled before it. */
  lemma StepSettles(view: ManifestView, outputs: Outputs, pairs: seq<(string, string)>, overwrite: bool,
                    hash: Bytes -> string, materialize: (Outputs, Job) -> Outputs)
    requires ViewValid(view) && PairsIn(view, pairs) && |pairs| > 0
    requires OnlyWritesDestination(materialize)
    requires overwrite ==> DistinctOutputs(view)
    requires forall v, c :: HasClip(view, v, c) && (v, c) !in pairs ==> Settled(view, outputs, overwrite, hash, v, c)
    requires Step(view, outputs, pairs[0].0, pairs[0].1, overwrite, false, hash, materialize).Completed?
    ensures var s := Step(view, outputs, pairs[0].0, pairs[0].1, overwrite, false, hash, materialize);
      forall v, c :: HasClip(s.view, v, c) && (v, c) !in pairs[1..] ==> Settled(s.view, s.outputs, overwrite, hash, v, c)
  {
    var (v0, c0) := pairs[0];
    var clip0 := ClipAt(view, v0, c0);
    var s := Step(view, outputs, v0, c0, overwrite, false, hash, materialize);
    if ShouldClip(clip0, outputs, overwrite, hash) {
      var job := Job(view.videos.items[v0].filename, clip0.startTimestamp, clip0.endTimestamp, clip0.filename);
      SetChecksumEffect(view, v0, c0, hash(s.outputs[clip0.filename]));
      forall v, c | HasClip(s.view, v, c) && (v, c) !in pairs[1..]
        ensures Settled(s.view, s.outputs, overwrite, hash, v, c)
      {
        if (v, c) != (v0, c0) {
          assert (v, c) !in pairs;
          var clip := ClipAt(view, v, c);
          assert ClipAt(s.view, v, c) == clip;
          if clip.filename != clip0.filename {
            OtherFileKept(materialize, outputs, job, clip.filename);
          }
        }
      }
    } else {
      forall v, c | HasClip(s.view, v, c) && (v, c) !in pairs[1..]
        ensures Settled(s.view, s.outputs, overwrite, hash, v, c)
      {
        if (v, c) != (v0, c0) {
          assert (v, c) !in pairs;
        }
      }
    }
  }

  lemma {:induction false} RunFromSettles(view: ManifestView, outputs: Outputs, pairs: seq<(string, string)>, overwrite: bool,
                                          hash: Bytes -> string, materialize: (Outputs, Job) -> Outputs)
    requires ViewValid(view) && PairsIn(view, pairs)
    requires OnlyWritesDestination(materialize)
    requires overwrite ==> DistinctOutputs(view)
    requires forall v, c :: HasClip(view, v, c) && (v, c) !in pairs ==> Settled(view, outputs, overwrite, hash, v, c)
    requires RunFrom(view, outputs, pairs, overwrite, false, hash, materialize).Completed?
    ensures var r := RunFrom(view, outputs, pairs, overwrite, false, hash, materialize);
      forall v, c :: HasClip(r.view, v, c) ==> Settled(r.view, r.outputs, overwrite, hash, v, c)
    decreases |pairs|
  {
    if |pairs| > 0 {
      StepSettles(view, outputs, pairs, overwrite, hash, materialize);
      var s := Step(view, outputs, pairs[0].0, pairs[0].1, overwrite, false, hash, materialize);
      SameShapePairsIn(view, s.view, pairs);
      assert RunFrom(view, outputs, pairs, overwrite, false, hash, materialize)
          == RunFrom(s.view, s.outputs, pairs[1..], overwrite, false, hash, materialize);
      RunFromSettles(s.view, s.outputs, pairs[1..], overwrite, hash, materialize);
    }
  }

  /**
   * A run that completes, with ffmpeg touching only the file it is asked for,
   * leaves every clip settled: each output exists and, when overwriting is on and
   * no two clips share an output file, every recorded checksum is the hash of
   * the clip's file.
   */
  lemma ReconcileSettles(view: ManifestView, outputs: Outputs, overwrite: bool,
                         hash: Bytes -> string, materialize: (Outputs, Job) -> Outputs)
    requires ViewValid(view)
    requires OnlyWritesDestination(materialize)
    requires overwrite ==> DistinctOutputs(view)
    requires Reconcile(view, outputs, overwrite, false, hash, materialize).Completed?
    ensures var r := Reconcile(view, outputs, overwrite, false, hash, materialize);
      forall v, c :: HasClip(r.view, v, c) ==> Settled(r.view, r.outputs, overwrite, hash, v, c)
  {
    RunFromSettles(view, outputs, ClipPairs(view), overwrite, hash, materialize);
  }

  /**
   * Running the loop a second time over what a completed run left does nothing:
   * ffmpeg is not invoked again (whatever it would do) and neither the manifest
   * nor the output directory changes, with or without overwriting.
   */
  lemma ReconcileIdempotent(view: ManifestView, outputs: Outputs, overwrite: bool, dryrun: bool,
                            hash: Bytes -> string, materialize: (Outputs, Job) -> Outputs,
                            again: (Outputs, Job) -> Outputs)
    requires ViewValid(view)
    requires OnlyWritesDestination(materialize)
    requires overwrite ==> DistinctOutputs(view)
    requires Reconcile(view, outputs, overwrite, false, hash, materialize).Completed?
    ensures var r := Reconcile(view, outputs, overwrite, false, hash, materialize);
      Reconcile(r.view, r.outputs, overwrite, dryrun, hash, again) == Completed(r.view, r.outputs)
  {
    var r := Reconcile(view, outputs, overwrite, false, hash, materialize);
    ReconcileSettles(view, outputs, overwrite, hash, materialize);
    RunFromIdle(r.view, r.outputs, ClipPairs(r.view), overwrite, dryrun, hash, again);
  }

  // ---------------------------------------------------------------------
  // The loop as the program runs it: checksums recorded in the clip objects

  /**
   * One iteration of the loop of `clip_command` (video_clipper.py:397-410) on a
   * manifest object: the decision, then, outside a dry run, ffmpeg and the new
   * checksum stored in the clip object.
   */
  method ProcessClip(manifest: Manifest, outputs: Outputs, v: string, c: string, overwrite: bool, dryrun: bool,
                     hash: Bytes -> string, materialize: (Outputs, Job) -> Outputs)
    returns (crashed: bool, after: Outputs)
    requires manifest.Valid() && HasClip(manifest.Model(), v, c)
    modifies manifest.Repr
    ensures manifest.Valid() && manifest.Repr == old(manifest.Repr)
    ensures match Step(old(manifest.Model()), outputs, v, c, overwrite, dryrun, hash, materialize)
      case Completed(view, o) => !crashed && manifest.Model() == view && after == o
      case Crashed(o) => crashed && after == o
  {
    ghost var view := manifest.Model();
    var file := manifest.videoFiles.items[v];
    var clip := file.clips.items[c];
    assert clip == ClipAt(view, v, c) && file.filename == view.videos.items[v].filename;
    after := outputs;
    if !ShouldClip(clip, outputs, overwrite, hash) {
      return false, after;
    }
    if dryrun {
      return false, after;
    }
    after := materialize(outputs, Job(file.filename, clip.startTimestamp, clip.endTimestamp, clip.filename));
    if clip.filename !in after {
      return true, after;
    }
    manifest.RecordChecksum(v, c, hash(after[clip.filename]));
    return false, after;
  }

  /**
   * The loop of `clip_command` (video_clipper.py:391-410) over a manifest
   * object: the list of (video, clip) pairs is built first, then each clip is
   * decided on, made and rehashed in turn. `crashed` is the FileNotFoundError
   * of hashing a missing output; `after` is the output directory at the end.
   */
  method ReconcileClips(manifest: Manifest, outputs: Outputs, overwrite: bool, dryrun: bool,
                        hash: Bytes -> string, materialize: (Outputs, Job) -> Outputs)
    returns (crashed: bool, after: Outputs)
    requires manifest.Valid()
    modifies manifest.Repr
    ensures manifest.Valid() && manifest.Repr == old(manifest.Repr)
    ensures match Reconcile(old(manifest.Model()), outputs, overwrite, dryrun, hash, materialize)
      case Completed(view, o) => !crashed && manifest.Model() == view && after == o
      case Crashed(o) => crashed && after == o
  {
    ghost var view0 := manifest.Model();
    var pairs := ClipPairs(manifest.Model());
    after := outputs;
    var i := 0;
    assert pairs[0..] == pairs;
    while i < |pairs|
      invariant 0 <= i <= |pairs|
      invariant manifest.Valid() && manifest.Repr == old(manifest.Repr)
      invariant PairsIn(manifest.Model(), pairs[i..])
      invariant Reconcile(view0, outputs, overwrite, dryrun, hash, materialize)
             == RunFrom(manifest.Model(), after, pairs[i..], overwrite, dryrun, hash, materialize)
    {
      var (v, c) := pairs[i];
      ghost var view := manifest.Model();
      assert pairs[i..][0] == (v, c) && pairs[i..][1..] == pairs[i + 1..];
      var stopped;
      stopped, after := ProcessClip(manifest, after, v, c, overwrite, dryrun, hash, materialize);
      if stopped {
        return true, after;
      }
      SameShapePairsIn(view, manifest.Model(), pairs[i..]);
      i := i + 1;
    }
    return false, after;
  }
}
