/**
 * The two commands that change things, from the point where the manifest
 * document is loaded: `add_command` (video_clipper.py:316-347) and
 * `clip_command` (video_clipper.py:378-414), with `save_manifest`
 * (video_clipper.py:170-184) as the only way either writes the manifest.
 *
 * The manifest file is the document it holds and the document of its
 * `.backup` sibling, if any. Reading and writing JSON text, the ffmpeg probe
 * and the directory checks that come before the parse are not part of this
 * model.
 */
module Commands {
  import opened Wrappers
  import opened Documents
  import opened Timestamps
  import opened Manifests
  import opened Parsing
  import opened Validation
  import opened Reconciling

  /** The manifest file and its `.backup` sibling. */
  datatype ManifestFile = ManifestFile(content: Json, backup: Option<Json>)

  /**
   * `save_manifest`: nothing in a dry run; otherwise, unless told not to, the
   * current file is copied to the backup, then the manifest's `to_json` is written.
   */
  function SaveManifest(file: ManifestFile, view: ManifestView, noBackup: bool, dryrun: bool): ManifestFile
    requires ViewValid(view)
  {
    if dryrun then file
    else ManifestFile(ManifestToJson(view), if noBackup then file.backup else Some(file.content))
  }

  /**
   * A dry run leaves the file and its backup alone. Any other save writes a
   * document that reads back as the manifest saved, and the backup is the
   * previous document unless the backup was turned off.
   */
  lemma SaveManifestMeaning(file: ManifestFile, view: ManifestView, noBackup: bool, dryrun: bool)
    requires ViewValid(view)
    ensures var saved := SaveManifest(file, view, noBackup, dryrun);
      && (dryrun ==> saved == file)
      && (!dryrun ==> Parse(saved.content) == Success(view))
      && (!dryrun && !noBackup ==> saved.backup == Some(file.content))
      && (!dryrun && noBackup ==> saved.backup == file.backup)
  {
    if !dryrun {
      ParseToJson(view);
    }
  }

  // ---------------------------------------------------------------------
  // add_command

  /**
   * Why `add_command` returns False before it changes anything: a required key
   * is missing from the document (`parse_manifest` returns None), or a
   * timestamp check fails.
   */
  datatype AddRejection = Unreadable(error: ParseError) | BadStart | BadEnd | NotBefore

  /**
   * How `add_command` ends: it saves and returns True, returns False, or the
   * TypeError or AttributeError `parse_manifest` raises on a value of the wrong
   * type escapes it, with nothing saved.
   */
  datatype AddResult = Saved(file: ManifestFile) | Refused(reason: AddRejection) | AddRaised

  /** The checks of `add_command` on the new clip's timestamps, in order: each well-formed, and start < end as strings. */
  function CheckSpan(start: string, end: string): Option<AddRejection>
  {
    if !IsValidTimeFormat(start) then Some(BadStart)
    else if !IsValidTimeFormat(end) then Some(BadEnd)
    else if !LexLess(start, end) then Some(NotBefore)
    else None
  }

  /**
   * `add_command` from the loaded document on: parse, check the timestamps,
   * declare the clip with an unknown checksum, and save. It saves and reports
   * success even when the span was already declared and nothing was added.
   */
  function AddOutcome(file: ManifestFile, videoFilename: string, start: string, end: string, noBackup: bool)
    : AddResult
  {
    match Parse(file.content)
    case Failure(TypeMismatch) => AddRaised
    case Failure(e) => Refused(Unreadable(e))
    case Success(view) =>
      match CheckSpan(start, end)
      case Some(rejection) => Refused(rejection)
      case None =>
        var added := AddToManifest(view, videoFilename, start, end, NO_CHECKSUM);
        Saved(SaveManifest(file, added.1, noBackup, false))
  }

  /**
   * `add_command` raises exactly when parsing, in document order, meets a value
   * it cannot test or index before any missing key, and saves exactly when the document parses and both timestamps are
   * well-formed with the start earlier in time than the end; the saved document
   * then reads back as the manifest with the clip declared, and a span declared
   * before leaves the manifest read back as it was.
   */
  lemma AddOutcomeMeaning(file: ManifestFile, videoFilename: string, start: string, end: string, noBackup: bool)
    ensures var r := AddOutcome(file, videoFilename, start, end, noBackup);
      && (r.AddRaised? <==> Parse(file.content) == Failure(TypeMismatch))
      && (r.Refused? && r.reason.Unreadable? <==> Parse(file.content).Failure? && Parse(file.content).error != TypeMismatch)
      && (r.Saved? <==> Parse(file.content).Success? && IsValidTimeFormat(start) && IsValidTimeFormat(end) && LexLess(start, end))
      && (r.Saved? ==>
        var view := Parse(file.content).value;
        && (Hours(start), Minutes(start), Seconds(start)) != (Hours(end), Minutes(end), Seconds(end))
        && (|| Hours(start) < Hours(end)
            || (Hours(start) == Hours(end) && Minutes(start) < Minutes(end))
            || (Hours(start) == Hours(end) && Minutes(start) == Minutes(end) && Seconds(start) < Seconds(end)))
        && Parse(r.file.content) == Success(AddToManifest(view, videoFilename, start, end, NO_CHECKSUM).1)
        && (!noBackup ==> r.file.backup == Some(file.content))
        && (videoFilename in view.videos.items && HasSpan(view.videos.items[videoFilename].clips, start, end) ==>
              Parse(r.file.content) == Parse(file.content)))
  {
    var r := AddOutcome(file, videoFilename, start, end, noBackup);
    var parsed := Parse(file.content);
    if parsed.Failure? {
      assert r == (if parsed.error == TypeMismatch then AddRaised else Refused(Unreadable(parsed.error)));
    } else {
      assert r.Refused? ==> !r.reason.Unreadable?;
    }
    if r.Saved? {
      var view := Parse(file.content).value;
      LexLessIsTimeOrder(start, end);
      var added := AddToManifest(view, videoFilename, start, end, NO_CHECKSUM);
      SaveManifestMeaning(file, added.1, noBackup, false);
      AddToManifestEntry(view, videoFilename, start, end, NO_CHECKSUM);
    }
  }

  /** `add_command` as the program runs it, on the manifest object `parse_manifest` builds. */
  method AddCommand(file: ManifestFile, videoFilename: string, start: string, end: string, noBackup: bool)
    returns (r: AddResult)
    ensures r == AddOutcome(file, videoFilename, start, end, noBackup)
  {
    var parsed := ParseManifest(file.content);
    if parsed.Failure? {
      if parsed.error == TypeMismatch {
        return AddRaised;
      }
      return Refused(Unreadable(parsed.error));
    }
    var manifest := parsed.value;
    if !IsValidTimeFormat(start) {
      return Refused(BadStart);
    }
    if !IsValidTimeFormat(end) {
      return Refused(BadEnd);
    }
    if !LexLess(start, end) {
      return Refused(NotBefore);
    }
    var _ := manifest.AddNewClip(videoFilename, start, end, NO_CHECKSUM);
    return Saved(SaveManifest(file, manifest.Model(), noBackup, false));
  }

  // ---------------------------------------------------------------------
  // clip_command

  /**
   * How `clip_command` ends: it returns True or False, or an exception escapes
   * it before anything is saved: the TypeError or AttributeError
   * `parse_manifest` raises on a value of the wrong type, or the
   * FileNotFoundError of hashing a missing output.
   */
  datatype ClipResult = Returned(ok: bool, file: ManifestFile, outputs: Outputs) | Raised(file: ManifestFile, outputs: Outputs)

  /**
   * `clip_command` from the loaded document on: parse, validate against the
   * existing source files `sources`, refuse an empty manifest, run the loop and
   * save. The dry-run flag is passed as `no_backup` as well, so the `--no-backup`
   * flag `noBackup` goes unused and outside a dry run a backup is always made.
   */
  function ClipOutcome(file: ManifestFile, sources: set<string>, outputs: Outputs, overwrite: bool, dryrun: bool,
                       noBackup: bool, hash: Bytes -> string, materialize: (Outputs, Job) -> Outputs): ClipResult
  {
    match Parse(file.content)
    case Failure(TypeMismatch) => Raised(file, outputs)
    case Failure(_) => Returned(false, file, outputs)
    case Success(view) =>
      if !Validate(view, sources) then Returned(false, file, outputs)
      else if |view.videos.keys| == 0 then Returned(false, file, outputs)
      else
        match Reconcile(view, outputs, overwrite, dryrun, hash, materialize)
        case Crashed(after) => Raised(file, after)
        case Completed(reconciled, after) => Returned(true, SaveManifest(file, reconciled, dryrun, dryrun), after)
  }

  /**
   * How `clip_command` ends: an exception escapes exactly when parsing
   * meets, in document order, a value it cannot test or index before any
   * missing key, or a completed parse is followed by a loop
   * that crashes; it returns False exactly when a key is missing, validation
   * fails or there is no video; and only a True return writes the manifest.
   */
  lemma ClipOutcomeCases(file: ManifestFile, sources: set<string>, outputs: Outputs, overwrite: bool, dryrun: bool,
                         noBackup: bool, hash: Bytes -> string, materialize: (Outputs, Job) -> Outputs)
    ensures var r := ClipOutcome(file, sources, outputs, overwrite, dryrun, noBackup, hash, materialize);
      && (r.Raised? <==>
            || Parse(file.content) == Failure(TypeMismatch)
            || (&& Parse(file.content).Success? && Validate(Parse(file.content).value, sources)
                && |Parse(file.content).value.videos.keys| > 0
                && Reconcile(Parse(file.content).value, outputs, overwrite, dryrun, hash, materialize).Crashed?))
      && (r.Returned? && !r.ok <==>
            || (Parse(file.content).Failure? && Parse(file.content).error != TypeMismatch)
            || (Parse(file.content).Success? && !Validate(Parse(file.content).value, sources))
            || (Parse(file.content).Success? && |Parse(file.content).value.videos.keys| == 0))
      && (!(r.Returned? && r.ok) ==> r.file == file)
      && (r.Returned? && !r.ok ==> r.outputs == outputs)
  {
    var parsed := Parse(file.content);
    var r := ClipOutcome(file, sources, outputs, overwrite, dryrun, noBackup, hash, materialize);
    if parsed.Failure? {
      assert r == (if parsed.error == TypeMismatch then Raised(file, outputs) else Returned(false, file, outputs));
    } else if !Validate(parsed.value, sources) || |parsed.value.videos.keys| == 0 {
      assert r == Returned(false, file, outputs);
    } else {
      var run := Reconcile(parsed.value, outputs, overwrite, dryrun, hash, materialize);
      assert r == if run.Crashed? then Raised(file, run.outputs)
                  else Returned(true, SaveManifest(file, run.view, dryrun, dryrun), run.outputs);
    }
  }

  /** A dry run leaves the manifest file, its backup and the output directory as they were, and never runs ffmpeg. */
  lemma ClipDryRunChangesNothing(file: ManifestFile, sources: set<string>, outputs: Outputs, overwrite: bool, noBackup: bool,
                                 hash: Bytes -> string, materialize: (Outputs, Job) -> Outputs)
    ensures var r := ClipOutcome(file, sources, outputs, overwrite, true, noBackup, hash, materialize);
      && (r.Returned? <==> Parse(file.content) != Failure(TypeMismatch))
      && r.file == file && r.outputs == outputs
  {
    var parsed := Parse(file.content);
    var r := ClipOutcome(file, sources, outputs, overwrite, true, noBackup, hash, materialize);
    if parsed.Failure? {
      assert r == (if parsed.error == TypeMismatch then Raised(file, outputs) else Returned(false, file, outputs));
    } else {
      DryRunChangesNothing(parsed.value, outputs, overwrite, hash, materialize);
    }
  }

  /**
   * A successful run that is not a dry run writes the reconciled manifest, with
   * the previous document as backup even when `--no-backup` was given; the clips, their names and timestamps are
   * those of the document read, and only checksums may differ.
   */
  lemma ClipSavesReconciled(file: ManifestFile, sources: set<string>, outputs: Outputs, overwrite: bool, noBackup: bool,
                            hash: Bytes -> string, materialize: (Outputs, Job) -> Outputs)
    requires ClipOutcome(file, sources, outputs, overwrite, false, noBackup, hash, materialize).Returned?
    requires ClipOutcome(file, sources, outputs, overwrite, false, noBackup, hash, materialize).ok
    ensures var r := ClipOutcome(file, sources, outputs, overwrite, false, noBackup, hash, materialize);
      && Parse(file.content).Success?
      && r.file.backup == Some(file.content)
      && Parse(r.file.content).Success?
      && SameShape(Parse(file.content).value, Parse(r.file.content).value)
  {
    var view := Parse(file.content).value;
    var reconciled := Reconcile(view, outputs, overwrite, false, hash, materialize).view;
    SaveManifestMeaning(file, reconciled, false, false);
  }

  /** Validation looks only at names and timestamps, so it does not see a change of checksums. */
  lemma ValidateIgnoresChecksums(a: ManifestView, b: ManifestView, sources: set<string>)
    requires ViewValid(a) && ViewValid(b) && SameShape(a, b)
    ensures Validate(a, sources) == Validate(b, sources)
  {
    assert forall v, c :: HasClip(a, v, c) ==> ClipIsWellFormed(ClipAt(a, v, c)) == ClipIsWellFormed(ClipAt(b, v, c));
  }

  /**
   * Running `clip_command` again after a successful run, on the files it left,
   * with ffmpeg writing only the file it is asked for (and, with overwriting on,
   * no two clips sharing an output file), does nothing: ffmpeg is not run,
   * whatever it would do, the output directory is unchanged, and the manifest
   * document written is the one already there.
   */
  lemma ClipTwice(file: ManifestFile, sources: set<string>, outputs: Outputs, overwrite: bool, dryrun: bool, noBackup: bool,
                  hash: Bytes -> string, materialize: (Outputs, Job) -> Outputs, again: (Outputs, Job) -> Outputs)
    requires OnlyWritesDestination(materialize)
    requires Parse(file.content).Success? && (overwrite ==> DistinctOutputs(Parse(file.content).value))
    requires ClipOutcome(file, sources, outputs, overwrite, false, noBackup, hash, materialize).Returned?
    requires ClipOutcome(file, sources, outputs, overwrite, false, noBackup, hash, materialize).ok
    ensures var first := ClipOutcome(file, sources, outputs, overwrite, false, noBackup, hash, materialize);
      var second := ClipOutcome(first.file, sources, first.outputs, overwrite, dryrun, noBackup, hash, again);
      && second.Returned? && second.ok
      && second.outputs == first.outputs
      && second.file.content == first.file.content
  {
    var view := Parse(file.content).value;
    var first := ClipOutcome(file, sources, outputs, overwrite, false, noBackup, hash, materialize);
    var run := Reconcile(view, outputs, overwrite, false, hash, materialize);
    ReconcileIdempotent(view, outputs, overwrite, dryrun, hash, materialize, again);
    ReconcileKeepsShape(view, outputs, overwrite, false, hash, materialize);
    SaveManifestMeaning(file, run.view, false, false);
    assert Parse(first.file.content) == Success(run.view);
    ValidateIgnoresChecksums(view, run.view, sources);
  }

  /** `clip_command` as the program runs it: the parsed manifest object is reconciled in place, then saved. */
  method ClipCommand(file: ManifestFile, sources: set<string>, outputs: Outputs, overwrite: bool, dryrun: bool, noBackup: bool,
                     hash: Bytes -> string, materialize: (Outputs, Job) -> Outputs)
    returns (r: ClipResult)
    ensures r == ClipOutcome(file, sources, outputs, overwrite, dryrun, noBackup, hash, materialize)
  {
    var parsed := ParseManifest(file.content);
    if parsed.Failure? {
      if parsed.error == TypeMismatch {
        return Raised(file, outputs);
      }
      return Returned(false, file, outputs);
    }
    var manifest := parsed.value;
    if !Validate(manifest.Model(), sources) {
      return Returned(false, file, outputs);
    }
    if |manifest.videoFiles.keys| == 0 {
      return Returned(false, file, outputs);
    }
    var crashed, after := ReconcileClips(manifest, outputs, overwrite, dryrun, hash, materialize);
    if crashed {
      return Raised(file, after);
    }
    return Returned(true, SaveManifest(file, manifest.Model(), dryrun, dryrun), after);
  }
}
