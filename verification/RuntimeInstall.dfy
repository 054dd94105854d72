/** First-run installation of the Linux runtime and the verification behind it
    (crates/runtime-manager/src/install.rs and integrity.rs). */
module RuntimeInstall {
  import opened Prelude
  import opened Text

  // ---------------------------------------------------------------- files and manifests

  type Content = seq<nat>

  type Files = map<string, Content>

  /** What stands at a path: nothing, a link to a directory or to nothing, or a directory, told by
      the files below it. */
  datatype Place = Absent | Link(target: Option<Files>) | Directory(files: Files) {
    /** `exists()` and every read follow links. */
    predicate Exists() {
      Directory? || (Link? && target.Some?)
    }

    function Seen(): Files {
      match this
      case Directory(files) => files
      case Link(Some(files)) => files
      case _ => map[]
    }
  }

  datatype ManifestEntry = ManifestEntry(path: string, sha256: string, sizeBytes: nat, optional: bool)

  datatype Manifest = Manifest(runtimeVersion: string, files: seq<ManifestEntry>)

  /** Hashing, decompression and the manifest parser. */
  datatype Codec = Codec(sha256: Content -> string, decode: Content -> Option<Content>,
                         parse: Content -> Option<Manifest>)

  const RAW_IMAGE := "debian-base.raw"
  const COMPRESSED_IMAGE := "debian-base.raw.zst"
  const CHECKSUMS := "checksums.json"

  // ---------------------------------------------------------------- verification

  datatype FileVerdict = Intact | Missing | WrongSize | WrongHash | Unreadable

  /** `verify_one`, for a file that can be read. */
  function Verdict(codec: Codec, e: ManifestEntry, files: Files): FileVerdict {
    if e.path !in files then if e.optional then Intact else Missing
    else if |files[e.path]| != e.sizeBytes then WrongSize
    else if EqIgnoreCase(codec.sha256(files[e.path]), e.sha256) then Intact
    else WrongHash
  }

  function QuickVerdict(e: ManifestEntry, files: Files): FileVerdict {
    if e.path !in files then if e.optional then Intact else Missing
    else if |files[e.path]| != e.sizeBytes then WrongSize
    else Intact
  }

  ghost predicate Healthy(codec: Codec, entries: seq<ManifestEntry>, files: Files) {
    forall e :: e in entries ==> Verdict(codec, e, files) == Intact
  }

  ghost predicate QuickHealthy(entries: seq<ManifestEntry>, files: Files) {
    forall e :: e in entries ==> QuickVerdict(e, files) == Intact
  }

  predicate IsHealthy(report: seq<FileVerdict>) {
    forall i :: 0 <= i < |report| ==> report[i] == Intact
  }

  /** The entry's file is there with the right size, but reading it fails. */
  predicate CannotRead(e: ManifestEntry, files: Files, unreadable: set<string>) {
    e.path in files && |files[e.path]| == e.sizeBytes && e.path in unreadable
  }

  /** `Manifest::verify`: one verdict per entry, where the files `unreadable` cannot be read. */
  method Verify(codec: Codec, entries: seq<ManifestEntry>, files: Files, unreadable: set<string>)
    returns (report: seq<FileVerdict>)
    ensures |report| == |entries|
    ensures forall i :: 0 <= i < |entries| ==>
              report[i] == if CannotRead(entries[i], files, unreadable) then Unreadable
                  else Verdict(codec, entries[i], files)
    ensures IsHealthy(report) <==>
              Healthy(codec, entries, files) && forall e :: e in entries ==> !CannotRead(e, files, unreadable)
  {
    report := [];
    for n := 0 to |entries|
      invariant |report| == n
      invariant forall i :: 0 <= i < n ==>
                  report[i] == if CannotRead(entries[i], files, unreadable) then Unreadable
                      else Verdict(codec, entries[i], files)
    {
      var e := entries[n];
      var verdict;
      if e.path !in files {
        verdict := if e.optional then Intact else Missing;
      } else if |files[e.path]| != e.sizeBytes {
        verdict := WrongSize;
      } else if e.path in unreadable {
        verdict := Unreadable;
      } else if EqIgnoreCase(codec.sha256(files[e.path]), e.sha256) {
        verdict := Intact;
      } else {
        verdict := WrongHash;
      }
      report := report + [verdict];
    }
    assert forall e :: e in entries ==> exists i :: 0 <= i < |entries| && entries[i] == e;
  }

  /** `Manifest::verify_quick`: presence and size only. */
  method VerifyQuick(entries: seq<ManifestEntry>, files: Files) returns (report: seq<FileVerdict>)
    ensures |report| == |entries|
    ensures forall i :: 0 <= i < |entries| ==> report[i] == QuickVerdict(entries[i], files)
    ensures IsHealthy(report) <==> QuickHealthy(entries, files)
  {
    report := [];
    for n := 0 to |entries|
      invariant |report| == n && forall i :: 0 <= i < n ==> report[i] == QuickVerdict(entries[i], files)
    {
      report := report + [QuickVerdict(entries[n], files)];
    }
    assert forall e :: e in entries ==> exists i :: 0 <= i < |entries| && entries[i] == e;
  }

  function Load(codec: Codec, files: Files): Option<Manifest> {
    if CHECKSUMS in files then codec.parse(files[CHECKSUMS]) else None
  }

  /** `installed_runtime_is_complete`. */
  ghost predicate LooksComplete(codec: Codec, version: string, place: Place) {
    && Load(codec, place.Seen()).Some?
    && Load(codec, place.Seen()).value.runtimeVersion == version
    && QuickHealthy(Load(codec, place.Seen()).value.files, place.Seen())
  }

  function RawEntry(entries: seq<ManifestEntry>): (r: Option<ManifestEntry>)
    ensures r.Some? ==> r.value in entries && r.value.path == RAW_IMAGE
    ensures r.None? ==> forall e :: e in entries ==> e.path != RAW_IMAGE
  {
    if entries == [] then None
    else if entries[0].path == RAW_IMAGE then Some(entries[0])
    else RawEntry(entries[1..])
  }

  function WithoutRaw(entries: seq<ManifestEntry>): (r: seq<ManifestEntry>)
    ensures forall e :: e in r <==> e in entries && e.path != RAW_IMAGE
  {
    if entries == [] then []
    else (if entries[0].path == RAW_IMAGE then [] else [entries[0]]) + WithoutRaw(entries[1..])
  }

  /** What an installation has checked: the manifest is the required version's, every packaged
      file other than the images is intact, and so is the materialised image. */
  ghost predicate Verified(codec: Codec, version: string, files: Files) {
    && Load(codec, files).Some?
    && var m := Load(codec, files).value;
      && m.runtimeVersion == version
      && (forall e :: e in m.files && e.path != RAW_IMAGE && e.path != COMPRESSED_IMAGE ==>
          Verdict(codec, e, files) == Intact)
      && RawEntry(m.files).Some? && !RawEntry(m.files).value.optional
      && Verdict(codec, RawEntry(m.files).value, files) == Intact
      && RAW_IMAGE in files && COMPRESSED_IMAGE !in files
  }

  /** The files of a bundle; what is neither a file nor a directory is told as `None`. */
  type Bundle = map<string, Option<Content>>

  function BundleFiles(bundle: Bundle): Files {
    map p | p in bundle && bundle[p].Some? :: bundle[p].value
  }

  function Unpacked(codec: Codec, files: Files): Files
    requires COMPRESSED_IMAGE in files && codec.decode(files[COMPRESSED_IMAGE]).Some?
  {
    files[RAW_IMAGE := codec.decode(files[COMPRESSED_IMAGE]).value] - {COMPRESSED_IMAGE}
  }

  ghost predicate PackagedOk(codec: Codec, version: string, files: Files) {
    && Load(codec, files).Some?
    && var m := Load(codec, files).value;
      && m.runtimeVersion == version
      && RawEntry(m.files).Some? && !RawEntry(m.files).value.optional
      && Healthy(codec, WithoutRaw(m.files), files)
  }

  /** A bundle that can be installed: only files, the required version's manifest, everything packaged
      intact, and an image that unpacks to what the manifest says. */
  ghost predicate BundleOk(codec: Codec, version: string, bundle: Bundle) {
    var files := BundleFiles(bundle);
    && (forall p :: p in bundle ==> bundle[p].Some?)
    && PackagedOk(codec, version, files)
    && COMPRESSED_IMAGE in files && codec.decode(files[COMPRESSED_IMAGE]).Some?
    && Verdict(codec, RawEntry(Load(codec, files).value.files).value, Unpacked(codec, files)) == Intact
  }

  /** What is unpacked from an installable bundle has been checked completely. */
  lemma UnpackedIsVerified(codec: Codec, version: string, bundle: Bundle)
    requires BundleOk(codec, version, bundle)
    ensures Verified(codec, version, Unpacked(codec, BundleFiles(bundle)))
  {
    var files := BundleFiles(bundle);
    var m, live := Load(codec, files).value, Unpacked(codec, files);
    forall e | e in m.files && e.path != RAW_IMAGE && e.path != COMPRESSED_IMAGE
      ensures Verdict(codec, e, live) == Intact
    {
      assert e in WithoutRaw(m.files) && Verdict(codec, e, files) == Intact;
    }
  }

  // ---------------------------------------------------------------- the disk, step by step

  datatype Snapshot = Snapshot(live: Place, staging: Place)

  datatype InstallError = BundleMissing | StagingFailed | ReplaceFailed | ActivateFailed

  datatype InstallOutcome = AlreadyInstalled | Installed

  /** `part` is what is left of `whole` after some of its files were removed. */
  ghost predicate LeftOf(whole: Place, part: Place) {
    && whole.Directory? && part.Directory?
    && part.files.Keys <= whole.files.Keys
    && forall p :: p in part.files ==> part.files[p] == whole.files[p]
  }

  /** A link to a directory that is there. */
  predicate IsLinked(place: Place) {
    place.Link? && place.Exists()
  }

  /** What the live directory may hold at any moment of an installation that found `before`. */
  ghost predicate Acceptable(codec: Codec, version: string, before: Place, live: Place) {
    || live == before
    || LeftOf(before, live)
    || (before.Directory? && live.Absent?)
    || (live.Directory? && Verified(codec, version, live.files))
  }

  /** The live and the staging directory.  Every method down to `Rename` is one operation of the
      operating system, which may fail, and after each of them `history` gains the state of the
      disk: a crash leaves one of these states behind.  `failures` counts the operations that failed. */
  class Disk {
    const unreadable: set<string>
    var live: Place
    var staging: Place
    ghost var history: seq<Snapshot>
    ghost var failures: nat

    ghost predicate Now()
      reads this
    {
      history != [] && history[|history| - 1] == Snapshot(live, staging)
    }

    /** Nothing was done to the live directory. */
    twostate predicate LiveUntouched()
      reads this
    {
      && live == old(live) && old(history) <= history
      && forall k :: |old(history)| <= k < |history| ==> history[k].live == live
    }

    constructor (live: Place, staging: Place, unreadable: set<string>)
      ensures this.live == live && this.staging == staging && Now() && failures == 0 && this.unreadable == unreadable
    {
      this.live, this.staging, this.unreadable, failures := live, staging, unreadable, 0;
      history := [Snapshot(live, staging)];
    }

    method MakeStaging() returns (ok: bool)
      modifies this
      ensures failures == old(failures) + if ok then 0 else 1
      ensures Now() && LiveUntouched()
      ensures ok ==> staging == if old(staging).Absent? then Directory(map[]) else old(staging)
      ensures ok ==> staging.Exists()
      ensures !ok ==> staging == old(staging)
    {
      ok := *;
      if ok && staging.Absent? {
        staging := Directory(map[]);
      }
      ok := ok && staging.Exists();
      history := history + [Snapshot(live, staging)];
      failures := failures + if ok then 0 else 1;
    }

    /** Writes a file below the staging directory.  A write that fails leaves anything there. */
    method WriteStaged(path: string, content: Content) returns (ok: bool)
      requires staging.Directory?
      modifies this
      ensures failures == old(failures) + if ok then 0 else 1
      ensures Now() && LiveUntouched() && staging.Directory?
      ensures ok ==> staging.files == old(staging.files)[path := content]
      ensures path in staging.files && staging.files - {path} == old(staging.files) - {path}
    {
      ok := *;
      var partial: Content := *;
      var written := if ok then content else partial;
      staging := Directory(staging.files[path := written]);
      history := history + [Snapshot(live, staging)];
      failures := failures + if ok then 0 else 1;
    }

    method RemoveStaged(path: string) returns (ok: bool)
      requires staging.Directory? && path in staging.files
      modifies this
      ensures failures == old(failures) + if ok then 0 else 1
      ensures Now() && LiveUntouched() && staging.Directory?
      ensures staging.files == if ok then old(staging.files) - {path} else old(staging.files)
    {
      ok := *;
      if ok {
        staging := Directory(staging.files - {path});
      }
      history := history + [Snapshot(live, staging)];
      failures := failures + if ok then 0 else 1;
    }

    method DropStaging() returns (ok: bool)
      requires staging.Directory? && staging.files == map[]
      modifies this
      ensures failures == old(failures) + if ok then 0 else 1
      ensures Now() && LiveUntouched() && staging == if ok then Absent else old(staging)
    {
      ok := *;
      if ok {
        staging := Absent;
      }
      history := history + [Snapshot(live, staging)];
      failures := failures + if ok then 0 else 1;
    }

    method RemoveLive(path: string) returns (ok: bool)
      requires live.Directory? && path in live.files
      modifies this
      ensures failures == old(failures) + if ok then 0 else 1
      ensures Now() && staging == old(staging) && live.Directory?
      ensures live.files == if ok then old(live.files) - {path} else old(live.files)
      ensures history == old(history) + [Snapshot(live, staging)]
    {
      ok := *;
      if ok {
        live := Directory(live.files - {path});
      }
      history := history + [Snapshot(live, staging)];
      failures := failures + if ok then 0 else 1;
    }

    method DropLive() returns (ok: bool)
      requires live.Directory? && live.files == map[]
      modifies this
      ensures failures == old(failures) + if ok then 0 else 1
      ensures Now() && staging == old(staging) && live == if ok then Absent else old(live)
      ensures history == old(history) + [Snapshot(live, staging)]
    {
      ok := *;
      if ok {
        live := Absent;
      }
      history := history + [Snapshot(live, staging)];
      failures := failures + if ok then 0 else 1;
    }

    method Rename() returns (ok: bool)
      requires !live.Exists()
      modifies this
      ensures failures == old(failures) + if ok then 0 else 1
      ensures Now()
      ensures ok ==> old(live).Absent? && live == old(staging) && staging.Absent?
      ensures !ok ==> live == old(live) && staging == old(staging)
      ensures history == old(history) + [Snapshot(live, staging)]
    {
      ok := *;
      ok := ok && live.Absent?;
      if ok {
        live, staging := staging, Absent;
      }
      history := history + [Snapshot(live, staging)];
      failures := failures + if ok then 0 else 1;
    }

    // -------------------------------------------------------------- install.rs

    /** `remove_staging_dir`: links are refused, and files go one at a time.  A link to nothing does
        not `exists()`, so it stays. */
    method RemoveStagingDir() returns (ok: bool)
      requires Now()
      modifies this
      ensures Now() && LiveUntouched() && (ok ==> !staging.Exists())
      ensures old(staging).Exists() && old(staging).Link? ==> !ok
      ensures if ok then failures == old(failures) else failures >= old(failures)
      ensures !ok ==> failures > old(failures) || (old(staging).Exists() && old(staging).Link?)
    {
      if !staging.Exists() {
        return true;
      }
      if staging.Link? {
        return false;
      }
      while staging.files != map[]
        invariant Now() && LiveUntouched() && staging.Directory? && failures == old(failures)
        decreases |staging.files|
      {
        var path :| path in staging.files;
        RemovingShrinks(staging.files, path);
        ok := RemoveStaged(path);
        if !ok {
          return;
        }
      }
      ok := DropStaging();
    }

    /** `copy_directory`, then everything `stage_and_verify` checks, in its order: unless the disk fails,
        it succeeds exactly if the bundle can be installed. */
    method StageAndVerify(codec: Codec, version: string, bundle: Bundle) returns (ok: bool)
      requires Now() && !staging.Exists()
      modifies this
      ensures Now() && LiveUntouched()
      ensures ok ==> BundleOk(codec, version, bundle) && failures == old(failures)
      ensures ok ==> staging == Directory(Unpacked(codec, BundleFiles(bundle)))
      ensures failures >= old(failures)
      ensures BundleOk(codec, version, bundle) && unreadable == {} && failures == old(failures) ==> ok
    {
      hide Verdict, Healthy;
      ok := CopyDirectory(bundle);
      if !ok {
        return;
      }
      var files := staging.files;
      var manifest := Load(codec, files);
      if manifest.None? || manifest.value.runtimeVersion != version {
        return false;
      }
      var m := manifest.value;
      var rawEntry := RawEntry(m.files);
      if rawEntry.None? || rawEntry.value.optional {
        return false;
      }
      var report := Verify(codec, WithoutRaw(m.files), files, unreadable);
      if !IsHealthy(report) {
        return false;
      }
      ok := Materialise(codec);
      if !ok {
        return;
      }
      report := Verify(codec, [rawEntry.value], staging.files, unreadable);
      ok := IsHealthy(report);
      OneHealthy(codec, rawEntry.value, staging.files);
    }

    /** Files in any order; anything that is neither a file nor a directory is refused. */
    method CopyDirectory(bundle: Bundle) returns (ok: bool)
      requires Now() && !staging.Exists()
      modifies this
      ensures Now() && LiveUntouched()
      ensures ok ==> staging == Directory(BundleFiles(bundle)) && failures == old(failures)
      ensures ok ==> forall p :: p in bundle ==> bundle[p].Some?
      ensures failures >= old(failures)
      ensures !ok ==> failures > old(failures) || exists p :: p in bundle && bundle[p].None?
    {
      ok := MakeStaging();
      if !ok {
        return;
      }
      var left := bundle.Keys;
      while left != {}
        invariant Now() && LiveUntouched() && left <= bundle.Keys && failures == old(failures)
        invariant forall p :: p in bundle && p !in left ==> bundle[p].Some?
        invariant staging == Directory(map p | p in bundle && p !in left && bundle[p].Some? :: bundle[p].value)
        decreases |left|
      {
        var path :| path in left;
        if bundle[path].None? {
          return false;
        }
        ok := WriteStaged(path, bundle[path].value);
        if !ok {
          return;
        }
        left := left - {path};
      }
      ok := true;
    }

    /** Decompresses the image and removes the compressed copy. */
    method Materialise(codec: Codec) returns (ok: bool)
      requires Now() && staging.Directory?
      modifies this
      ensures Now() && LiveUntouched() && staging.Directory?
      ensures ok ==> COMPRESSED_IMAGE in old(staging).files && codec.decode(old(staging).files[COMPRESSED_IMAGE]).Some?
      ensures ok ==> staging.files == Unpacked(codec, old(staging).files) && failures == old(failures)
      ensures failures >= old(failures)
      ensures !ok ==> failures > old(failures) || COMPRESSED_IMAGE !in old(staging).files
                      || codec.decode(old(staging).files[COMPRESSED_IMAGE]).None?
    {
      if COMPRESSED_IMAGE !in staging.files {
        return false;
      }
      var packed := staging.files[COMPRESSED_IMAGE];
      ok := WriteStaged(RAW_IMAGE, []);
      if !ok {
        return;
      }
      var unpacked := codec.decode(packed);
      ok := WriteStaged(RAW_IMAGE, if unpacked.Some? then unpacked.value else []);
      if !ok || unpacked.None? {
        return false;
      }
      ok := RemoveStaged(COMPRESSED_IMAGE);
    }

    /** `fs::remove_dir_all` on the live directory. */
    method RemoveLiveDir() returns (ok: bool)
      requires Now() && live.Directory?
      modifies this
      ensures Now() && staging == old(staging) && old(history) <= history
      ensures if ok then live.Absent? else LeftOf(old(live), live)
      ensures if ok then failures == old(failures) else failures > old(failures)
      ensures forall k :: |old(history)| <= k < |history| ==>
                history[k].live.Absent? || LeftOf(old(live), history[k].live)
    {
      while live.files != map[]
        invariant Now() && staging == old(staging) && old(history) <= history && LeftOf(old(live), live)
                    && failures == old(failures)
        invariant forall k :: |old(history)| <= k < |history| ==> LeftOf(old(live), history[k].live)
        decreases |live.files|
      {
        var path :| path in live.files;
        RemovingShrinks(live.files, path);
        ok := RemoveLive(path);
        if !ok {
          return;
        }
      }
      ok := DropLive();
    }

    /** `install_runtime`.  At every step, crash points included, the live directory is as it was,
        partly or wholly removed, or completely verified; a failure before the replacement leaves
        it untouched. */
    method InstallRuntime(codec: Codec, version: string, bundle: Option<Bundle>, force: bool)
      returns (r: Result<InstallOutcome, InstallError>)
      requires Now()
      modifies this
      ensures Now() && old(history) <= history
      ensures forall k :: |old(history)| <= k < |history| ==> Acceptable(codec, version, old(live), history[k].live)
      ensures r == Ok(AlreadyInstalled) <==> !force && LooksComplete(codec, version, old(live))
      ensures r == Ok(AlreadyInstalled) ==> live == old(live) && staging == old(staging) && history == old(history)
      ensures r == Ok(AlreadyInstalled) <==>
                !force && HasVersion(codec, version, old(live)) && Stands(codec, old(live), {})
      ensures r.Ok? ==> HasVersion(codec, version, live)
      ensures r == Ok(Installed) ==> Stands(codec, live, {RAW_IMAGE, COMPRESSED_IMAGE}) && ContentStands(codec, live)
      ensures r == Ok(Installed) ==> bundle.Some? && BundleOk(codec, version, bundle.value) && staging.Absent?
      ensures r == Ok(Installed) ==>
                live == Directory(Unpacked(codec, BundleFiles(bundle.value))) && Verified(codec, version, live.files)
      ensures r.Err? && unreadable == {} && failures == old(failures) ==>
                bundle.None? || !BundleOk(codec, version, bundle.value) || IsLinked(old(staging)) || IsLinked(old(live))
      ensures r == Ok(Installed) ==> !IsLinked(old(staging)) && old(live) != Link(None) && !IsLinked(old(live))
      ensures r == Err(BundleMissing) || r == Err(StagingFailed) ==> LiveUntouched()
      ensures r == Err(ReplaceFailed) ==> live == old(live) || LeftOf(old(live), live)
      ensures r == Err(ActivateFailed) ==>
                !live.Exists() && staging.Directory? && Verified(codec, version, staging.files)
      ensures r == Err(BundleMissing) <==> bundle.None? && !(!force && LooksComplete(codec, version, old(live)))
    {
      hide Verdict, Healthy, BundleOk, QuickHealthy, Verified, HasVersion, Stands, ContentStands, LooksComplete;
      var complete := InstalledRuntimeIsComplete(codec, version, live);
      if !force && complete {
        return Ok(AlreadyInstalled);
      }
      if bundle.None? {
        return Err(BundleMissing);
      }
      var ok := RemoveStagingDir();
      if !ok {
        return Err(StagingFailed);
      }
      ok := StageAndVerify(codec, version, bundle.value);
      if !ok {
        var _ := RemoveStagingDir();
        return Err(StagingFailed);
      }
      UnpackedIsVerified(codec, version, bundle.value);
      if live.Exists() {
        if live.Link? {
          return Err(ReplaceFailed);
        }
        ok := RemoveLiveDir();
        if !ok {
          return Err(ReplaceFailed);
        }
      }
      ok := Rename();
      if !ok {
        return Err(ActivateFailed);
      }
      VerifiedInPlainWords(codec, version, live);
      r := Ok(Installed);
    }
  }

  lemma OneHealthy(codec: Codec, e: ManifestEntry, files: Files)
    ensures Healthy(codec, [e], files) <==> Verdict(codec, e, files) == Intact
  {
    assert e in [e];
  }

  lemma RemovingShrinks(files: Files, path: string)
    requires path in files
    ensures |files - {path}| < |files|
  {
    assert (files - {path}).Keys == files.Keys - {path};
    assert |(files - {path}).Keys| < |files.Keys|;
  }

  method InstalledRuntimeIsComplete(codec: Codec, version: string, place: Place) returns (complete: bool)
    ensures complete == LooksComplete(codec, version, place)
    ensures complete <==> HasVersion(codec, version, place) && Stands(codec, place, {})
  {
    CompleteInPlainWords(codec, version, place);
    var manifest := Load(codec, place.Seen());
    if manifest.None? {
      return false;
    }
    var report := VerifyQuick(manifest.value.files, place.Seen());
    complete := manifest.value.runtimeVersion == version && IsHealthy(report);
  }

  // ---------------------------------------------------------------- the same in plain words

  /** The manifest at `place` can be read and is one of this version. */
  ghost predicate HasVersion(codec: Codec, version: string, place: Place) {
    exists files, m ::
      && (place == Directory(files) || place == Link(Some(files)))
      && Reads(codec, files, m) && m.runtimeVersion == version
  }

  ghost predicate Reads(codec: Codec, files: Files, m: Manifest) {
    CHECKSUMS in files && codec.parse(files[CHECKSUMS]) == Some(m)
  }

  /** What the manifest at `place` lists, some paths apart, is there in its size, or optional and not there. */
  ghost predicate Stands(codec: Codec, place: Place, apart: set<string>) {
    forall files, m, e ::
      (place == Directory(files) || place == Link(Some(files))) && Reads(codec, files, m)
      && e in m.files && e.path !in apart ==>
        if e.path in files then |files[e.path]| == e.sizeBytes else e.optional
  }

  /** Every file listed but the images has its hash; the compressed image is gone; and the materialised one has the
      size and the hash of its first entry, which is required. */
  ghost predicate ContentStands(codec: Codec, place: Place) {
    forall files, m :: place == Directory(files) && Reads(codec, files, m) ==>
      && (forall e :: e in m.files && e.path !in {RAW_IMAGE, COMPRESSED_IMAGE} && e.path in files ==>
          EqIgnoreCase(codec.sha256(files[e.path]), e.sha256))
      && COMPRESSED_IMAGE !in files && RAW_IMAGE in files
      && exists i ::
          && FirstImage(m.files, i) && !m.files[i].optional
          && |files[RAW_IMAGE]| == m.files[i].sizeBytes
          && EqIgnoreCase(codec.sha256(files[RAW_IMAGE]), m.files[i].sha256)
  }

  /** What each verdict says of a file. */
  lemma VerdictsInPlainWords(codec: Codec, e: ManifestEntry, files: Files)
    ensures var there, sized := e.path in files, e.path in files && |files[e.path]| == e.sizeBytes;
      match Verdict(codec, e, files)
      case Intact => if there then sized && EqIgnoreCase(codec.sha256(files[e.path]), e.sha256) else e.optional
      case Missing => !there && !e.optional
      case WrongSize => there && !sized
      case WrongHash => there && sized && !EqIgnoreCase(codec.sha256(files[e.path]), e.sha256)
      case Unreadable => false
  {
  }

  /** What the next start takes for a complete installation. */
  lemma CompleteInPlainWords(codec: Codec, version: string, place: Place)
    ensures LooksComplete(codec, version, place) <==> HasVersion(codec, version, place) && Stands(codec, place, {})
  {
    var files := place.Seen();
    if CHECKSUMS in files && codec.parse(files[CHECKSUMS]).Some? {
      var m := codec.parse(files[CHECKSUMS]).value;
      assert Reads(codec, files, m);
      assert QuickHealthy(m.files, files) <==> forall e :: e in m.files ==>
        if e.path in files then |files[e.path]| == e.sizeBytes else e.optional;
    }
  }

  lemma VerifiedInPlainWords(codec: Codec, version: string, place: Place)
    requires place.Directory? && Verified(codec, version, place.files)
    ensures HasVersion(codec, version, place)
    ensures Stands(codec, place, {RAW_IMAGE, COMPRESSED_IMAGE}) && ContentStands(codec, place)
  {
    var files := place.files;
    var m := Load(codec, files).value;
    assert Reads(codec, files, m);
    RawEntryIsFirst(m.files);
    forall e | e in m.files && e.path != RAW_IMAGE && e.path != COMPRESSED_IMAGE
      ensures if e.path in files then
                |files[e.path]| == e.sizeBytes && EqIgnoreCase(codec.sha256(files[e.path]), e.sha256)
              else e.optional
    {
      assert Verdict(codec, e, files) == Intact;
    }
  }

  /** A bundle of plain files, whose manifest is of this version, where every entry but those of the materialised
      image is there in its size and with its hash, or optional and not there, and whose compressed image unpacks to
      the size and the hash of the first entry of the materialised one, which is required. */
  ghost predicate Installable(codec: Codec, version: string, bundle: Bundle) {
    && (forall p :: p in bundle ==> bundle[p].Some?)
    && CHECKSUMS in bundle && COMPRESSED_IMAGE in bundle
    && var manifest, raw := codec.parse(bundle[CHECKSUMS].value), codec.decode(bundle[COMPRESSED_IMAGE].value);
      && manifest.Some? && manifest.value.runtimeVersion == version && raw.Some?
      && (forall e :: e in manifest.value.files && e.path != RAW_IMAGE ==>
          if e.path in bundle then
            |bundle[e.path].value| == e.sizeBytes && EqIgnoreCase(codec.sha256(bundle[e.path].value), e.sha256)
          else e.optional)
      && exists i ::
          && FirstImage(manifest.value.files, i) && !manifest.value.files[i].optional
          && |raw.value| == manifest.value.files[i].sizeBytes
          && EqIgnoreCase(codec.sha256(raw.value), manifest.value.files[i].sha256)
  }

  lemma BundleInPlainWords(codec: Codec, version: string, bundle: Bundle)
    ensures BundleOk(codec, version, bundle) <==> Installable(codec, version, bundle)
  {
    if (forall p :: p in bundle ==> bundle[p].Some?) && CHECKSUMS in bundle && COMPRESSED_IMAGE in bundle
       && codec.parse(bundle[CHECKSUMS].value).Some? && codec.decode(bundle[COMPRESSED_IMAGE].value).Some? {
      var files, m := BundleFiles(bundle), codec.parse(bundle[CHECKSUMS].value).value;
      var raw := codec.decode(bundle[COMPRESSED_IMAGE].value).value;
      assert Unpacked(codec, files)[RAW_IMAGE] == raw;
      PackagedInPlainWords(codec, m.files, files);
      RawEntryIsFirst(m.files);
    }
  }

  lemma PackagedInPlainWords(codec: Codec, entries: seq<ManifestEntry>, files: Files)
    ensures Healthy(codec, WithoutRaw(entries), files) <==>
              forall e :: e in entries && e.path != RAW_IMAGE ==>
                if e.path in files then
                  |files[e.path]| == e.sizeBytes && EqIgnoreCase(codec.sha256(files[e.path]), e.sha256)
                else e.optional
  {
  }

  ghost predicate FirstImage(entries: seq<ManifestEntry>, i: int) {
    0 <= i < |entries| && entries[i].path == RAW_IMAGE && forall j :: 0 <= j < i ==> entries[j].path != RAW_IMAGE
  }

  lemma {:induction false} RawEntryIsFirst(entries: seq<ManifestEntry>)
    ensures RawEntry(entries).Some? <==> exists i :: FirstImage(entries, i)
    ensures forall i :: FirstImage(entries, i) ==> RawEntry(entries) == Some(entries[i])
  {
    if entries != [] {
      var rest := entries[1..];
      RawEntryIsFirst(rest);
      assert forall j :: 0 <= j < |rest| ==> rest[j] == entries[j + 1];
      if entries[0].path == RAW_IMAGE {
        assert FirstImage(entries, 0);
      } else {
        forall i ensures FirstImage(entries, i) <==> FirstImage(rest, i - 1) {
          assert FirstImage(rest, i - 1) ==> forall j :: 0 < j < i ==> entries[j] == rest[j - 1];
          assert FirstImage(entries, i) ==> forall j :: 0 <= j < i - 1 ==> rest[j] == entries[j + 1];
        }
        if RawEntry(rest).Some? {
          var i :| FirstImage(rest, i);
          assert FirstImage(entries, i + 1);
        }
      }
    }
  }

  // ---------------------------------------------------------------- what a success is worth

  /** Two entries ask for the same file content, as far as verification can tell. */
  predicate SameDemand(a: ManifestEntry, b: ManifestEntry) {
    a.sizeBytes == b.sizeBytes && EqIgnoreCase(a.sha256, b.sha256)
  }

  /** After an installation, full verification of the live directory succeeds exactly when the
      manifest marks every entry of the compressed image optional and its entries of the
      materialised image all ask for the same content.  Then the cheap check succeeds too. */
  lemma InstalledIsHealthy(codec: Codec, version: string, files: Files)
    requires Verified(codec, version, files)
    ensures var m := Load(codec, files).value;
      Healthy(codec, m.files, files) <==>
        && (forall e :: e in m.files && e.path == COMPRESSED_IMAGE ==> e.optional)
        && (forall e :: e in m.files && e.path == RAW_IMAGE ==> SameDemand(e, RawEntry(m.files).value))
  {
    var m := Load(codec, files).value;
    var raw := RawEntry(m.files).value;
    forall e | e in m.files && e.path == RAW_IMAGE
      ensures Verdict(codec, e, files) == Intact <==> SameDemand(e, raw)
    {
    }
  }

  lemma HealthyIsQuickHealthy(codec: Codec, entries: seq<ManifestEntry>, files: Files)
    requires Healthy(codec, entries, files)
    ensures QuickHealthy(entries, files)
  {
    forall e | e in entries ensures QuickVerdict(e, files) == Intact {
      assert Verdict(codec, e, files) == Intact;
    }
  }

  /** An installation is recognised by the next start, which then does nothing, exactly when the
      manifest marks every entry of the compressed image optional and its entries of the materialised
      image all ask for the same size.  Otherwise every start installs again. */
  lemma InstalledIsRecognisedExactly(codec: Codec, version: string, files: Files)
    requires Verified(codec, version, files)
    ensures var m := Load(codec, files).value;
      LooksComplete(codec, version, Directory(files)) <==>
        && (forall e :: e in m.files && e.path == COMPRESSED_IMAGE ==> e.optional)
        && (forall e :: e in m.files && e.path == RAW_IMAGE ==> e.sizeBytes == RawEntry(m.files).value.sizeBytes)
  {
    var m := Load(codec, files).value;
    var raw := RawEntry(m.files).value;
    assert Verdict(codec, raw, files) == Intact;
    forall e | e in m.files
      ensures QuickVerdict(e, files) == Intact <==>
        && (e.path == COMPRESSED_IMAGE ==> e.optional)
        && (e.path == RAW_IMAGE ==> e.sizeBytes == raw.sizeBytes)
    {
      if e.path != COMPRESSED_IMAGE && e.path != RAW_IMAGE {
        assert Verdict(codec, e, files) == Intact;
      }
    }
  }

  /** Both conditions can fail for a bundle that can be installed, whatever the codec: beside the true
      entry of the materialised image the manifest may require the compressed one, with its true hash
      and size, or hold a second entry of the materialised image with another size. */
  lemma SomeInstallationsAreNotRecognised(codec: Codec, packed: Content, raw: Content, text: Content, m: Manifest,
                                          other: ManifestEntry)
    requires codec.decode(packed) == Some(raw) && codec.parse(text) == Some(m)
    requires m.files == [ManifestEntry(RAW_IMAGE, codec.sha256(raw), |raw|, false), other]
    requires || other == ManifestEntry(COMPRESSED_IMAGE, codec.sha256(packed), |packed|, false)
             || (other.path == RAW_IMAGE && other.sizeBytes != |raw|)
    ensures var bundle: Bundle := map[CHECKSUMS := Some(text), COMPRESSED_IMAGE := Some(packed)];
      && BundleOk(codec, m.runtimeVersion, bundle)
      && !LooksComplete(codec, m.runtimeVersion, Directory(Unpacked(codec, BundleFiles(bundle))))
  {
    var bundle: Bundle := map[CHECKSUMS := Some(text), COMPRESSED_IMAGE := Some(packed)];
    var files := BundleFiles(bundle);
    assert files == map[CHECKSUMS := text, COMPRESSED_IMAGE := packed];
    assert RawEntry(m.files) == Some(m.files[0]);
    forall e | e in WithoutRaw(m.files) ensures Verdict(codec, e, files) == Intact {
      assert e == other;
    }
    assert Unpacked(codec, files)[RAW_IMAGE] == raw;
    UnpackedIsVerified(codec, m.runtimeVersion, bundle);
    InstalledIsRecognisedExactly(codec, m.runtimeVersion, Unpacked(codec, files));
    assert other in m.files;
  }
}
