/**
 * The upload control itself: the state the component keeps between events, the handler run on
 * a new file selection, and the GO action that hands the kept bundle to the decode chain.
 * Each state setter of the component is one assignment, in the order the handler calls them.
 */
module UploadAssets {
  import opened Wrappers
  import opened FileNames
  import opened ObjectKeys
  import opened Batch
  import opened Registry

  /**
   * The handler's loop over one batch: each file's base name and extension come from splitting
   * its name at dots; a base name seen for the first time gets an empty set of extensions; a
   * repeated base name and extension stops the loop; a png is stored under its full name and
   * any other file as the reference for its extension; the extension then joins its base
   * name's set. The result is the scan the batch specifies.
   */
  method ScanBatch(newFiles: seq<File>) returns (scan: Scan)
    ensures scan == ScanFiles(newFiles)
  {
    var fileMap: map<string, set<string>> := map[];
    var keyOrder: seq<string> := [];
    var pngs: map<string, ObjectUrl> := map[];
    var refs: map<string, ObjectUrl> := map[];
    ghost var keys := Keys(newFiles);
    for i := 0 to |newFiles|
      invariant ScanKeys(newFiles[..i], keys[..i]) == Scanning(fileMap, keyOrder, Bundle(pngs, refs))
    {
      var file := newFiles[i];
      var parts := Split(file.name);
      var baseName := Join(parts[..|parts| - 1]);
      var extension := parts[|parts| - 1];
      ghost var before := Scanning(fileMap, keyOrder, Bundle(pngs, refs));
      ghost var k := Key(baseName, extension);
      SplitNameSpec(file.name);
      assert keys[i] == k;
      ScanKeysPrefix(newFiles, keys, i);

      if baseName !in fileMap {
        fileMap := fileMap[baseName := {}];
        keyOrder := keyOrder + [baseName];
      }
      CreateThenAdd(before.groups, fileMap, k);
      if extension in fileMap[baseName] {
        DuplicateIsFinal(newFiles, keys, i + 1);
        return Duplicate(baseName, extension);
      }
      var url := file.url;
      if extension == "png" {
        pngs := pngs[file.name := url];
      } else {
        refs := refs[extension := url];
      }
      fileMap := fileMap[baseName := fileMap[baseName] + {extension}];
      assert Bundle(pngs, refs) == AddFile(before.bundle, file, k);
    }
    assert newFiles[..|newFiles|] == newFiles && keys[..|newFiles|] == keys;
    scan := Scanning(fileMap, keyOrder, Bundle(pngs, refs));
  }

  class UploadControl {
    /** The files listed under the button: the last accepted batch, or none. */
    var files: seq<File>
    /** The bundle GO hands to the decode chain; absent until a batch gets through the loop. */
    var fileData: Option<Bundle>
    /** The name new assets are registered under. */
    var nameFile: Option<string>
    /** True while GO is disabled. */
    var active: bool
    /** The asset list shared with the rest of the application. */
    const registry: AssetRegistry

    /** Whenever GO is enabled there is a bundle and a name for it to use. */
    ghost predicate Valid()
      reads this
    {
      !active ==> fileData.Some? && nameFile.Some?
    }

    constructor (registry: AssetRegistry)
      ensures files == [] && fileData == None && nameFile == None && active
      ensures this.registry == registry
      ensures Valid()
    {
      files := [];
      fileData := None;
      nameFile := None;
      active := true;
      this.registry := registry;
    }

    /**
     * A new selection. The list of files is cleared first. More than ten files, or a repeated
     * base name and extension, stop the handler before anything else changes. Otherwise the
     * name and the bundle of the batch are stored whatever follows, so an incomplete batch
     * still replaces them; only a complete batch is listed and enables GO.
     */
    method HandleFileChange(newFiles: seq<File>) returns (outcome: Outcome)
      requires Valid()
      modifies this
      ensures Valid()
      ensures outcome == Classify(newFiles)
      ensures files == if outcome.Accepted? then newFiles else []
      ensures active == (old(active) && !outcome.Accepted?)
      ensures outcome.Accepted? || outcome.Incomplete? ==>
                fileData == Some(outcome.fileData) && nameFile == Some(outcome.nameFile)
      ensures outcome.TooManyFiles? || outcome.DuplicateFile? ==>
                fileData == old(fileData) && nameFile == old(nameFile)
    {
      files := [];
      if |newFiles| > MaxFiles {
        return TooManyFiles;
      }
      var scan := ScanBatch(newFiles);
      if scan.Duplicate? {
        return DuplicateFile(scan.base, scan.ext);
      }
      var fileMap, keyOrder, pngs, refs := scan.groups, scan.order, scan.bundle.pngs, scan.bundle.refs;

      nameFile := Some(FirstOwnKey(keyOrder));
      fileData := Some(Bundle(pngs, refs));

      if || |keyOrder| != 1
         || "skel" !in fileMap[FirstOwnKey(keyOrder)]
         || "atlas" !in fileMap[FirstOwnKey(keyOrder)]
         || |pngs| == 0
      {
        outcome := Incomplete(FirstOwnKey(keyOrder), Bundle(pngs, refs));
        assert fileData == Some(outcome.fileData) && nameFile == Some(outcome.nameFile);
        return;
      }

      files := files + newFiles;
      active := false;
      outcome := Accepted(FirstOwnKey(keyOrder), Bundle(pngs, refs));
      assert fileData == Some(outcome.fileData) && nameFile == Some(outcome.nameFile);
    }

    /**
     * GO: the kept bundle goes to the decode chain `decode`, and the decoded skeleton is
     * registered under the kept name; GO is disabled again. The button is disabled while
     * `active` holds, so GO is only reachable after an accepted batch.
     */
    method Go(decode: Bundle -> DecodeResult) returns (report: Report)
      requires Valid() && !active
      modifies this, registry
      ensures Valid() && active
      ensures files == old(files) && fileData == old(fileData) && nameFile == old(nameFile)
      ensures var decoded := decode(old(fileData).value);
              && (decoded.DecodeFailed? ==> report == Logged && registry.assets == old(registry.assets))
              && (decoded.Decoded? && IsSupportedVersion(decoded.version) ==>
                    report == Added(Asset(old(nameFile).value, NextId(old(registry.assets)), decoded.spine))
                    && registry.assets == old(registry.assets) + [report.entry])
              && (decoded.Decoded? && !IsSupportedVersion(decoded.version) ==>
                    report == IncompatibleVersion(decoded.version) && registry.assets == old(registry.assets))
    {
      var decoded := decode(fileData.value);
      report := registry.Register(nameFile.value, decoded);
      active := true;
    }
  }
}
