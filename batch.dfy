/**
 * The classification of one upload batch, as a specification: the loop of the upload handler
 * folded over the batch (`ScanFiles`), and the outcome the handler reaches (`Classify`).
 * The imperative handler itself is `UploadAssets.UploadControl.HandleFileChange`.
 *
 * Reading of the source's braces: as shown, the handler is one closing brace short between the
 * png branch and the completeness check. This model follows the indentation: the `else` branch
 * ends after the non-png reference is stored, the extension is then added to the base name's
 * group for EVERY file (png files included), the loop ends there, and the completeness check
 * runs once after the loop.
 */
module Batch {
  import opened FileNames
  import opened ObjectKeys

  /** The most files one selection may hold. */
  const MaxFiles: nat := 10

  /** An object URL minted for a selected file, an opaque token here. */
  datatype ObjectUrl = ObjectUrl(token: nat)

  /** A selected file: its name and the object URL created for it. */
  datatype File = File(name: string, url: ObjectUrl)

  /** The base name and extension the handler computes for a file. */
  datatype Key = Key(base: string, ext: string)

  function KeyOf(f: File): Key { Key(BaseName(f.name), Extension(f.name)) }

  /** The keys of a batch, file by file. */
  function Keys(fs: seq<File>): (ks: seq<Key>)
    ensures |ks| == |fs|
    ensures forall i :: 0 <= i < |fs| ==> ks[i] == KeyOf(fs[i])
  {
    if |fs| == 0 then [] else Keys(fs[..|fs| - 1]) + [KeyOf(fs[|fs| - 1])]
  }

  /** Keys that follow file names: two files with the same name have the same key. */
  ghost predicate Consistent(fs: seq<File>, ks: seq<Key>)
    requires |ks| == |fs|
  {
    forall i, j :: 0 <= i < |fs| && 0 <= j < |fs| && fs[i].name == fs[j].name ==> ks[i] == ks[j]
  }

  lemma KeysConsistent(fs: seq<File>)
    ensures Consistent(fs, Keys(fs))
  {
    var ks := Keys(fs);
    forall i, j | 0 <= i < |fs| && 0 <= j < |fs| && fs[i].name == fs[j].name
      ensures ks[i] == ks[j]
    {
      assert ks[i] == KeyOf(fs[i]) && ks[j] == KeyOf(fs[j]);
    }
  }

  /**
   * `uploadedFilesUrls`: the png files by full name, and one reference per other extension.
   * The source creates its `pngs` entry together with the first png, so an absent entry and an
   * empty map mean the same here.
   */
  datatype Bundle = Bundle(pngs: map<string, ObjectUrl>, refs: map<string, ObjectUrl>)

  /**
   * The loop's state: `fileMap` (base name to the set of its extensions), the order in which
   * its keys were created, and the bundle; or the duplicate that ended the loop.
   */
  datatype Scan =
    | Scanning(groups: map<string, set<string>>, order: seq<string>, bundle: Bundle)
    | Duplicate(base: string, ext: string)

  const Start: Scan := Scanning(map[], [], Bundle(map[], map[]))


  predicate Distinct(s: seq<string>) { forall i, j :: 0 <= i < j < |s| ==> s[i] != s[j] }

  /** The key order lists each key of the group map exactly once. */
  ghost predicate WellFormed(st: Scan)
  {
    st.Scanning? ==> Distinct(st.order) && forall b :: b in st.order <==> b in st.groups
  }

  /** The extensions recorded for base name b so far (`fileMap[baseName]`, created empty). */
  function Exts(groups: map<string, set<string>>, b: string): set<string>
  {
    if b in groups then groups[b] else {}
  }

  /** `fileMap[baseName].add(extension)`. */
  function AddKey(groups: map<string, set<string>>, k: Key): map<string, set<string>>
  {
    groups[k.base := Exts(groups, k.base) + {k.ext}]
  }

  /**
   * Creating the empty set on first sight of a base name and then adding the extension to it
   * is `AddKey`.
   */
  lemma CreateThenAdd(groups: map<string, set<string>>, g: map<string, set<string>>, k: Key)
    requires g == if k.base in groups then groups else groups[k.base := {}]
    ensures k.base in g && g[k.base] == Exts(groups, k.base)
    ensures g[k.base := g[k.base] + {k.ext}] == AddKey(groups, k)
  {
    var lhs, rhs := g[k.base := g[k.base] + {k.ext}], AddKey(groups, k);
    assert lhs.Keys == rhs.Keys;
    forall b | b in lhs ensures lhs[b] == rhs[b] {
    }
  }

  /** A png is stored under its full name, any other file as the reference for its extension. */
  function AddFile(bundle: Bundle, f: File, k: Key): Bundle
  {
    if k.ext == "png" then bundle.(pngs := bundle.pngs[f.name := f.url])
    else bundle.(refs := bundle.refs[k.ext := f.url])
  }

  /** One iteration of the handler's loop, on file f whose base name and extension are k. */
  function Step(st: Scan, f: File, k: Key): Scan
  {
    match st
    case Duplicate(_, _) => st
    case Scanning(groups, order, bundle) =>
      if k.ext in Exts(groups, k.base) then Duplicate(k.base, k.ext)
      else
        var order' := if k.base in groups then order else order + [k.base];
        Scanning(AddKey(groups, k), order', AddFile(bundle, f, k))
  }

  /** The loop run over files fs whose keys are ks, from an empty `fileMap` and bundle. */
  function ScanKeys(fs: seq<File>, ks: seq<Key>): (st: Scan)
    requires |ks| == |fs|
    ensures WellFormed(st)
  {
    if |fs| == 0 then Start
    else Step(ScanKeys(fs[..|fs| - 1], ks[..|ks| - 1]), fs[|fs| - 1], ks[|ks| - 1])
  }

  /** The loop run over the whole batch. */
  function ScanFiles(fs: seq<File>): Scan
  {
    ScanKeys(fs, Keys(fs))
  }

  /** What the handler reports for a batch; the last two carry `nameFile` and `fileData`. */
  datatype Outcome =
    | TooManyFiles
    | DuplicateFile(base: string, ext: string)
    | Incomplete(nameFile: string, fileData: Bundle)
    | Accepted(nameFile: string, fileData: Bundle)

  /** The completeness test run after the loop. */
  predicate Complete(st: Scan)
    requires WellFormed(st) && st.Scanning?
  {
    && |st.order| == 1
    && "skel" in st.groups[FirstOwnKey(st.order)]
    && "atlas" in st.groups[FirstOwnKey(st.order)]
    && |st.bundle.pngs| != 0
  }

  /** The outcome of the upload handler for one batch. */
  function Classify(fs: seq<File>): Outcome
  {
    if |fs| > MaxFiles then TooManyFiles
    else
      var st := ScanFiles(fs);
      match st
      case Duplicate(b, e) => DuplicateFile(b, e)
      case Scanning(_, order, bundle) =>
        if Complete(st) then Accepted(FirstOwnKey(order), bundle)
        else Incomplete(FirstOwnKey(order), bundle)
  }

  // ---------------------------------------------------------------------------------------
  // Reference folds: what the loop builds when no duplicate stops it

  function GroupMap(ks: seq<Key>): map<string, set<string>>
  {
    if |ks| == 0 then map[] else AddKey(GroupMap(ks[..|ks| - 1]), ks[|ks| - 1])
  }

  function BaseOrder(ks: seq<Key>): seq<string>
  {
    if |ks| == 0 then []
    else if ks[|ks| - 1].base in GroupMap(ks[..|ks| - 1]) then BaseOrder(ks[..|ks| - 1])
    else BaseOrder(ks[..|ks| - 1]) + [ks[|ks| - 1].base]
  }

  function BundleOf(fs: seq<File>, ks: seq<Key>): Bundle
    requires |ks| == |fs|
  {
    if |fs| == 0 then Bundle(map[], map[])
    else AddFile(BundleOf(fs[..|fs| - 1], ks[..|ks| - 1]), fs[|fs| - 1], ks[|ks| - 1])
  }

  // ---------------------------------------------------------------------------------------
  // What the folds hold, stated about the files of the batch and their keys

  predicate HasDuplicate(ks: seq<Key>)
  {
    exists i, j :: 0 <= i < j < |ks| && ks[i] == ks[j]
  }

  /** No later file of the batch has the extension of file i. */
  predicate LastOfExt(ks: seq<Key>, i: int)
    requires 0 <= i < |ks|
  {
    forall j :: i < j < |ks| ==> ks[j].ext != ks[i].ext
  }

  /** The group map holds exactly the base names of the batch, each with its extensions. */
  ghost predicate GroupsOf(ks: seq<Key>, groups: map<string, set<string>>)
  {
    && (forall b :: b in groups <==> exists i :: 0 <= i < |ks| && ks[i].base == b)
    && (forall b, e :: b in groups ==> (e in groups[b] <==> exists i :: 0 <= i < |ks| && ks[i] == Key(b, e)))
  }

  /** The image map holds exactly the png files, each under its full name with its own URL. */
  ghost predicate PngsOf(fs: seq<File>, ks: seq<Key>, pngs: map<string, ObjectUrl>)
    requires |ks| == |fs|
  {
    && (forall n :: n in pngs <==> exists i :: 0 <= i < |fs| && ks[i].ext == "png" && fs[i].name == n)
    && (forall i :: 0 <= i < |fs| && ks[i].ext == "png" ==> fs[i].name in pngs && pngs[fs[i].name] == fs[i].url)
  }

  /** One reference per other extension: the URL of the last file with that extension. */
  ghost predicate RefsOf(fs: seq<File>, ks: seq<Key>, refs: map<string, ObjectUrl>)
    requires |ks| == |fs|
  {
    && (forall e :: e in refs <==> e != "png" && exists i :: 0 <= i < |ks| && ks[i].ext == e)
    && (forall i :: 0 <= i < |fs| && ks[i].ext != "png" && LastOfExt(ks, i) ==>
          ks[i].ext in refs && refs[ks[i].ext] == fs[i].url)
  }

  ghost predicate Summarizes(fs: seq<File>, ks: seq<Key>, st: Scan)
    requires |ks| == |fs| && st.Scanning?
  {
    && GroupsOf(ks, st.groups)
    && PngsOf(fs, ks, st.bundle.pngs)
    && RefsOf(fs, ks, st.bundle.refs)
    && (0 < |fs| ==> 0 < |st.order| && st.order[0] == ks[0].base)
  }

  lemma {:induction false} GroupMapSpec(ks: seq<Key>)
    ensures GroupsOf(ks, GroupMap(ks))
  {
    if |ks| > 0 {
      var front, k := ks[..|ks| - 1], ks[|ks| - 1];
      GroupMapSpec(front);
      assert ks == front + [k];
      GroupsStep(front, k, GroupMap(front));
    }
  }

  lemma {:induction false} GroupsStep(ks: seq<Key>, k: Key, groups: map<string, set<string>>)
    requires GroupsOf(ks, groups)
    ensures GroupsOf(ks + [k], AddKey(groups, k))
  {
    var ks' := ks + [k];
    var groups' := AddKey(groups, k);
    assert ks'[|ks|] == k;
    assert forall i :: 0 <= i < |ks| ==> ks'[i] == ks[i];
    forall b, e | b in groups'
      ensures e in groups'[b] <==> exists i :: 0 <= i < |ks'| && ks'[i] == Key(b, e)
    {
      if b in groups {
        assert e in groups[b] <==> exists i :: 0 <= i < |ks| && ks[i] == Key(b, e);
      }
    }
  }

  lemma {:induction false} BaseOrderSpec(ks: seq<Key>)
    ensures Distinct(BaseOrder(ks))
    ensures forall b :: b in BaseOrder(ks) <==> b in GroupMap(ks)
    ensures 0 < |ks| ==> 0 < |BaseOrder(ks)| && BaseOrder(ks)[0] == ks[0].base
  {
    if |ks| > 0 {
      var front := ks[..|ks| - 1];
      BaseOrderSpec(front);
      if |front| > 0 {
        assert front[0] == ks[0];
      } else {
        assert BaseOrder(front) == [] && GroupMap(front) == map[];
      }
    }
  }

  lemma {:induction false} PngsSpec(fs: seq<File>, ks: seq<Key>)
    requires |ks| == |fs| && Consistent(fs, ks) && !HasDuplicate(ks)
    ensures PngsOf(fs, ks, BundleOf(fs, ks).pngs)
  {
    var n := |fs|;
    if n > 0 {
      var front, f, kfront, k := fs[..n - 1], fs[n - 1], ks[..n - 1], ks[n - 1];
      assert fs == front + [f] && ks == kfront + [k];
      assert forall i :: 0 <= i < n - 1 ==> front[i] == fs[i] && kfront[i] == ks[i];
      assert !HasDuplicate(kfront) by {
        forall i, j | 0 <= i < j < n - 1 ensures kfront[i] != kfront[j] {
          assert ks[i] != ks[j];
        }
      }
      PngsSpec(front, kfront);
      PngsStep(front, kfront, f, k, BundleOf(front, kfront).pngs);
    }
  }

  lemma {:induction false} PngsStep(fs: seq<File>, ks: seq<Key>, f: File, k: Key, pngs: map<string, ObjectUrl>)
    requires |ks| == |fs| && PngsOf(fs, ks, pngs)
    requires forall i :: 0 <= i < |fs| && fs[i].name == f.name ==> ks[i] == k
    requires forall i :: 0 <= i < |ks| ==> ks[i] != k
    ensures PngsOf(fs + [f], ks + [k], if k.ext == "png" then pngs[f.name := f.url] else pngs)
  {
    var fs', ks' := fs + [f], ks + [k];
    assert fs'[|fs|] == f && ks'[|fs|] == k;
    assert forall i :: 0 <= i < |fs| ==> fs'[i] == fs[i] && ks'[i] == ks[i];
  }

  lemma {:induction false} RefsSpec(fs: seq<File>, ks: seq<Key>)
    requires |ks| == |fs|
    ensures RefsOf(fs, ks, BundleOf(fs, ks).refs)
  {
    var n := |fs|;
    if n > 0 {
      var front, f, kfront, k := fs[..n - 1], fs[n - 1], ks[..n - 1], ks[n - 1];
      assert fs == front + [f] && ks == kfront + [k];
      RefsSpec(front, kfront);
      RefsStep(front, kfront, f, k, BundleOf(front, kfront).refs);
    }
  }

  lemma {:induction false} RefsStep(fs: seq<File>, ks: seq<Key>, f: File, k: Key, refs: map<string, ObjectUrl>)
    requires |ks| == |fs| && RefsOf(fs, ks, refs)
    ensures RefsOf(fs + [f], ks + [k], if k.ext == "png" then refs else refs[k.ext := f.url])
  {
    var fs', ks' := fs + [f], ks + [k];
    var refs' := if k.ext == "png" then refs else refs[k.ext := f.url];
    assert fs'[|fs|] == f && ks'[|fs|] == k;
    assert forall i :: 0 <= i < |fs| ==> fs'[i] == fs[i] && ks'[i] == ks[i];
    forall i | 0 <= i < |fs'| && ks'[i].ext != "png" && LastOfExt(ks', i)
      ensures ks'[i].ext in refs' && refs'[ks'[i].ext] == fs'[i].url
    {
      if i < |fs| {
        assert ks'[|fs|].ext != ks'[i].ext;
        assert LastOfExt(ks, i);
      }
    }
  }

  /** Without a duplicate, the folds summarize the batch. */
  lemma FoldsSummarize(fs: seq<File>, ks: seq<Key>)
    requires |ks| == |fs| && Consistent(fs, ks) && !HasDuplicate(ks)
    ensures Summarizes(fs, ks, Scanning(GroupMap(ks), BaseOrder(ks), BundleOf(fs, ks)))
  {
    GroupMapSpec(ks);
    BaseOrderSpec(ks);
    PngsSpec(fs, ks);
    RefsSpec(fs, ks);
  }

  // ---------------------------------------------------------------------------------------
  // The loop against the folds

  /** The loop either met a duplicate, the later file's pair, or agrees with the folds. */
  ghost predicate ScanInv(fs: seq<File>, ks: seq<Key>, st: Scan)
    requires |ks| == |fs|
  {
    && (st.Duplicate? <==> HasDuplicate(ks))
    && (st.Duplicate? ==> exists i, j :: 0 <= i < j < |ks| && ks[i] == ks[j] && st == Duplicate(ks[j].base, ks[j].ext))
    && (st.Scanning? ==> st == Scanning(GroupMap(ks), BaseOrder(ks), BundleOf(fs, ks)))
  }

  /** A repeated pair stays repeated, at the same positions, when a key is appended. */
  lemma PairSurvives(ks: seq<Key>, k: Key, i: int, j: int)
    requires 0 <= i < j < |ks| && ks[i] == ks[j]
    ensures (ks + [k])[i] == (ks + [k])[j] == ks[j]
    ensures HasDuplicate(ks + [k])
  {
    assert (ks + [k])[i] == ks[i] && (ks + [k])[j] == ks[j];
  }

  /** Appending a key met before makes a repeated pair, ending at the appended key. */
  lemma RepeatedKey(ks: seq<Key>, k: Key, i: int)
    requires 0 <= i < |ks| && ks[i] == k
    ensures (ks + [k])[i] == (ks + [k])[|ks|] == k
    ensures HasDuplicate(ks + [k])
  {
    assert (ks + [k])[i] == ks[i];
  }

  /** Appending a key not met before to keys without a repeat leaves them without one. */
  lemma FreshKey(ks: seq<Key>, k: Key)
    requires !HasDuplicate(ks) && forall i :: 0 <= i < |ks| ==> ks[i] != k
    ensures !HasDuplicate(ks + [k])
  {
    var ks' := ks + [k];
    forall i, j | 0 <= i < j < |ks'| ensures ks'[i] != ks'[j] {
      assert ks'[i] == ks[i];
      if j < |ks| {
        assert ks'[j] == ks[j];
      }
    }
  }

  lemma {:induction false} StepInv(fs: seq<File>, ks: seq<Key>, st: Scan, f: File, k: Key)
    requires |ks| == |fs| && ScanInv(fs, ks, st)
    ensures ScanInv(fs + [f], ks + [k], Step(st, f, k))
  {
    var fs', ks' := fs + [f], ks + [k];
    assert fs'[..|fs|] == fs && ks'[..|ks|] == ks && ks'[|ks|] == k && fs'[|fs|] == f;
    if st.Duplicate? {
      var i, j :| 0 <= i < j < |ks| && ks[i] == ks[j] && st == Duplicate(ks[j].base, ks[j].ext);
      PairSurvives(ks, k, i, j);
    } else {
      GroupMapSpec(ks);
      assert k == Key(k.base, k.ext);
      if k.ext in Exts(GroupMap(ks), k.base) {
        var i :| 0 <= i < |ks| && ks[i] == k;
        RepeatedKey(ks, k, i);
      } else {
        FreshKey(ks, k);
      }
    }
  }

  lemma {:induction false} ScanKeysInv(fs: seq<File>, ks: seq<Key>)
    requires |ks| == |fs|
    ensures ScanInv(fs, ks, ScanKeys(fs, ks))
  {
    var n := |fs|;
    if n > 0 {
      var front, f, kfront, k := fs[..n - 1], fs[n - 1], ks[..n - 1], ks[n - 1];
      ScanKeysInv(front, kfront);
      StepInv(front, kfront, ScanKeys(front, kfront), f, k);
      assert fs == front + [f] && ks == kfront + [k];
    }
  }

  /**
   * A scan that stops at a duplicate reports the first repeat: the pair of the earliest file
   * whose base name and extension an earlier file already had.
   */
  lemma {:induction false} FirstDuplicate(fs: seq<File>, ks: seq<Key>)
    requires |ks| == |fs| && ScanKeys(fs, ks).Duplicate?
    ensures exists i, j :: 0 <= i < j < |ks| && ks[i] == ks[j] && !HasDuplicate(ks[..j])
              && ScanKeys(fs, ks) == Duplicate(ks[j].base, ks[j].ext)
  {
    var n := |fs|;
    var front, kfront, k := fs[..n - 1], ks[..n - 1], ks[n - 1];
    var prev := ScanKeys(front, kfront);
    if prev.Duplicate? {
      FirstDuplicate(front, kfront);
      var i, j :| 0 <= i < j < |kfront| && kfront[i] == kfront[j] && !HasDuplicate(kfront[..j])
                  && prev == Duplicate(kfront[j].base, kfront[j].ext);
      assert kfront[..j] == ks[..j];
      assert ks[i] == kfront[i] && ks[j] == kfront[j];
    } else {
      ScanKeysInv(front, kfront);
      GroupMapSpec(kfront);
      assert k == Key(k.base, k.ext);
      var i :| 0 <= i < |kfront| && kfront[i] == k;
      assert ks[..n - 1] == kfront;
      assert ks[i] == k;
    }
  }

  /**
   * The scan stops at a duplicate exactly when two files of the batch share base name and
   * extension, and reports the pair of the first file that repeats an earlier one; otherwise it
   * has grouped every file by base name, stored every png under its full name and kept the last
   * reference per other extension.
   */
  lemma ScanFilesSpec(fs: seq<File>)
    ensures ScanFiles(fs).Duplicate? <==> HasDuplicate(Keys(fs))
    ensures ScanFiles(fs).Duplicate? ==>
              exists i, j :: 0 <= i < j < |fs| && Keys(fs)[i] == Keys(fs)[j] && !HasDuplicate(Keys(fs)[..j])
                && ScanFiles(fs) == Duplicate(Keys(fs)[j].base, Keys(fs)[j].ext)
    ensures ScanFiles(fs).Scanning? ==> Summarizes(fs, Keys(fs), ScanFiles(fs))
  {
    var ks := Keys(fs);
    ScanKeysInv(fs, ks);
    if ScanKeys(fs, ks).Duplicate? {
      FirstDuplicate(fs, ks);
    }
    if !HasDuplicate(ks) {
      KeysConsistent(fs);
      FoldsSummarize(fs, ks);
    }
  }

  /** The scan of the first i + 1 files is one step past the scan of the first i. */
  lemma ScanKeysPrefix(fs: seq<File>, ks: seq<Key>, i: nat)
    requires |ks| == |fs| && i < |fs|
    ensures ScanKeys(fs[..i + 1], ks[..i + 1]) == Step(ScanKeys(fs[..i], ks[..i]), fs[i], ks[i])
  {
    assert fs[..i + 1][..i] == fs[..i] && ks[..i + 1][..i] == ks[..i];
  }

  /** Once the scan has met a duplicate, the rest of the batch changes nothing. */
  lemma {:induction false} DuplicateIsFinal(fs: seq<File>, ks: seq<Key>, k: nat)
    requires |ks| == |fs| && k <= |fs| && ScanKeys(fs[..k], ks[..k]).Duplicate?
    ensures ScanKeys(fs, ks) == ScanKeys(fs[..k], ks[..k])
    decreases |fs| - k
  {
    if k < |fs| {
      ScanKeysPrefix(fs, ks, k);
      DuplicateIsFinal(fs, ks, k + 1);
    } else {
      assert fs[..k] == fs && ks[..k] == ks;
    }
  }

  // ---------------------------------------------------------------------------------------
  // The outcome

  /** The batches the handler accepts, described by the keys of their files. */
  ghost predicate Acceptable(ks: seq<Key>)
  {
    && 0 < |ks| <= MaxFiles
    && !HasDuplicate(ks)
    && (forall i :: 0 <= i < |ks| ==> ks[i].base == ks[0].base)
    && (exists i :: 0 <= i < |ks| && ks[i].ext == "skel")
    && (exists i :: 0 <= i < |ks| && ks[i].ext == "atlas")
    && (exists i :: 0 <= i < |ks| && ks[i].ext == "png")
  }

  /** The group map has a single key exactly when the batch is non-empty and has one base name. */
  lemma {:induction false} SingleGroup(ks: seq<Key>, groups: map<string, set<string>>, order: seq<string>)
    requires GroupsOf(ks, groups) && Distinct(order) && forall b :: b in order <==> b in groups
    ensures |order| == 1 <==> 0 < |ks| && forall i :: 0 <= i < |ks| ==> ks[i].base == ks[0].base
  {
    assert |order| == 0 || order[0] in groups;
    if |order| == 1 {
      forall i | 0 <= i < |ks| ensures ks[i].base == ks[0].base {
        assert ks[i].base in groups && ks[0].base in groups;
      }
    }
    if 0 < |ks| && forall i :: 0 <= i < |ks| ==> ks[i].base == ks[0].base {
      assert ks[0].base in order;
      assert |order| < 2 || (order[0] in groups && order[1] in groups);
    }
  }

  /** Which key of the group map the handler takes as the name. */
  lemma NameOfScan(ks: seq<Key>, groups: map<string, set<string>>, order: seq<string>)
    requires GroupsOf(ks, groups) && forall b :: b in order <==> b in groups
    requires 0 < |ks| ==> 0 < |order| && order[0] == ks[0].base
    ensures |ks| == 0 ==> FirstOwnKey(order) == ""
    ensures |ks| > 0 ==> exists i :: 0 <= i < |ks| && FirstOwnKey(order) == ks[i].base
    ensures |ks| > 0 && (forall i :: 0 <= i < |ks| ==> !IsArrayIndex(ks[i].base)) ==>
              FirstOwnKey(order) == ks[0].base
  {
    assert |order| == 0 || order[0] in groups;
    if |ks| > 0 {
      assert FirstOwnKey(order) in groups;
      if forall i :: 0 <= i < |ks| ==> !IsArrayIndex(ks[i].base) {
        forall key | key in order ensures !IsArrayIndex(key) {
          assert key in groups;
        }
      }
    } else {
      assert groups == map[];
    }
  }

  /** The group-map half of the completeness test, stated about the keys. */
  lemma GroupTest(ks: seq<Key>, groups: map<string, set<string>>, order: seq<string>)
    requires GroupsOf(ks, groups) && Distinct(order) && forall b :: b in order <==> b in groups
    requires 0 < |ks| ==> 0 < |order| && order[0] == ks[0].base
    ensures (&& |order| == 1
             && "skel" in groups[FirstOwnKey(order)]
             && "atlas" in groups[FirstOwnKey(order)])
        <==> (&& 0 < |ks|
              && (forall i :: 0 <= i < |ks| ==> ks[i].base == ks[0].base)
              && (exists i :: 0 <= i < |ks| && ks[i].ext == "skel")
              && (exists i :: 0 <= i < |ks| && ks[i].ext == "atlas"))
  {
    SingleGroup(ks, groups, order);
    if |order| == 1 {
      var name := FirstOwnKey(order);
      assert name == order[0] == ks[0].base;
      assert "skel" in groups[name] <==> exists i :: 0 <= i < |ks| && ks[i] == Key(name, "skel");
      assert "atlas" in groups[name] <==> exists i :: 0 <= i < |ks| && ks[i] == Key(name, "atlas");
    }
  }

  /** The image-map half of the completeness test, stated about the files. */
  lemma PngTest(fs: seq<File>, ks: seq<Key>, pngs: map<string, ObjectUrl>)
    requires |ks| == |fs| && PngsOf(fs, ks, pngs)
    ensures |pngs| != 0 <==> exists i :: 0 <= i < |ks| && ks[i].ext == "png"
  {
    if exists i :: 0 <= i < |ks| && ks[i].ext == "png" {
      var i :| 0 <= i < |ks| && ks[i].ext == "png";
      assert fs[i].name in pngs;
    } else {
      assert pngs == map[];
    }
  }

  /** The part of `ClassifySpec` about a finished scan, on plain values. */
  lemma FinishedScan(fs: seq<File>, ks: seq<Key>, st: Scan)
    requires |ks| == |fs| <= MaxFiles && st.Scanning? && WellFormed(st) && Summarizes(fs, ks, st)
    requires !HasDuplicate(ks)
    ensures Complete(st) <==> Acceptable(ks)
    ensures |fs| == 0 ==> FirstOwnKey(st.order) == ""
    ensures |fs| > 0 ==> exists i :: 0 <= i < |ks| && FirstOwnKey(st.order) == ks[i].base
    ensures |fs| > 0 && (forall i :: 0 <= i < |ks| ==> !IsArrayIndex(ks[i].base)) ==>
              FirstOwnKey(st.order) == ks[0].base
    ensures Complete(st) ==> FirstOwnKey(st.order) == ks[0].base
  {
    NameOfScan(ks, st.groups, st.order);
    GroupTest(ks, st.groups, st.order);
    PngTest(fs, ks, st.bundle.pngs);
  }

  /**
   * The outcome of a batch, in terms of its files: more than ten files are refused outright;
   * otherwise a repeated base name and extension is refused, naming the pair of the first file
   * that repeats an earlier one;
   * otherwise the batch is accepted exactly when all files share one base name and among them
   * are a skel, an atlas and a png. Whenever the loop finished, the outcome carries the image
   * map, the per-extension references, and as name the first own key of the group map: a base
   * name of the batch, the first file's when no base name is an array index.
   */
  lemma {:induction false} ClassifySpec(fs: seq<File>)
    ensures Classify(fs).TooManyFiles? <==> |fs| > MaxFiles
    ensures Classify(fs).DuplicateFile? <==> |fs| <= MaxFiles && HasDuplicate(Keys(fs))
    ensures Classify(fs).DuplicateFile? ==>
              exists i, j :: 0 <= i < j < |fs| && Keys(fs)[i] == Keys(fs)[j] && !HasDuplicate(Keys(fs)[..j])
                && Classify(fs) == DuplicateFile(Keys(fs)[j].base, Keys(fs)[j].ext)
    ensures Classify(fs).Accepted? <==> Acceptable(Keys(fs))
    ensures Classify(fs).Incomplete? <==> |fs| <= MaxFiles && !HasDuplicate(Keys(fs)) && !Acceptable(Keys(fs))
    ensures Classify(fs).Accepted? || Classify(fs).Incomplete? ==>
              && PngsOf(fs, Keys(fs), Classify(fs).fileData.pngs)
              && RefsOf(fs, Keys(fs), Classify(fs).fileData.refs)
              && (|fs| == 0 ==> Classify(fs).nameFile == "")
              && (|fs| > 0 ==> exists i :: 0 <= i < |fs| && Classify(fs).nameFile == Keys(fs)[i].base)
              && (|fs| > 0 && (forall i :: 0 <= i < |fs| ==> !IsArrayIndex(Keys(fs)[i].base)) ==>
                    Classify(fs).nameFile == Keys(fs)[0].base)
    ensures Classify(fs).Accepted? ==> Classify(fs).nameFile == Keys(fs)[0].base
  {
    ScanFilesSpec(fs);
    if |fs| <= MaxFiles && ScanFiles(fs).Scanning? {
      FinishedScan(fs, Keys(fs), ScanFiles(fs));
    }
  }

  /** All files share one base name and none repeats its key, so no extension occurs twice. */
  lemma DistinctExts(ks: seq<Key>)
    requires Acceptable(ks)
    ensures forall i, j :: 0 <= i < j < |ks| ==> ks[i].ext != ks[j].ext
  {
    forall i, j | 0 <= i < j < |ks| ensures ks[i].ext != ks[j].ext {
      assert ks[i].base == ks[j].base;
      assert ks[i] != ks[j];
    }
  }

  /** With no extension twice, the image map holds the single png file alone. */
  lemma OnePng(fs: seq<File>, ks: seq<Key>, pngs: map<string, ObjectUrl>)
    requires |ks| == |fs| && PngsOf(fs, ks, pngs)
    requires forall i, j :: 0 <= i < j < |ks| ==> ks[i].ext != ks[j].ext
    ensures forall i :: 0 <= i < |fs| && ks[i].ext == "png" ==> pngs == map[fs[i].name := fs[i].url]
  {
    forall i | 0 <= i < |fs| && ks[i].ext == "png" ensures pngs == map[fs[i].name := fs[i].url] {
      forall n | n in pngs ensures n == fs[i].name {
        var j :| 0 <= j < |fs| && ks[j].ext == "png" && fs[j].name == n;
        assert !(j < i) && !(i < j);
      }
    }
  }

  /**
   * In an accepted batch no extension occurs twice, since all files share one base name and a
   * repeated extension would be a duplicate. So it holds exactly one png, and the image map
   * holds that file alone, under its full name.
   */
  lemma AcceptedHasOnePng(fs: seq<File>)
    requires Classify(fs).Accepted?
    ensures forall i, j :: 0 <= i < j < |fs| ==> Keys(fs)[i].ext != Keys(fs)[j].ext
    ensures exists i :: 0 <= i < |fs| && Keys(fs)[i].ext == "png"
    ensures forall i :: 0 <= i < |fs| && Keys(fs)[i].ext == "png" ==>
              Classify(fs).fileData.pngs == map[fs[i].name := fs[i].url]
  {
    var ks := Keys(fs);
    var pngs := Classify(fs).fileData.pngs;
    ClassifySpec(fs);
    DistinctExts(ks);
    forall i | 0 <= i < |fs| && ks[i].ext == "png" ensures pngs == map[fs[i].name := fs[i].url] {
      OnePng(fs, ks, pngs);
    }
  }
}
