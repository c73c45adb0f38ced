/**
 * The decode path of the upload control: the texture resolver handed to the atlas parser, the
 * version gate on the decoded skeleton, and the id rule of the shared asset list. Fetching the
 * skeleton bytes, loading the atlas text and decoding are done by an external animation library;
 * here they are summed up by the `DecodeResult` they produce.
 */
module Registry {
  import opened Batch

  /** The renderable the external decoder produces, an opaque handle here. */
  datatype SpineHandle = SpineHandle(token: nat)

  /** An entry of the shared asset list. */
  datatype Asset = Asset(name: string, id: int, spine: SpineHandle)

  /** What the fetch-and-decode chain hands back: a failure, or a skeleton and its format version. */
  datatype DecodeResult = DecodeFailed | Decoded(version: string, spine: SpineHandle)

  /** What the user or the console is told once decoding is over. */
  datatype Report = Logged | Added(entry: Asset) | IncompatibleVersion(version: string)

  // ---------------------------------------------------------------------------------------
  // The version gate

  /** The version marker a supported skeleton carries. */
  const SupportedVersion: string := "3.8"

  predicate OccursAt(s: string, t: string, i: int)
  {
    0 <= i && i + |t| <= |s| && s[i..i + |t|] == t
  }

  /** `s.includes(t)`. */
  function Includes(s: string, t: string): bool
    decreases |s|
  {
    if |t| <= |s| && s[..|t|] == t then true
    else if |s| == 0 then false
    else Includes(s[1..], t)
  }

  /** `includes` holds exactly when t occurs somewhere in s. */
  lemma {:induction false} IncludesSpec(s: string, t: string)
    ensures Includes(s, t) <==> exists i :: OccursAt(s, t, i)
    decreases |s|
  {
    if |t| <= |s| && s[..|t|] == t {
      assert OccursAt(s, t, 0);
    } else if |s| == 0 {
      assert forall i :: !OccursAt(s, t, i);
    } else {
      IncludesSpec(s[1..], t);
      if exists i :: OccursAt(s[1..], t, i) {
        var i :| OccursAt(s[1..], t, i);
        assert s[1..][i..i + |t|] == s[i + 1..i + 1 + |t|];
        assert OccursAt(s, t, i + 1);
      }
      if exists i :: OccursAt(s, t, i) {
        var i :| OccursAt(s, t, i);
        assert i != 0;
        assert s[1..][i - 1..i - 1 + |t|] == s[i..i + |t|];
        assert OccursAt(s[1..], t, i - 1);
      }
    }
  }

  predicate IsSupportedVersion(version: string) { Includes(version, SupportedVersion) }

  /**
   * The gate is a substring test: any version string with "3.8" somewhere in it passes,
   * whatever comes before or after, and one without it fails.
   */
  lemma SupportedVersionSpec(version: string)
    ensures IsSupportedVersion(version) <==> exists i :: OccursAt(version, "3.8", i)
    ensures IsSupportedVersion("3.8." + version)
    ensures IsSupportedVersion(version + "3.8")
  {
    IncludesSpec(version, SupportedVersion);
    IncludesSpec("3.8." + version, SupportedVersion);
    assert OccursAt("3.8." + version, "3.8", 0);
    IncludesSpec(version + "3.8", SupportedVersion);
    assert OccursAt(version + "3.8", "3.8", |version|);
  }

  /** A 4.x version string without the marker is refused. */
  lemma RefusesOtherVersions()
    ensures !IsSupportedVersion("4.1.23")
  {
    IncludesSpec("4.1.23", SupportedVersion);
    var s := "4.1.23";
    forall i ensures !OccursAt(s, "3.8", i) {
      if 0 <= i && i + 3 <= |s| {
        assert s[i..i + 3][0] == s[i];
        assert s[i..i + 3][1] == s[i + 1];
        assert s[i..i + 3][2] == s[i + 2];
      }
    }
  }

  // ---------------------------------------------------------------------------------------
  // The id rule

  /** The id a new entry gets: the last entry's id plus one, or 1 for an empty list. */
  function NextId(assets: seq<Asset>): int
  {
    (if |assets| > 0 then assets[|assets| - 1].id else 0) + 1
  }

  /** Every entry's id is below the next one's. */
  predicate IdsAscending(assets: seq<Asset>)
  {
    forall i :: 0 <= i < |assets| - 1 ==> assets[i].id < assets[i + 1].id
  }

  /**
   * While ids ascend, the id rule hands out an id above every id in use (so a fresh one), and
   * appending the new entry keeps them ascending.
   */
  lemma {:induction false} NextIdIsFresh(assets: seq<Asset>, name: string, spine: SpineHandle)
    requires IdsAscending(assets)
    ensures forall a :: a in assets ==> a.id < NextId(assets)
    ensures IdsAscending(assets + [Asset(name, NextId(assets), spine)])
  {
    var n := |assets|;
    if n > 1 {
      var front := assets[..n - 1];
      assert IdsAscending(front) by {
        forall i | 0 <= i < |front| - 1 ensures front[i].id < front[i + 1].id {
          assert front[i] == assets[i] && front[i + 1] == assets[i + 1];
        }
      }
      NextIdIsFresh(front, name, spine);
      assert assets == front + [assets[n - 1]];
      assert NextId(front) == assets[n - 2].id + 1;
    }
    var grown := assets + [Asset(name, NextId(assets), spine)];
    forall i | 0 <= i < |grown| - 1 ensures grown[i].id < grown[i + 1].id {
      if i < n - 1 {
        assert grown[i] == assets[i] && grown[i + 1] == assets[i + 1];
      }
    }
  }

  /** Without ascending ids the rule can hand out an id that is already taken. */
  lemma NextIdCanCollide()
    ensures var assets := [Asset("a", 2, SpineHandle(0)), Asset("b", 1, SpineHandle(1))];
            NextId(assets) == assets[0].id
  {
  }

  // ---------------------------------------------------------------------------------------
  // The texture resolver

  /** What the resolver does for one page line of the atlas. */
  datatype TextureLookup = Texture(url: ObjectUrl) | MissingPng(line: string)

  /** The page image of an atlas line: an exact lookup of the line in the image map. */
  function ResolvePage(fileData: Bundle, line: string): TextureLookup
  {
    if line in fileData.pngs then Texture(fileData.pngs[line]) else MissingPng(line)
  }

  /**
   * For the bundle a batch leaves behind, a page line resolves exactly when it is the full
   * name of a png file of that batch, to that file's object URL; any other line is reported
   * missing, by its own text, and no texture is produced for it.
   */
  lemma ResolvesPngsOfBatch(fs: seq<File>, line: string)
    requires Classify(fs).Accepted? || Classify(fs).Incomplete?
    ensures ResolvePage(Classify(fs).fileData, line).Texture? <==>
              exists i :: 0 <= i < |fs| && Keys(fs)[i].ext == "png" && fs[i].name == line
    ensures forall i :: 0 <= i < |fs| && Keys(fs)[i].ext == "png" && fs[i].name == line ==>
              ResolvePage(Classify(fs).fileData, line) == Texture(fs[i].url)
    ensures ResolvePage(Classify(fs).fileData, line).MissingPng? ==>
              ResolvePage(Classify(fs).fileData, line) == MissingPng(line)
  {
    ClassifySpec(fs);
  }

  // ---------------------------------------------------------------------------------------
  // The shared asset list

  /** The asset list shared with the rest of the application. */
  class AssetRegistry {
    var assets: seq<Asset>

    constructor (initial: seq<Asset>)
      ensures assets == initial
    {
      assets := initial;
    }

    /**
     * The end of the decode chain: a failed fetch or decode is only logged; a decoded skeleton
     * whose version carries the marker is appended under the next id; any other version is
     * refused and the list is left alone.
     */
    method Register(name: string, decoded: DecodeResult) returns (report: Report)
      modifies this
      ensures decoded.DecodeFailed? ==> report == Logged && assets == old(assets)
      ensures decoded.Decoded? && IsSupportedVersion(decoded.version) ==>
                report == Added(Asset(name, NextId(old(assets)), decoded.spine))
                && assets == old(assets) + [report.entry]
      ensures decoded.Decoded? && !IsSupportedVersion(decoded.version) ==>
                report == IncompatibleVersion(decoded.version) && assets == old(assets)
    {
      match decoded
      case DecodeFailed =>
        report := Logged;
      case Decoded(version, spine) =>
        var id := if |assets| > 0 then assets[|assets| - 1].id else 0;
        if Includes(version, SupportedVersion) {
          var entry := Asset(name, id + 1, spine);
          assets := assets + [entry];
          report := Added(entry);
        } else {
          report := IncompatibleVersion(version);
        }
    }
  }
}
