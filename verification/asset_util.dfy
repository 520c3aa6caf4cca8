/** The asset server's scale map: the files of one directory are parsed
    into asset name, platform and resolution, grouped under a per-asset key,
    and kept sorted by resolution with a parallel list of file paths; a
    request then picks the platform-specific record or the plain one.

    Parsing asset file names and joining paths are done by collaborators
    that are not part of this model; they are parameters here. */
module AssetUtil {
  import opened Wrappers
  import opened Seqs

  /** What the asset-name parser extracts from a file name. Only `<` is
      ever applied to the resolution. */
  datatype AssetPath = AssetPath(assetName: string, platform: Option<string>, resolution: int)

  /** Resolutions in ascending order and the file at each resolution. */
  datatype AssetRecord = AssetRecord(scales: seq<int>, files: seq<string>)

  /** The asset-name parser: a file name and the accepted platforms give a
      parsed asset, or `None` when the name is not an asset's. */
  type Parser = (string, set<string>) -> Option<AssetPath>

  /** Joining a directory and a file name into a path. */
  type PathJoin = (string, string) -> string

  function Platforms(platform: Option<string>): set<string>
  {
    if platform.Some? then {platform.value} else {}
  }

  /** `getAssetKey`: the name alone, or the name, `" : "` and the
      platform. */
  function GetAssetKey(assetName: string, platform: Option<string>): (k: string)
    ensures platform.None? ==> k == assetName
    ensures platform.Some? ==>
      && |k| == |assetName| + 3 + |platform.value|
      && k[..|assetName|] == assetName
      && k[|assetName|..|assetName| + 3] == " : "
      && k[|assetName| + 3..] == platform.value
  {
    match platform
    case Some(p) => assetName + " : " + p
    case None => assetName
  }

  /** For one asset name the plain key and each platform's key are pairwise
      different, and all of them start with the name. */
  lemma AssetKeysSeparatePlatforms(assetName: string, p: string, q: string)
    ensures GetAssetKey(assetName, Some(p)) == GetAssetKey(assetName, Some(q)) <==> p == q
    ensures GetAssetKey(assetName, Some(p)) != GetAssetKey(assetName, None)
    ensures GetAssetKey(assetName, Some(p))[..|assetName|] == assetName
    ensures GetAssetKey(assetName, None) == assetName
  {
    var kp, kq := GetAssetKey(assetName, Some(p)), GetAssetKey(assetName, Some(q));
    if kp == kq {
      assert p == kp[|assetName| + 3..];
      assert q == kq[|assetName| + 3..];
    }
  }

  function KeyOf(asset: AssetPath): string
  {
    GetAssetKey(asset.assetName, asset.platform)
  }

  // ---------------------------------------------------------------------
  // sorted insertion

  predicate Sorted(s: seq<int>)
  {
    forall i, j :: 0 <= i < j < |s| ==> s[i] <= s[j]
  }

  /** The index the insertion loop stops at: the first scale strictly
      greater than `resolution`, or the end. */
  function InsertIndex(scales: seq<int>, resolution: int): (i: nat)
    ensures i <= |scales|
    ensures forall k :: 0 <= k < i ==> scales[k] <= resolution
    ensures i < |scales| ==> resolution < scales[i]
  {
    if |scales| == 0 then 0
    else if resolution < scales[0] then 0
    else 1 + InsertIndex(scales[1..], resolution)
  }

  /** `Array.prototype.splice(at, 0, x)`: an index past the end appends. */
  function SpliceIn<T>(s: seq<T>, at: nat, x: T): (r: seq<T>)
  {
    if at <= |s| then s[..at] + [x] + s[at..] else s + [x]
  }

  /** Both splices of one insertion into a record. */
  function Insert(record: AssetRecord, resolution: int, file: string): AssetRecord
  {
    var at := InsertIndex(record.scales, resolution);
    AssetRecord(SpliceIn(record.scales, at, resolution), SpliceIn(record.files, at, file))
  }

  predicate Aligned(record: AssetRecord)
  {
    |record.scales| == |record.files|
  }

  /** The record as (resolution, file) pairs. */
  function Pairs(record: AssetRecord): (ps: seq<(int, string)>)
    requires Aligned(record)
    ensures |ps| == |record.scales|
  {
    seq(|record.scales|, i requires 0 <= i < |record.scales| && i < |record.files| => (record.scales[i], record.files[i]))
  }

  function HasScale(v: int): ((int, string)) -> bool
  {
    (e: (int, string)) => e.0 == v
  }

  /** The entries with resolution `v`, in order. */
  function WithScale(ps: seq<(int, string)>, v: int): seq<(int, string)>
  {
    Filter(ps, HasScale(v))
  }

  lemma InsertShape(record: AssetRecord, resolution: int, file: string)
    requires Aligned(record)
    ensures var at := InsertIndex(record.scales, resolution);
      && Aligned(Insert(record, resolution, file))
      && Insert(record, resolution, file).scales == record.scales[..at] + [resolution] + record.scales[at..]
      && Pairs(Insert(record, resolution, file)) == Pairs(record)[..at] + [(resolution, file)] + Pairs(record)[at..]
  {
    var at := InsertIndex(record.scales, resolution);
    var r := Insert(record, resolution, file);
    assert r.scales == record.scales[..at] + [resolution] + record.scales[at..];
    assert r.files == record.files[..at] + [file] + record.files[at..];
    var ps, qs := Pairs(record), Pairs(r);
    var expected := ps[..at] + [(resolution, file)] + ps[at..];
    assert |qs| == |expected|;
    forall i | 0 <= i < |qs| ensures qs[i] == expected[i] {
      if i < at {
        assert expected[i] == ps[i];
      } else if i == at {
      } else {
        assert expected[i] == ps[i - 1];
      }
    }
  }

  lemma InsertSorted(record: AssetRecord, resolution: int, file: string)
    requires Aligned(record) && Sorted(record.scales)
    ensures Sorted(Insert(record, resolution, file).scales)
  {
    var at := InsertIndex(record.scales, resolution);
    InsertShape(record, resolution, file);
    var s := Insert(record, resolution, file).scales;
    forall i, j | 0 <= i < j < |s| ensures s[i] <= s[j] {
      if j < at || i > at {
      } else if i == at {
        assert record.scales[at] <= record.scales[j - 1];
      } else if j == at {
      } else {
        assert record.scales[i] <= resolution;
        assert resolution < record.scales[at] <= record.scales[j - 1];
      }
    }
  }

  /** Every pair from the insertion point on has a greater resolution. */
  lemma SuffixAbove(record: AssetRecord, resolution: int)
    requires Aligned(record) && Sorted(record.scales)
    ensures var at := InsertIndex(record.scales, resolution);
      forall k :: at <= k < |Pairs(record)| ==> resolution < Pairs(record)[k].0
  {
    var at := InsertIndex(record.scales, resolution);
    forall k | at <= k < |Pairs(record)| ensures resolution < Pairs(record)[k].0 {
      assert record.scales[at] <= record.scales[k];
    }
  }

  /** Splicing `e` in before a suffix of greater resolutions appends it to
      the pairs of its own resolution and leaves the others alone. */
  lemma StableSplice(ps: seq<(int, string)>, at: nat, e: (int, string), v: int)
    requires at <= |ps|
    requires forall k :: at <= k < |ps| ==> e.0 < ps[k].0
    ensures WithScale(ps[..at] + [e] + ps[at..], v) == WithScale(ps, v) + (if v == e.0 then [e] else [])
  {
    var pre, post := ps[..at], ps[at..];
    assert ps == pre + post;
    FilterSplice(pre, e, post, HasScale(v));
    if v == e.0 {
      forall k | 0 <= k < |post| ensures !HasScale(v)(post[k]) {
        assert post[k] == ps[at + k];
      }
      FilterNone(post, HasScale(v));
    }
  }

  lemma InsertStable(record: AssetRecord, resolution: int, file: string, v: int)
    requires Aligned(record) && Sorted(record.scales)
    ensures WithScale(Pairs(Insert(record, resolution, file)), v) ==
      WithScale(Pairs(record), v) + (if v == resolution then [(resolution, file)] else [])
  {
    InsertShape(record, resolution, file);
    SuffixAbove(record, resolution);
    StableSplice(Pairs(record), InsertIndex(record.scales, resolution), (resolution, file), v);
  }

  /** Inserting keeps a record aligned and sorted, adds exactly the new
      pair, and places it after every pair of equal resolution and before
      every greater one: for each resolution the pairs keep arrival order. */
  lemma InsertKeepsOrder(record: AssetRecord, resolution: int, file: string)
    requires Aligned(record) && Sorted(record.scales)
    ensures Aligned(Insert(record, resolution, file))
    ensures Sorted(Insert(record, resolution, file).scales)
    ensures multiset(Pairs(Insert(record, resolution, file))) ==
      multiset(Pairs(record)) + multiset{(resolution, file)}
    ensures forall v ::
      WithScale(Pairs(Insert(record, resolution, file)), v) ==
      WithScale(Pairs(record), v) + (if v == resolution then [(resolution, file)] else [])
  {
    var at := InsertIndex(record.scales, resolution);
    InsertShape(record, resolution, file);
    InsertSorted(record, resolution, file);
    var ps := Pairs(record);
    assert ps == ps[..at] + ps[at..];
    forall v ensures WithScale(Pairs(Insert(record, resolution, file)), v) ==
      WithScale(Pairs(record), v) + (if v == resolution then [(resolution, file)] else []) {
      InsertStable(record, resolution, file, v);
    }
  }

  // ---------------------------------------------------------------------
  // buildAssetMap

  /** The (resolution, joined path) pair a parsed file contributes under
      `key`, if any. */
  function EntryOf(dir: string, file: string, platform: Option<string>, tryParse: Parser, join: PathJoin, key: string): seq<(int, string)>
  {
    match tryParse(file, Platforms(platform))
    case Some(asset) => if KeyOf(asset) == key then [(asset.resolution, join(dir, file))] else []
    case None => []
  }

  /** All pairs parsed under `key`, in file order. */
  function ParsedEntries(dir: string, files: seq<string>, platform: Option<string>, tryParse: Parser, join: PathJoin, key: string): seq<(int, string)>
  {
    if |files| == 0 then []
    else
      ParsedEntries(dir, files[..|files| - 1], platform, tryParse, join, key) +
      EntryOf(dir, files[|files| - 1], platform, tryParse, join, key)
  }

  predicate ParsesTo(file: string, platform: Option<string>, tryParse: Parser, key: string)
  {
    tryParse(file, Platforms(platform)).Some? && KeyOf(tryParse(file, Platforms(platform)).value) == key
  }

  /** `buildAssetMap(dir, files, platform)`: the files in order, each one
      that parses inserted into the record of its key. */
  function BuildAssetMap(dir: string, files: seq<string>, platform: Option<string>, tryParse: Parser, join: PathJoin): (r: map<string, AssetRecord>)
    ensures forall key :: key in r ==> WellFormed(r[key])
  {
    if |files| == 0 then map[]
    else
      var m := BuildAssetMap(dir, files[..|files| - 1], platform, tryParse, join);
      var file := files[|files| - 1];
      match tryParse(file, Platforms(platform))
      case None => m
      case Some(asset) =>
        var key := KeyOf(asset);
        var record := if key in m then m[key] else AssetRecord([], []);
        InsertShape(record, asset.resolution, join(dir, file));
        InsertSorted(record, asset.resolution, join(dir, file));
        m[key := Insert(record, asset.resolution, join(dir, file))]
  }

  /** What every record of the map looks like: as many files as scales,
      scales ascending, and at least one file. */
  predicate WellFormed(record: AssetRecord)
  {
    Aligned(record) && Sorted(record.scales) && |record.scales| > 0
  }

  /** A record holds exactly `entries`, sorted by resolution, with the
      entries of equal resolution in the order given. */
  ghost predicate RecordMatches(record: AssetRecord, entries: seq<(int, string)>)
  {
    && Aligned(record)
    && Sorted(record.scales)
    && multiset(Pairs(record)) == multiset(entries)
    && forall v :: WithScale(Pairs(record), v) == WithScale(entries, v)
  }

  lemma ExtendEntries(dir: string, files: seq<string>, platform: Option<string>, tryParse: Parser, join: PathJoin, key: string)
    requires |files| > 0
    ensures ParsedEntries(dir, files, platform, tryParse, join, key) ==
      ParsedEntries(dir, files[..|files| - 1], platform, tryParse, join, key) +
      EntryOf(dir, files[|files| - 1], platform, tryParse, join, key)
  {
  }

  lemma EmptyMatches()
    ensures RecordMatches(AssetRecord([], []), [])
  {
    assert Pairs(AssetRecord([], [])) == [];
  }

  /** Inserting one more parsed file keeps a record in step with its
      entries. */
  lemma InsertMatches(record: AssetRecord, entries: seq<(int, string)>, e: (int, string))
    requires RecordMatches(record, entries)
    ensures RecordMatches(Insert(record, e.0, e.1), entries + [e])
  {
    InsertKeepsOrder(record, e.0, e.1);
    forall v ensures WithScale(entries + [e], v) == WithScale(entries, v) + (if v == e.0 then [e] else []) {
      FilterAppend(entries, [e], HasScale(v));
      assert [e][..0] == [];
    }
  }

  /** The map built from `files` restricted to one key. */
  lemma {:induction false} BuildAssetMapKey(dir: string, files: seq<string>, platform: Option<string>, tryParse: Parser, join: PathJoin, key: string)
    ensures key in BuildAssetMap(dir, files, platform, tryParse, join) <==>
      |ParsedEntries(dir, files, platform, tryParse, join, key)| > 0
    ensures key in BuildAssetMap(dir, files, platform, tryParse, join) ==>
      RecordMatches(BuildAssetMap(dir, files, platform, tryParse, join)[key],
                    ParsedEntries(dir, files, platform, tryParse, join, key))
    decreases |files|
  {
    if |files| > 0 {
      var init := files[..|files| - 1];
      var file := files[|files| - 1];
      BuildAssetMapKey(dir, init, platform, tryParse, join, key);
      ExtendEntries(dir, files, platform, tryParse, join, key);
      var m0 := BuildAssetMap(dir, init, platform, tryParse, join);
      var es0 := ParsedEntries(dir, init, platform, tryParse, join, key);
      var m := BuildAssetMap(dir, files, platform, tryParse, join);
      var es := ParsedEntries(dir, files, platform, tryParse, join, key);
      match tryParse(file, Platforms(platform))
      case None =>
        assert m == m0 && es == es0;
      case Some(asset) =>
        var k := KeyOf(asset);
        var e := (asset.resolution, join(dir, file));
        var record := if k in m0 then m0[k] else AssetRecord([], []);
        assert m == m0[k := Insert(record, e.0, e.1)];
        if k == key {
          assert es == es0 + [e];
          if key !in m0 {
            EmptyMatches();
          }
          InsertMatches(record, es0, e);
        } else {
          assert es == es0;
          assert key in m <==> key in m0;
          assert key in m ==> m[key] == m0[key];
        }
    }
  }

  /** The map has a record exactly for the keys some file parses to, and
      each record holds exactly the files parsed under its key, sorted by
      resolution, files of equal resolution in directory order. */
  lemma BuildAssetMapSpec(dir: string, files: seq<string>, platform: Option<string>, tryParse: Parser, join: PathJoin)
    ensures forall key :: key in BuildAssetMap(dir, files, platform, tryParse, join) <==>
      |ParsedEntries(dir, files, platform, tryParse, join, key)| > 0
    ensures forall key :: key in BuildAssetMap(dir, files, platform, tryParse, join) ==>
      RecordMatches(BuildAssetMap(dir, files, platform, tryParse, join)[key],
                    ParsedEntries(dir, files, platform, tryParse, join, key))
  {
    forall key
      ensures key in BuildAssetMap(dir, files, platform, tryParse, join) <==>
        |ParsedEntries(dir, files, platform, tryParse, join, key)| > 0
      ensures key in BuildAssetMap(dir, files, platform, tryParse, join) ==>
        RecordMatches(BuildAssetMap(dir, files, platform, tryParse, join)[key],
                      ParsedEntries(dir, files, platform, tryParse, join, key))
    {
      BuildAssetMapKey(dir, files, platform, tryParse, join, key);
    }
  }

  /** A file counts under `key` exactly when it parses to that key. */
  lemma {:induction false} ParsedEntriesExist(dir: string, files: seq<string>, platform: Option<string>, tryParse: Parser, join: PathJoin, key: string)
    ensures |ParsedEntries(dir, files, platform, tryParse, join, key)| > 0 <==>
      exists i :: 0 <= i < |files| && ParsesTo(files[i], platform, tryParse, key)
    decreases |files|
  {
    if |files| > 0 {
      var init := files[..|files| - 1];
      ParsedEntriesExist(dir, init, platform, tryParse, join, key);
      if exists i :: 0 <= i < |files| && ParsesTo(files[i], platform, tryParse, key) {
        var i :| 0 <= i < |files| && ParsesTo(files[i], platform, tryParse, key);
        if i < |files| - 1 {
          assert init[i] == files[i];
        }
      }
      if exists i :: 0 <= i < |init| && ParsesTo(init[i], platform, tryParse, key) {
        var i :| 0 <= i < |init| && ParsesTo(init[i], platform, tryParse, key);
        assert files[i] == init[i];
      }
    }
  }

  /** Files the parser rejects contribute to no record, and nothing but the
      parsed keys appear. */
  lemma {:induction false} AssetMapKeys(dir: string, files: seq<string>, platform: Option<string>, tryParse: Parser, join: PathJoin, key: string)
    ensures key in BuildAssetMap(dir, files, platform, tryParse, join) <==>
      exists i :: 0 <= i < |files| && ParsesTo(files[i], platform, tryParse, key)
  {
    BuildAssetMapSpec(dir, files, platform, tryParse, join);
    ParsedEntriesExist(dir, files, platform, tryParse, join, key);
  }

  // ---------------------------------------------------------------------
  // getAbsoluteAssetRecord

  datatype AssetError =
    | ParseFailed(filename: string)
    | AssetNotFound(message: string)

  /** With a platform, the `"name : platform"` record and then the plain
      one; without, only the plain one. */
  function SelectRecord(m: map<string, AssetRecord>, assetName: string, platform: Option<string>): Option<AssetRecord>
  {
    if platform.Some? && GetAssetKey(assetName, platform) in m then Some(m[GetAssetKey(assetName, platform)])
    else if assetName in m then Some(m[assetName])
    else None
  }

  function PlatformText(platform: Option<string>): string
  {
    if platform.Some? then platform.value else "null"
  }

  /** `getAbsoluteAssetRecord(assetPath, platform)`, given the base name and
      directory of `assetPath` and the directory's listing. `parse` failing
      is the parser's exception. */
  function GetAbsoluteAssetRecord(
    assetPath: string,
    platform: Option<string>,
    dir: string,
    filename: string,
    files: seq<string>,
    parse: Parser,
    tryParse: Parser,
    join: PathJoin): (r: Result<AssetRecord, AssetError>)
    ensures r == Failure(ParseFailed(filename)) <==> parse(filename, Platforms(platform)).None?
    ensures r.Failure? && parse(filename, Platforms(platform)).Some? ==>
      r.error == AssetNotFound("Asset not found: " + assetPath + " for platform: " + PlatformText(platform))
    ensures r.Success? ==> WellFormed(r.value)
  {
    match parse(filename, Platforms(platform))
    case None => Failure(ParseFailed(filename))
    case Some(assetData) =>
      var m := BuildAssetMap(dir, files, platform, tryParse, join);
      match SelectRecord(m, assetData.assetName, platform)
      case Some(record) => Success(record)
      case None => Failure(AssetNotFound("Asset not found: " + assetPath + " for platform: " + PlatformText(platform)))
  }

  /** The record returned is the one for the platform-specific key when a
      platform is given and some file parses to that key, else the one for
      the plain name; the request fails exactly when neither key has a file. */
  lemma RecordSelection(
    assetPath: string, platform: Option<string>, dir: string, filename: string, files: seq<string>,
    parse: Parser, tryParse: Parser, join: PathJoin)
    requires parse(filename, Platforms(platform)).Some?
    ensures var name := parse(filename, Platforms(platform)).value.assetName;
      var r := GetAbsoluteAssetRecord(assetPath, platform, dir, filename, files, parse, tryParse, join);
      var platformEntries := ParsedEntries(dir, files, platform, tryParse, join, GetAssetKey(name, platform));
      var plainEntries := ParsedEntries(dir, files, platform, tryParse, join, name);
      && (platform.Some? && |platformEntries| > 0 ==> r.Success? && RecordMatches(r.value, platformEntries))
      && ((platform.None? || |platformEntries| == 0) && |plainEntries| > 0 ==>
            r.Success? && RecordMatches(r.value, plainEntries))
      && (r.Failure? <==> (platform.None? || |platformEntries| == 0) && |plainEntries| == 0)
      && (r.Failure? ==> r.error == AssetNotFound(
            "Asset not found: " + assetPath + " for platform: " + PlatformText(platform)))
  {
    BuildAssetMapSpec(dir, files, platform, tryParse, join);
  }
}
