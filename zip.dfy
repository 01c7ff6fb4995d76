/**
 * Reading a `.carts` package back: collect the entries whose lowercased
 * names pass a filter into a map, then find the manifest, the README and the
 * optional pack configuration in it.
 *
 * The archive is given as its list of entries in central-directory order;
 * an entry whose content is absent is one whose read stream could not be
 * opened. JSON parsing is a parameter.
 */
module Zip {
  import opened Js

  type Bytes = seq<bv8>

  datatype Entry = Entry(fileName: string, content: Option<Bytes>)

  datatype ZipError = OpenFailed | StreamFailed(name: string) | ManifestNotFound | ReadmeNotFound | ParseError

  datatype Result<T> = Ok(value: T) | Fail(error: ZipError)

  /** Whether `readZip` keeps an entry: its lowercased name passes the filter. */
  predicate Kept(filter: string -> bool, e: Entry)
  {
    filter(ToLower(e.fileName))
  }

  /** The map `readZip` builds from the first `n` entries: later names overwrite earlier ones. */
  function Collected(entries: seq<Entry>, filter: string -> bool, n: nat): map<string, Bytes>
    requires n <= |entries|
  {
    if n == 0 then map[]
    else
      var m := Collected(entries, filter, n - 1);
      var e := entries[n - 1];
      if Kept(filter, e) && e.content.Some? then m[ToLower(e.fileName) := e.content.value] else m
  }

  /** The index of the first kept entry at or after `from` that cannot be read, or `|entries|`. */
  function FirstUnreadable(entries: seq<Entry>, filter: string -> bool, from: nat): (k: nat)
    requires from <= |entries|
    ensures from <= k <= |entries|
    ensures forall i :: from <= i < k ==> !(Kept(filter, entries[i]) && entries[i].content.None?)
    ensures k < |entries| ==> Kept(filter, entries[k]) && entries[k].content.None?
    decreases |entries| - from
  {
    if from == |entries| then from
    else if Kept(filter, entries[from]) && entries[from].content.None? then from
    else FirstUnreadable(entries, filter, from + 1)
  }

  /** What `readZip` resolves or rejects with. */
  function Unzipped(archive: Option<seq<Entry>>, filter: string -> bool): Result<map<string, Bytes>>
  {
    if archive.None? then Fail(OpenFailed)
    else
      var k := FirstUnreadable(archive.value, filter, 0);
      if k == |archive.value| then Ok(Collected(archive.value, filter, |archive.value|))
      else Fail(StreamFailed(ToLower(archive.value[k].fileName)))
  }

  /**
   * `readZip`: read the entries one at a time; a kept entry whose stream
   * cannot be opened closes the archive and rejects.
   */
  method ReadZip(archive: Option<seq<Entry>>, filter: string -> bool) returns (r: Result<map<string, Bytes>>)
    ensures r == Unzipped(archive, filter)
  {
    if archive.None? {
      return Fail(OpenFailed);
    }
    var entries := archive.value;
    ghost var first := FirstUnreadable(entries, filter, 0);
    var result: map<string, Bytes> := map[];
    var i := 0;
    while i < |entries|
      invariant 0 <= i <= |entries|
      invariant i <= first
      invariant result == Collected(entries, filter, i)
    {
      var name := ToLower(entries[i].fileName);
      if filter(name) {
        if entries[i].content.None? {
          return Fail(StreamFailed(name));
        }
        result := result[name := entries[i].content.value];
      }
      i := i + 1;
    }
    return Ok(result);
  }

  /** Every kept entry among the first `n` can be read. */
  predicate Readable(entries: seq<Entry>, filter: string -> bool, n: nat)
    requires n <= |entries|
  {
    forall i :: 0 <= i < n && Kept(filter, entries[i]) ==> entries[i].content.Some?
  }

  /** The `/^package\.json$|^pack-config\.json$|^README\.md$/i` filter. */
  predicate PackageFilter(name: string)
  {
    var n := ToLower(name);
    n == "package.json" || n == "pack-config.json" || n == "readme.md"
  }

  /** What `readCARTSPackage` returns: the manifest, and the configuration when the package has one. */
  datatype Carts = Carts(manifest: Json, configs: Option<Json>)

  function Get(m: map<string, Bytes>, key: string): Option<Bytes>
  {
    if key in m then Some(m[key]) else None
  }

  /**
   * `readCARTSPackage`: the manifest is required first, then a README; a
   * `Buffer` is truthy even when empty. The manifest is parsed before the
   * configuration.
   */
  function ReadCARTSPackage(archive: Option<seq<Entry>>, parse: Bytes -> Option<Json>): Result<Carts>
  {
    var read := Unzipped(archive, PackageFilter);
    if read.Fail? then Fail(read.error)
    else
      var m := read.value;
      var rawManifest := Get(m, "package.json");
      var configManifest := Get(m, "pack-config.json");
      var readme := if Get(m, "README.md").Some? then Get(m, "README.md") else Get(m, "readme.md");
      if rawManifest.None? then Fail(ManifestNotFound)
      else if readme.None? then Fail(ReadmeNotFound)
      else
        var manifest := parse(rawManifest.value);
        if manifest.None? then Fail(ParseError)
        else if configManifest.None? then Ok(Carts(manifest.value, None))
        else
          var configs := parse(configManifest.value);
          if configs.None? then Fail(ParseError) else Ok(Carts(manifest.value, Some(configs.value)))
  }
}

/** Which names the map holds, which entry wins, and what the package must contain. */
module ZipProps {
  import opened Js
  import opened Zip

  /** A key is present iff some kept, readable entry has that lowercased name. */
  lemma {:induction false} CollectedKeys(entries: seq<Entry>, filter: string -> bool, n: nat, k: string)
    requires n <= |entries|
    ensures k in Collected(entries, filter, n) <==>
      exists i :: 0 <= i < n && Kept(filter, entries[i]) && entries[i].content.Some? && ToLower(entries[i].fileName) == k
  {
    if n > 0 {
      CollectedKeys(entries, filter, n - 1, k);
    }
  }

  /** The entry that wins a name is the last kept, readable one with that name. */
  lemma {:induction false} LastEntryWins(entries: seq<Entry>, filter: string -> bool, n: nat, i: nat)
    requires i < n <= |entries| && Kept(filter, entries[i]) && entries[i].content.Some?
    requires forall j :: i < j < n && Kept(filter, entries[j]) && entries[j].content.Some? ==>
      ToLower(entries[j].fileName) != ToLower(entries[i].fileName)
    ensures ToLower(entries[i].fileName) in Collected(entries, filter, n)
    ensures Collected(entries, filter, n)[ToLower(entries[i].fileName)] == entries[i].content.value
  {
    if n - 1 > i {
      LastEntryWins(entries, filter, n - 1, i);
    }
  }

  /** Every key is already lowercase. */
  lemma {:induction false} KeysAreLowercase(entries: seq<Entry>, filter: string -> bool, n: nat, k: string)
    requires n <= |entries| && k in Collected(entries, filter, n)
    ensures ToLower(k) == k
  {
    CollectedKeys(entries, filter, n, k);
    var i :| 0 <= i < n && Kept(filter, entries[i]) && entries[i].content.Some? && ToLower(entries[i].fileName) == k;
    ToLowerFolds(entries[i].fileName);
  }

  /**
   * The package filter looks at the whole entry name in any ASCII case: a
   * root-level `README.MD` or `Package.JSON` is read, a manifest inside a
   * folder or another extension is not.
   */
  lemma PackageFilterExamples()
    ensures PackageFilter("README.MD") && PackageFilter("Package.JSON") && PackageFilter("pack-config.json")
    ensures !PackageFilter("src/package.json") && !PackageFilter("readme.txt")
  {
    assert ToLower("README.MD") == "readme.md";
    assert ToLower("Package.JSON") == "package.json";
    assert ToLower("pack-config.json") == "pack-config.json";
    assert ToLower("src/package.json")[0] == 's';
    assert |ToLower("readme.txt")| == 10;
  }

  /** Only an entry name as long as one of the three can pass. */
  lemma PackageFilterLength(name: string)
    requires PackageFilter(name)
    ensures |name| in {9, 12, 16}
  {
  }

  /** So the `README.md` lookup never succeeds: only `readme.md` can. */
  lemma UppercaseReadmeNeverKey(entries: seq<Entry>, filter: string -> bool)
    ensures "README.md" !in Collected(entries, filter, |entries|)
  {
    ReadmeIsNotLowercase();
    if "README.md" in Collected(entries, filter, |entries|) {
      KeysAreLowercase(entries, filter, |entries|, "README.md");
    }
  }

  lemma ReadmeIsNotLowercase()
    ensures ToLower("README.md") != "README.md"
  {
    assert ToLower("README.md")[0] == 'r';
  }

  /** A missing manifest is reported before a missing README. */
  lemma ManifestCheckedFirst(entries: seq<Entry>, parse: Bytes -> Option<Json>)
    requires Readable(entries, PackageFilter, |entries|)
    requires "package.json" !in Collected(entries, PackageFilter, |entries|)
    ensures ReadCARTSPackage(Some(entries), parse) == Fail(ManifestNotFound)
  {
    ReadableUnzips(entries, PackageFilter);
    assert Get(Collected(entries, PackageFilter, |entries|), "package.json").None?;
  }

  /** When every kept entry can be read, `readZip` resolves with the whole map. */
  lemma ReadableUnzips(entries: seq<Entry>, filter: string -> bool)
    requires Readable(entries, filter, |entries|)
    ensures Unzipped(Some(entries), filter) == Ok(Collected(entries, filter, |entries|))
  {
  }

  /** The package reads iff it has a manifest and a `readme.md` (in any case) and both parses succeed. */
  lemma ReadsIff(entries: seq<Entry>, parse: Bytes -> Option<Json>)
    requires Readable(entries, PackageFilter, |entries|)
    ensures var m := Collected(entries, PackageFilter, |entries|);
      ReadCARTSPackage(Some(entries), parse).Ok? <==>
        "package.json" in m && "readme.md" in m && parse(m["package.json"]).Some? &&
        ("pack-config.json" in m ==> parse(m["pack-config.json"]).Some?)
  {
    ReadableUnzips(entries, PackageFilter);
    UppercaseReadmeNeverKey(entries, PackageFilter);
  }

  /** The configuration is returned iff `pack-config.json` was in the package. */
  lemma ConfigsIff(entries: seq<Entry>, parse: Bytes -> Option<Json>)
    requires ReadCARTSPackage(Some(entries), parse).Ok?
    ensures ReadCARTSPackage(Some(entries), parse).value.configs.Some? <==>
      "pack-config.json" in Collected(entries, PackageFilter, |entries|)
  {
  }
}
