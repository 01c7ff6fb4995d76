/**
 * The `Packing` class of src/common/packing.ts: the bookkeeping of which files
 * go into the `.cloudide` archive. In production mode every plugin file that
 * a built-in catalogue rule accepts joins `modeIgnore`; include entries then
 * take back exact paths from it; finally every collected file whose
 * root-relative path matches `modeIgnore ++ userIgnore` is dropped.
 */
module Packing {
  import opened Js
  import FileMatcher
  import opened FileTree
  import opened Selection

  datatype PackType = Development | Production

  /** The production-mode catalogue of `doExclude`. */
  const CheckList: seq<string> := [".git", ".gitignore", "tsconfig.json", "tsfmt.json", "webpack.config.js",
    "yarn-error.log", "yarn.lock", "npm-debug.log", "package-lock.json", "src/**/*", "**/*.map", "*.cloudide"]

  /** `s.splice(s.indexOf(x), 1)` guarded by `s.indexOf(x) !== -1`: drops the first `x`, if any. */
  function RemoveFirst(s: seq<string>, x: string): (r: seq<string>)
    ensures x !in s ==> r == s
    ensures x in s ==> |r| == |s| - 1
  {
    var i := FirstIndex(s, x);
    if i == -1 then s else s[..i] + s[i + 1..]
  }

  /** `RemoveFirst` for each entry of `xs` in turn. */
  function RemoveEach(s: seq<string>, xs: seq<string>): seq<string>
  {
    if xs == [] then s else RemoveFirst(RemoveEach(s, xs[..|xs| - 1]), xs[|xs| - 1])
  }

  lemma RemoveEachStep(s: seq<string>, xs: seq<string>, i: nat)
    requires i < |xs|
    ensures RemoveEach(s, xs[..i + 1]) == RemoveFirst(RemoveEach(s, xs[..i]), xs[i])
  {
    assert xs[..i + 1][..i] == xs[..i];
  }

  /** The entries `checkNecessary` warns about. */
  predicate Necessary(item: string)
  {
    item == "package.json" || item == "README.md"
  }

  /** The archive's base name: `lower(publisher).name`, or `name` alone, then `-version` when there is one. */
  function ModuleName(publisher: Option<string>, name: string, version: Option<string>): string
  {
    var base := if Present(publisher) then ToLower(publisher.value) + "." + name else name;
    if Present(version) then base + "-" + version.value else base
  }

  /** `pluginRootFolder + path.sep + moduleName + ".cloudide"` (POSIX separator, no normalisation). */
  function ZipPath(root: string, publisher: Option<string>, name: string, version: Option<string>): (r: string)
    ensures StartsWith(r, root + "/") && EndsWith(r, ".cloudide")
  {
    root + "/" + ModuleName(publisher, name, version) + ".cloudide"
  }

  /**
   * The final archive list: the files whose root-relative path `micromatch.contains`
   * does not match against the patterns. `contains` and `relative` stand for
   * `micromatch.contains` and `path.relative(root, _)`.
   */
  function Kept(files: seq<string>, contains: (string, seq<string>) -> bool, relative: string -> string, patterns: seq<string>): seq<string>
  {
    Filter(files, f => !contains(relative(f), patterns))
  }

  class Packing {
    /** The `fileMatch` import, held by the object so that its proofs need not look inside the matcher. */
    const fileMatch: (string, string) -> bool
    var packMode: PackType
    var toZipFiles: seq<string>
    var modeIgnore: seq<string>
    var allFiles: seq<string>
    var userIgnore: seq<string>
    var includeFiles: seq<string>

    /** The plugin root's listing, taken by the constructor's `getAllFiles`. */
    constructor(mode: PackType, userIgnore: seq<string>, includeFiles: seq<string>, root: seq<Entry>)
      ensures packMode == mode && this.userIgnore == userIgnore && this.includeFiles == includeFiles
      ensures toZipFiles == [] && modeIgnore == [] && allFiles == Strings(Walk([], root, |root|))
      ensures fileMatch == FileMatcher.Accepts
    {
      fileMatch := FileMatcher.Accepts;
      packMode := mode;
      this.userIgnore := userIgnore;
      this.includeFiles := includeFiles;
      toZipFiles := [];
      modeIgnore := [];
      allFiles := [];
      new;
      GetAllFiles([], root);
    }

    /** `getAllFiles`: appends every file below `folder` to `allFiles`, skipping `node_modules` and `.git`. */
    method GetAllFiles(folder: seq<string>, entries: seq<Entry>)
      modifies this
      ensures allFiles == old(allFiles) + Strings(Walk(folder, entries, |entries|))
      ensures packMode == old(packMode) && toZipFiles == old(toZipFiles) && modeIgnore == old(modeIgnore)
      ensures userIgnore == old(userIgnore) && includeFiles == old(includeFiles)
      decreases entries
    {
      for i := 0 to |entries|
        invariant packMode == old(packMode) && toZipFiles == old(toZipFiles) && modeIgnore == old(modeIgnore)
        invariant userIgnore == old(userIgnore) && includeFiles == old(includeFiles)
        invariant allFiles == old(allFiles) + Strings(Walk(folder, entries, i))
      {
        var file := entries[i];
        ghost var before := allFiles;
        if Skipped(file.name) {
        } else if file.File? {
          allFiles := allFiles + [PathOf(folder + [file.name])];
        } else {
          GetAllFiles(folder + [file.name], file.children);
        }
        assert allFiles == before + Strings(Recorded(folder, file));
        StringsStep(folder, entries, i);
        AppendAssoc(old(allFiles), Strings(Walk(folder, entries, i)), Strings(Recorded(folder, file)));
      }
    }

    /** `fuzzyMatch`: appends each file once per rule of `list` that accepts it, file by file. */
    method FuzzyMatch(list: seq<string>)
      modifies this
      ensures modeIgnore == old(modeIgnore) + Hits(fileMatch, allFiles, list)
      ensures packMode == old(packMode) && toZipFiles == old(toZipFiles) && allFiles == old(allFiles)
      ensures userIgnore == old(userIgnore) && includeFiles == old(includeFiles)
    {
      for i := 0 to |allFiles|
        invariant packMode == old(packMode) && toZipFiles == old(toZipFiles) && allFiles == old(allFiles)
        invariant userIgnore == old(userIgnore) && includeFiles == old(includeFiles)
        invariant modeIgnore == old(modeIgnore) + Hits(fileMatch, allFiles[..i], list)
      {
        var file := allFiles[i];
        HitsStep(fileMatch, allFiles, list, i);
        for j := 0 to |list|
          invariant packMode == old(packMode) && toZipFiles == old(toZipFiles) && allFiles == old(allFiles)
          invariant userIgnore == old(userIgnore) && includeFiles == old(includeFiles)
          invariant modeIgnore == old(modeIgnore) + Hits(fileMatch, allFiles[..i], list) + Row(fileMatch, file, list[..j])
        {
          RowStep(fileMatch, file, list, j);
          if fileMatch(list[j], file) {
            AppendAssoc(old(modeIgnore) + Hits(fileMatch, allFiles[..i], list), Row(fileMatch, file, list[..j]), [file]);
            modeIgnore := modeIgnore + [file];
          }
        }
        assert list[..|list|] == list;
        AppendAssoc(old(modeIgnore), Hits(fileMatch, allFiles[..i], list), Row(fileMatch, file, list));
      }
      assert allFiles[..|allFiles|] == allFiles;
    }

    /** `doInclude`: outside development mode, each include entry takes its first exact copy out of `modeIgnore`. */
    method DoInclude()
      modifies this
      ensures modeIgnore == if includeFiles == [] || packMode == Development then old(modeIgnore) else RemoveEach(old(modeIgnore), includeFiles)
      ensures packMode == old(packMode) && toZipFiles == old(toZipFiles) && allFiles == old(allFiles)
      ensures userIgnore == old(userIgnore) && includeFiles == old(includeFiles)
    {
      if |includeFiles| == 0 || packMode == Development {
        return;
      }
      for i := 0 to |includeFiles|
        invariant packMode == old(packMode) && toZipFiles == old(toZipFiles) && allFiles == old(allFiles)
        invariant userIgnore == old(userIgnore) && includeFiles == old(includeFiles)
        invariant modeIgnore == RemoveEach(old(modeIgnore), includeFiles[..i])
      {
        var file := includeFiles[i];
        RemoveEachStep(old(modeIgnore), includeFiles, i);
        var at := FirstIndex(modeIgnore, file);
        if at != -1 {
          modeIgnore := modeIgnore[..at] + modeIgnore[at + 1..];
        }
      }
      assert includeFiles[..|includeFiles|] == includeFiles;
    }

    /** `checkNecessary`: the entries it warns about; it changes nothing. */
    method CheckNecessary(list: seq<string>) returns (warned: seq<string>)
      ensures warned == Filter(list, Necessary)
    {
      warned := [];
      for i := 0 to |list|
        invariant warned == Filter(list[..i], Necessary)
      {
        assert list[..i + 1][..i] == list[..i];
        if list[i] == "package.json" || list[i] == "README.md" {
          warned := warned + [list[i]];
        }
      }
      assert list[..|list|] == list;
    }

    /**
     * `doExclude` up to the call of `zip`: the catalogue (production only),
     * the include overrides, the archive path and the filtered file list
     * handed to the archiver.
     */
    method DoExclude(root: string, publisher: Option<string>, name: string, version: Option<string>,
                     contains: (string, seq<string>) -> bool, relative: string -> string)
      returns (zipPath: string, zipped: seq<string>)
      modifies this
      ensures var defaults := old(modeIgnore) + (if old(packMode) == Production then Hits(fileMatch, old(allFiles), CheckList) else []);
        modeIgnore == if includeFiles == [] || packMode == Development then defaults else RemoveEach(defaults, includeFiles)
      ensures toZipFiles == Kept(old(toZipFiles), contains, relative, modeIgnore + userIgnore)
      ensures zipped == toZipFiles && zipPath == ZipPath(root, publisher, name, version)
      ensures packMode == old(packMode) && allFiles == old(allFiles)
      ensures userIgnore == old(userIgnore) && includeFiles == old(includeFiles)
    {
      var warned := CheckNecessary(userIgnore);
      if packMode == Production {
        FuzzyMatch(CheckList);
      }
      DoInclude();
      var moduleName := if Present(publisher) then ToLower(publisher.value) + "." + name else name;
      if Present(version) {
        moduleName := moduleName + "-" + version.value;
      }
      zipPath := root + "/" + moduleName + ".cloudide";
      var patterns := modeIgnore + userIgnore;
      toZipFiles := Filter(toZipFiles, f => !contains(relative(f), patterns));
      zipped := toZipFiles;
    }

    /**
     * `start`, given what its two globs return: the dependency folders' files
     * and the plugin folder's files are appended, in that order, then `doExclude` runs.
     */
    method Start(dependencyFiles: seq<string>, pluginFiles: seq<string>, root: string, publisher: Option<string>,
                 name: string, version: Option<string>, contains: (string, seq<string>) -> bool, relative: string -> string)
      returns (zipPath: string, zipped: seq<string>)
      modifies this
      ensures var defaults := old(modeIgnore) + (if packMode == Production then Hits(fileMatch, allFiles, CheckList) else []);
        modeIgnore == if includeFiles == [] || packMode == Development then defaults else RemoveEach(defaults, includeFiles)
      ensures zipped == toZipFiles
      ensures zipped == Kept(old(toZipFiles) + dependencyFiles + pluginFiles, contains, relative, modeIgnore + userIgnore)
      ensures zipPath == ZipPath(root, publisher, name, version)
      ensures packMode == old(packMode) && userIgnore == old(userIgnore) && includeFiles == old(includeFiles) && allFiles == old(allFiles)
    {
      toZipFiles := toZipFiles + dependencyFiles;
      toZipFiles := toZipFiles + pluginFiles;
      zipPath, zipped := DoExclude(root, publisher, name, version, contains, relative);
    }
  }
}

/** What the bookkeeping guarantees about the lists and the archive name. */
module PackingProps {
  import opened Js
  import opened Packing
  import FileMatcher
  import FileMatcherProps

  /**
   * Every rule of the built-in catalogue compiles to a pattern, so the
   * production pass of `fuzzyMatch` never throws.
   */
  lemma CheckListCompiles()
    ensures forall k :: 0 <= k < |CheckList| ==> FileMatcher.Compilation(CheckList[k]).Compiles?
  {
    forall k | 0 <= k < |CheckList| ensures FileMatcher.FileMatch(CheckList[k]).Some? {
      CatalogueRuleCompiles(k);
    }
  }

  lemma CatalogueRuleCompiles(k: nat)
    requires k < |CheckList|
    ensures FileMatcher.FileMatch(CheckList[k]).Some?
  {
    if k == 9 {
      SrcRuleCompiles();
    } else if k == 10 {
      MapRuleCompiles();
    } else if k == 11 {
      ArchiveRuleCompiles();
    } else {
      CatalogueNames(k);
      NameRule(CheckList[k]);
    }
  }

  lemma SrcRuleCompiles()
    ensures FileMatcher.FileMatch("src/**/*").Some?
  {
    SrcRuleText("src/**/*");
  }

  lemma SrcRuleText(r: string)
    requires r == "src/" + "**/*" + ""
    ensures FileMatcher.FileMatch(r).Some?
  {
    FileMatcherProps.PlainSrc();
    FileMatcherProps.GlobRuleCompiles("src/", "");
  }

  lemma MapRuleCompiles()
    ensures FileMatcher.FileMatch("**/*.map").Some?
  {
    MapRuleText("**/*.map", ".map");
  }

  lemma MapRuleText(r: string, w: string)
    requires w == ".map" && r == "" + "**/*" + w
    ensures FileMatcher.FileMatch(r).Some?
  {
    assert FileMatcherProps.Plain("") && FileMatcherProps.Plain(w) && !FileMatcher.IsNegated("");
    FileMatcherProps.GlobRuleCompiles("", w);
  }

  lemma ArchiveRuleCompiles()
    ensures FileMatcher.FileMatch("*.cloudide").Some?
  {
    ArchiveRuleText("*.cloudide", ".cloudide");
  }

  lemma ArchiveRuleText(r: string, w: string)
    requires w == ".cloudide" && r == "*" + w
    ensures FileMatcher.FileMatch(r).Some?
  {
    assert FileMatcherProps.Plain(w);
    FileMatcherProps.LeadingStarCompiles(w);
  }

  /** The first nine catalogue rules are file names. */
  lemma CatalogueNames(k: nat)
    requires k < 9
    ensures NameText(CheckList[k])
  {
    var w := CheckList[k];
    forall i | 0 <= i < |w| ensures 'a' <= w[i] <= 'z' || w[i] == '.' || w[i] == '-' {
    }
  }

  /** A file name of lower-case letters, dots and dashes. */
  predicate NameText(w: string)
  {
    forall i :: 0 <= i < |w| ==> 'a' <= w[i] <= 'z' || w[i] == '.' || w[i] == '-'
  }

  lemma NameRule(w: string)
    requires NameText(w)
    ensures FileMatcher.FileMatch(w).Some?
  {
    assert !FileMatcher.IsNegated(w);
    FileMatcherProps.PlainRuleMatchesItself(w);
  }

  /** The splice takes out one copy of the entry, if there is one. */
  lemma RemoveFirstMultiset(s: seq<string>, x: string)
    ensures multiset(RemoveFirst(s, x)) == multiset(s) - multiset{x}
  {
    var i := FirstIndex(s, x);
    if i != -1 {
      assert s == s[..i] + [x] + s[i + 1..];
    }
  }

  lemma DiffDiff(a: multiset<string>, b: multiset<string>, c: multiset<string>)
    ensures (a - b) - c == a - (b + c)
  {
    forall y ensures ((a - b) - c)[y] == (a - (b + c))[y] {
    }
  }

  lemma DiffStep(r: seq<string>, r0: seq<string>, s: seq<string>, init: seq<string>, x: string)
    requires multiset(r0) == multiset(s) - multiset(init)
    requires multiset(r) == multiset(r0) - multiset{x}
    ensures multiset(r) == multiset(s) - multiset(init + [x])
  {
    DiffDiff(multiset(s), multiset(init), multiset{x});
    assert multiset(init + [x]) == multiset(init) + multiset{x};
  }

  /** Include entries take back exactly one copy each, if there is one: a multiset difference. */
  lemma {:induction false} RemoveEachMultiset(s: seq<string>, xs: seq<string>)
    ensures multiset(RemoveEach(s, xs)) == multiset(s) - multiset(xs)
    decreases |xs|
  {
    if xs != [] {
      var init := xs[..|xs| - 1];
      var x := xs[|xs| - 1];
      var r0 := RemoveEach(s, init);
      RemoveEachMultiset(s, init);
      RemoveFirstMultiset(r0, x);
      LastSplit(xs);
      DiffStep(RemoveEach(s, xs), r0, s, init, x);
    }
  }

  /** Only exact strings are taken back: include entries that equal no excluded path, such as wildcard rules, change nothing. */
  lemma {:induction false} IncludeIsExact(s: seq<string>, xs: seq<string>)
    requires forall k :: 0 <= k < |xs| ==> xs[k] !in s
    ensures RemoveEach(s, xs) == s
    decreases |xs|
  {
    if xs != [] {
      IncludeIsExact(s, xs[..|xs| - 1]);
    }
  }

  /** A file reaches the archive iff it was collected and its relative path matches no exclusion pattern; each copy is kept. */
  lemma KeptMembers(files: seq<string>, contains: (string, seq<string>) -> bool, relative: string -> string, patterns: seq<string>, x: string)
    ensures x in Kept(files, contains, relative, patterns) <==> x in files && !contains(relative(x), patterns)
    ensures multiset(Kept(files, contains, relative, patterns))[x] == if contains(relative(x), patterns) then 0 else multiset(files)[x]
  {
    FilterMembers(files, f => !contains(relative(f), patterns), x);
    FilterMultiset(files, f => !contains(relative(f), patterns));
  }

  /** `checkNecessary` warns about an entry iff it is `package.json` or `README.md`. */
  lemma NecessaryWarnings(list: seq<string>, x: string)
    ensures x in Filter(list, Necessary) <==> x in list && (x == "package.json" || x == "README.md")
  {
    FilterMembers(list, Necessary, x);
  }

  /** Without publisher and version the archive is named after the package alone. */
  lemma ModuleNameBare(name: string)
    ensures ModuleName(None, name, None) == name
    ensures ModuleName(Some(""), name, Some("")) == name
  {
  }

  /** The publisher is lower-cased and the version follows a dash. */
  lemma ModuleNameExample()
    ensures ModuleName(Some("HW"), "demo", Some("1.0.0")) == "hw.demo-1.0.0"
  {
    assert ToLower("HW") == "hw";
  }

  lemma LowerKeepsSlashes(p: string)
    requires '/' !in p
    ensures '/' !in ToLower(p)
  {
    forall i | 0 <= i < |p| ensures ToLower(p)[i] != '/' {
      assert p[i] in p;
    }
  }

  /** When no name part holds a `/`, neither does the archive's name, so the archive lands directly in the plugin root. */
  lemma ArchiveInRoot(publisher: Option<string>, name: string, version: Option<string>)
    requires '/' !in name
    requires publisher.Some? ==> '/' !in publisher.value
    requires version.Some? ==> '/' !in version.value
    ensures '/' !in ModuleName(publisher, name, version)
  {
    if publisher.Some? {
      LowerKeepsSlashes(publisher.value);
    }
  }
}
