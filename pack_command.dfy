/**
 * The `pack` command of src/commands/pack.ts: refuse a dotted package name,
 * refuse user rules that reach into `node_modules` or `.git`, match the
 * `--exclude` and `--include` rules against the plugin's files (recording the
 * hits in the module-wide `specialFiles`), stop when a rule list matches
 * nothing, and otherwise hand the hits to a new `Packing` and start it.
 */
module PackCommand {
  import opened Js
  import FileMatcher
  import opened FileTree
  import opened Selection
  import opened Packing

  /** `CheckType` of src/common/pack-configuration.ts. */
  datatype CheckType = Include | Exclude

  /** The folder a refused rule reaches into. */
  datatype Folder = NodeModulesFolder | GitFolder

  /**
   * The module-wide `specialFiles` record: the files last matched by the
   * include and by the exclude rules (`include` is a Dafny keyword, hence
   * the plural field names).
   */
  class SpecialFiles {
    var includes: seq<string>
    var excludes: seq<string>

    constructor()
      ensures includes == [] && excludes == []
    {
      includes := [];
      excludes := [];
    }
  }

  /** The complaint `checkRules` prints for one rule: `node_modules` is checked first, `.git` only otherwise. */
  function Complaint(rule: string): Option<Folder>
  {
    if Contains(rule, "node_modules") then Some(NodeModulesFolder)
    else if Contains(rule, ".git") then Some(GitFolder)
    else None
  }

  /** No rule of the list mentions `node_modules` or `.git`. */
  predicate RulesOk(list: seq<string>)
  {
    forall k :: 0 <= k < |list| ==> !Contains(list[k], "node_modules") && !Contains(list[k], ".git")
  }

  /**
   * `checkRules`: every rule is looked at (there is no early exit), each
   * offending rule gets its complaint, and the list passes iff none offends.
   */
  method CheckRules(list: seq<string>) returns (rightRule: bool, complaints: seq<Option<Folder>>)
    ensures rightRule <==> RulesOk(list)
    ensures |complaints| == |list|
    ensures forall k :: 0 <= k < |list| ==>
      (complaints[k] == Some(NodeModulesFolder) <==> Contains(list[k], "node_modules")) &&
      (complaints[k] == Some(GitFolder) <==> !Contains(list[k], "node_modules") && Contains(list[k], ".git"))
  {
    rightRule := true;
    complaints := [];
    for i := 0 to |list|
      invariant |complaints| == i
      invariant rightRule <==> forall k :: 0 <= k < i ==> !Contains(list[k], "node_modules") && !Contains(list[k], ".git")
      invariant forall k :: 0 <= k < i ==> complaints[k] == Complaint(list[k])
    {
      var item := list[i];
      if IndexOf(item, "node_modules", 0) != -1 {
        complaints := complaints + [Some(NodeModulesFolder)];
        rightRule := false;
      } else if IndexOf(item, ".git", 0) != -1 {
        complaints := complaints + [Some(GitFolder)];
        rightRule := false;
      } else {
        complaints := complaints + [None];
      }
    }
  }

  /**
   * Matching `rules` against `files` throws: a rule is compiled on the first
   * file, and `new RegExp` throws on one of them.
   */
  predicate Throwing(throws: string -> bool, files: seq<string>, rules: seq<string>)
  {
    files != [] && exists k :: 0 <= k < |rules| && throws(rules[k])
  }

  /**
   * The inner `matchRules.forEach` of `getMatchFiles` for one file: each rule
   * is compiled and tried on the file in turn; a hit is counted in the rule's
   * slot of `temps` and collected. `throws` says on which rules the
   * compilation throws, which ends the loop at the first such rule.
   */
  method TallyFile(accepts: (string, string) -> bool, throws: string -> bool, file: string, matchRules: seq<string>,
                   temps: array<nat>)
    returns (threw: bool, row: seq<string>)
    requires temps.Length == |matchRules|
    modifies temps
    ensures threw <==> exists k :: 0 <= k < |matchRules| && throws(matchRules[k])
    ensures !threw ==> row == Row(accepts, file, matchRules)
    ensures !threw ==> forall k :: 0 <= k < |matchRules| ==>
      temps[k] == old(temps[k]) + (if accepts(matchRules[k], file) then 1 else 0)
  {
    threw := false;
    row := [];
    for index := 0 to |matchRules|
      invariant forall k :: 0 <= k < index ==> !throws(matchRules[k])
      invariant row == Row(accepts, file, matchRules[..index])
      invariant forall k :: 0 <= k < |matchRules| ==>
        temps[k] == old(temps[k]) + (if k < index && accepts(matchRules[k], file) then 1 else 0)
    {
      if throws(matchRules[index]) {
        threw := true;
        return;
      }
      RowStep(accepts, file, matchRules, index);
      if accepts(matchRules[index], file) {
        temps[index] := temps[index] + 1;
        row := row + [file];
      }
    }
    assert matchRules[..|matchRules|] == matchRules;
  }

  /**
   * The counting loops of `getMatchFiles`: every rule is compiled and tried on
   * every file, file by file; each hit is collected and counted in the rule's
   * slot of `temps`. A throwing rule ends the call on the first file.
   */
  method Tally(accepts: (string, string) -> bool, throws: string -> bool, matchRules: seq<string>, files: seq<string>)
    returns (threw: bool, matchFiles: seq<string>, counts: seq<nat>)
    ensures threw <==> Throwing(throws, files, matchRules)
    ensures !threw ==> matchFiles == Hits(accepts, files, matchRules)
    ensures !threw ==>
      |counts| == |matchRules| && forall k :: 0 <= k < |matchRules| ==> counts[k] == RuleHits(accepts, files, matchRules[k])
  {
    threw := false;
    matchFiles := [];
    counts := [];
    var temps := new nat[|matchRules|](_ => 0);
    for i := 0 to |files|
      invariant i > 0 ==> forall k :: 0 <= k < |matchRules| ==> !throws(matchRules[k])
      invariant matchFiles == Hits(accepts, files[..i], matchRules)
      invariant forall k :: 0 <= k < |matchRules| ==> temps[k] == RuleHits(accepts, files[..i], matchRules[k])
    {
      var row;
      threw, row := TallyFile(accepts, throws, files[i], matchRules, temps);
      if threw {
        return;
      }
      HitsStep(accepts, files, matchRules, i);
      matchFiles := matchFiles + row;
      forall k | 0 <= k < |matchRules|
        ensures temps[k] == RuleHits(accepts, files[..i + 1], matchRules[k])
      {
        RuleHitsStep(accepts, files, matchRules[k], i);
      }
    }
    assert files[..|files|] == files;
    counts := temps[..];
  }

  /** The `temps.forEach` report: the indices, in order, of the counters that stayed at zero. */
  method ZeroSlots(temps: seq<nat>) returns (unmatched: seq<nat>)
    ensures forall k :: k in unmatched <==> 0 <= k < |temps| && temps[k] == 0
    ensures forall a, b :: 0 <= a < b < |unmatched| ==> unmatched[a] < unmatched[b]
  {
    unmatched := [];
    for index := 0 to |temps|
      invariant forall k :: k in unmatched <==> 0 <= k < index && temps[k] == 0
      invariant forall a, b :: 0 <= a < b < |unmatched| ==> unmatched[a] < unmatched[b]
      invariant forall a :: 0 <= a < |unmatched| ==> unmatched[a] < index
    {
      if temps[index] == 0 {
        unmatched := unmatched + [index];
      }
    }
  }

  /**
   * `getMatchFiles`: collects the hits, reports (by index, in rule order) the
   * rules that matched nothing, and stores the hits under `specialFiles[type]`.
   * When a rule's compilation throws, the call ends and nothing is stored.
   */
  method GetMatchFiles(accepts: (string, string) -> bool, throws: string -> bool, kind: CheckType,
                       matchRules: seq<string>, files: seq<string>, special: SpecialFiles)
    returns (threw: bool, matchFiles: seq<string>, unmatched: seq<nat>)
    modifies special
    ensures threw <==> Throwing(throws, files, matchRules)
    ensures threw ==> special.includes == old(special.includes) && special.excludes == old(special.excludes)
    ensures !threw ==> matchFiles == Hits(accepts, files, matchRules)
    ensures !threw ==> forall k :: k in unmatched <==> 0 <= k < |matchRules| && RuleHits(accepts, files, matchRules[k]) == 0
    ensures forall a, b :: 0 <= a < b < |unmatched| ==> unmatched[a] < unmatched[b]
    ensures !threw && kind == Include ==> special.includes == matchFiles && special.excludes == old(special.excludes)
    ensures !threw && kind == Exclude ==> special.excludes == matchFiles && special.includes == old(special.includes)
  {
    unmatched := [];
    var temps;
    threw, matchFiles, temps := Tally(accepts, throws, matchRules, files);
    if threw {
      return;
    }
    unmatched := ZeroSlots(temps);
    if kind == Include {
      special.includes := matchFiles;
    } else {
      special.excludes := matchFiles;
    }
  }

  /** How a `pack` run ends. */
  datatype Outcome =
    | DottedName                // the package name holds a `.`
    | BadRules(kind: CheckType) // a rule reaches into `node_modules` or `.git`
    | RuleThrows(kind: CheckType) // compiling a rule throws, and the returned promise rejects
    | NoMatches(kind: CheckType)  // the rules match no file
    | Proceed                   // a `Packing` is built and started

  /** The rule list is checked and fully matched: it is non-empty, clean, and no rule throws. */
  predicate Recorded(throws: string -> bool, allFiles: seq<string>, rules: seq<string>)
  {
    rules != [] && RulesOk(rules) && !Throwing(throws, allFiles, rules)
  }

  /** A rule list lets the command go on: it is empty, or it is clean, compiles and collects some file. */
  predicate Passes(accepts: (string, string) -> bool, throws: string -> bool, allFiles: seq<string>, rules: seq<string>)
  {
    rules == [] || (Recorded(throws, allFiles, rules) && Hits(accepts, allFiles, rules) != [])
  }

  /** Where a rule list stops the command, if it does. */
  function Stop(accepts: (string, string) -> bool, throws: string -> bool, kind: CheckType,
                allFiles: seq<string>, rules: seq<string>): Option<Outcome>
  {
    if rules == [] then None
    else if !RulesOk(rules) then Some(BadRules(kind))
    else if Throwing(throws, allFiles, rules) then Some(RuleThrows(kind))
    else if Hits(accepts, allFiles, rules) == [] then Some(NoMatches(kind))
    else None
  }

  /** The early exits of `pack` after the name check: the exclude rules first, then the include rules. */
  function Screened(accepts: (string, string) -> bool, throws: string -> bool, allFiles: seq<string>,
                    excludeFiles: seq<string>, includeFiles: seq<string>): Outcome
  {
    var e := Stop(accepts, throws, Exclude, allFiles, excludeFiles);
    var i := Stop(accepts, throws, Include, allFiles, includeFiles);
    if e.Some? then e.value else if i.Some? then i.value else Proceed
  }

  /** The early exits of `pack`, in the order the command takes them. */
  function Decide(accepts: (string, string) -> bool, throws: string -> bool, name: string, allFiles: seq<string>,
                  excludeFiles: seq<string>, includeFiles: seq<string>): Outcome
  {
    if Contains(name, ".") then DottedName else Screened(accepts, throws, allFiles, excludeFiles, includeFiles)
  }

  /** One rule list's pass of `pack`: checked, then matched unless the check failed. */
  method CheckAndMatch(accepts: (string, string) -> bool, throws: string -> bool, kind: CheckType, rules: seq<string>,
                       allFiles: seq<string>, special: SpecialFiles)
    returns (stop: Option<Outcome>)
    modifies special
    ensures stop == Stop(accepts, throws, kind, allFiles, rules)
    ensures !Recorded(throws, allFiles, rules) ==> special.includes == old(special.includes) && special.excludes == old(special.excludes)
    ensures Recorded(throws, allFiles, rules) ==>
      (kind == Include ==> special.includes == Hits(accepts, allFiles, rules) && special.excludes == old(special.excludes)) &&
      (kind == Exclude ==> special.excludes == Hits(accepts, allFiles, rules) && special.includes == old(special.includes))
  {
    stop := None;
    if |rules| > 0 {
      var rightRule, _ := CheckRules(rules);
      if !rightRule {
        return Some(BadRules(kind));
      }
      var threw, matchFiles, _ := GetMatchFiles(accepts, throws, kind, rules, allFiles, special);
      if threw {
        return Some(RuleThrows(kind));
      }
      if |matchFiles| == 0 {
        return Some(NoMatches(kind));
      }
    }
  }

  /** The checks of `pack` after the name check, on the listing of the plugin folder. */
  method Screen(accepts: (string, string) -> bool, throws: string -> bool, excludeFiles: seq<string>,
                includeFiles: seq<string>, allFiles: seq<string>, special: SpecialFiles)
    returns (outcome: Outcome)
    modifies special
    ensures outcome == Screened(accepts, throws, allFiles, excludeFiles, includeFiles)
    ensures special.excludes ==
      if Recorded(throws, allFiles, excludeFiles) then Hits(accepts, allFiles, excludeFiles) else old(special.excludes)
    ensures special.includes ==
      if Passes(accepts, throws, allFiles, excludeFiles) && Recorded(throws, allFiles, includeFiles)
      then Hits(accepts, allFiles, includeFiles) else old(special.includes)
  {
    var stop := CheckAndMatch(accepts, throws, Exclude, excludeFiles, allFiles, special);
    if stop.Some? {
      return stop.value;
    }
    stop := CheckAndMatch(accepts, throws, Include, includeFiles, allFiles, special);
    if stop.Some? {
      return stop.value;
    }
    return Proceed;
  }

  /**
   * `pack`. The package manifest's fields, the plugin folder's tree, what the
   * two globs of `start` return and the `micromatch.contains` and
   * `path.relative` helpers are parameters. When every check passes, a
   * `Packing` is built from the recorded special files and started.
   */
  method Pack(packType: PackType, excludeFiles: seq<string>, includeFiles: seq<string>, name: string,
              publisher: Option<string>, version: Option<string>, rootPath: string, root: seq<Entry>,
              dependencyFiles: seq<string>, pluginFiles: seq<string>,
              contains: (string, seq<string>) -> bool, relative: string -> string, special: SpecialFiles)
    returns (outcome: Outcome, packing: Packing?, zipPath: string, zipped: seq<string>)
    modifies special
    ensures outcome == Decide(FileMatcher.Accepts, FileMatcher.ThrowsOnCompile, name, Strings(Walk([], root, |root|)),
                              excludeFiles, includeFiles)
    ensures Contains(name, ".") ==> special.includes == old(special.includes) && special.excludes == old(special.excludes)
    ensures !Contains(name, ".") ==> var files := Strings(Walk([], root, |root|));
      special.excludes == (if Recorded(FileMatcher.ThrowsOnCompile, files, excludeFiles)
                           then Hits(FileMatcher.Accepts, files, excludeFiles) else old(special.excludes)) &&
      special.includes == (if Passes(FileMatcher.Accepts, FileMatcher.ThrowsOnCompile, files, excludeFiles) &&
                              Recorded(FileMatcher.ThrowsOnCompile, files, includeFiles)
                           then Hits(FileMatcher.Accepts, files, includeFiles) else old(special.includes))
    ensures packing != null <==> outcome == Proceed
    ensures packing != null ==> var files := Strings(Walk([], root, |root|));
      var defaults := if packType == Production then Hits(FileMatcher.Accepts, files, CheckList) else [];
      fresh(packing) && packing.packMode == packType &&
      packing.userIgnore == special.excludes && packing.includeFiles == special.includes &&
      packing.allFiles == files &&
      packing.modeIgnore == (if special.includes == [] || packType == Development then defaults
                             else RemoveEach(defaults, special.includes)) &&
      packing.toZipFiles == zipped &&
      zipPath == ZipPath(rootPath, publisher, name, version) &&
      zipped == Kept(dependencyFiles + pluginFiles, contains, relative, packing.modeIgnore + packing.userIgnore)
  {
    packing := null;
    zipPath := "";
    zipped := [];
    if IndexOf(name, ".", 0) != -1 {
      return DottedName, packing, zipPath, zipped;
    }
    var allFiles := FindFile([], root, []);
    assert allFiles == Strings(Walk([], root, |root|));
    outcome := Screen(FileMatcher.Accepts, FileMatcher.ThrowsOnCompile, excludeFiles, includeFiles, allFiles, special);
    if outcome != Proceed {
      return outcome, packing, zipPath, zipped;
    }
    packing, zipPath, zipped := Launch(packType, special.excludes, special.includes, name, publisher, version, rootPath, root,
                                       dependencyFiles, pluginFiles, contains, relative);
    outcome := Proceed;
  }

  /**
   * `new Packing(type, exclude, include).start()`: in production the check
   * list's hits less the include entries are left out of the archive, in
   * development nothing beyond the user's rules.
   */
  method Launch(packType: PackType, userIgnore: seq<string>, includeFiles: seq<string>, name: string,
                publisher: Option<string>, version: Option<string>, rootPath: string, root: seq<Entry>,
                dependencyFiles: seq<string>, pluginFiles: seq<string>,
                contains: (string, seq<string>) -> bool, relative: string -> string)
    returns (packing: Packing, zipPath: string, zipped: seq<string>)
    ensures var files := Strings(Walk([], root, |root|));
      var defaults := if packType == Production then Hits(FileMatcher.Accepts, files, CheckList) else [];
      fresh(packing) && packing.packMode == packType &&
      packing.userIgnore == userIgnore && packing.includeFiles == includeFiles &&
      packing.allFiles == files &&
      packing.modeIgnore == (if includeFiles == [] || packType == Development then defaults
                             else RemoveEach(defaults, includeFiles)) &&
      packing.toZipFiles == zipped &&
      zipPath == ZipPath(rootPath, publisher, name, version) &&
      zipped == Kept(dependencyFiles + pluginFiles, contains, relative, packing.modeIgnore + packing.userIgnore)
  {
    packing := new Packing(packType, userIgnore, includeFiles, root);
    assert [] + dependencyFiles == dependencyFiles;
    zipPath, zipped := packing.Start(dependencyFiles, pluginFiles, rootPath, publisher, name, version, contains, relative);
    assert [] + Hits(FileMatcher.Accepts, packing.allFiles, CheckList) == Hits(FileMatcher.Accepts, packing.allFiles, CheckList);
  }
}

/** What passing the command's checks guarantees. */
module PackCommandProps {
  import opened Js
  import FileMatcher
  import FileMatcherProps
  import opened Selection
  import opened SelectionProps
  import opened PackCommand

  /** A rule list is accepted iff no rule draws a complaint. */
  lemma RulesOkComplaints(list: seq<string>)
    ensures RulesOk(list) <==> forall k :: 0 <= k < |list| ==> Complaint(list[k]).None?
  {
  }

  /**
   * Packing goes ahead iff the name holds no dot and each non-empty rule list
   * keeps clear of `node_modules` and `.git`, compiles without a throw, and
   * has some rule that accepts some file.
   */
  lemma ProceedIff(accepts: (string, string) -> bool, throws: string -> bool, name: string, allFiles: seq<string>,
                   excludeFiles: seq<string>, includeFiles: seq<string>)
    ensures Decide(accepts, throws, name, allFiles, excludeFiles, includeFiles) == Proceed <==>
      !Contains(name, ".") &&
      (excludeFiles != [] ==> RulesOk(excludeFiles) && (forall k :: 0 <= k < |excludeFiles| ==> !throws(excludeFiles[k])) &&
                              exists f, k :: f in allFiles && 0 <= k < |excludeFiles| && accepts(excludeFiles[k], f)) &&
      (includeFiles != [] ==> RulesOk(includeFiles) && (forall k :: 0 <= k < |includeFiles| ==> !throws(includeFiles[k])) &&
                              exists f, k :: f in allFiles && 0 <= k < |includeFiles| && accepts(includeFiles[k], f))
  {
    NonEmptyHits(accepts, allFiles, excludeFiles);
    NonEmptyHits(accepts, allFiles, includeFiles);
  }

  /** A clean exclude list with a rule whose compilation throws makes `pack` reject once the plugin folder lists a file. */
  lemma ThrowingRuleRejects(accepts: (string, string) -> bool, throws: string -> bool, name: string, allFiles: seq<string>,
                            excludeFiles: seq<string>, includeFiles: seq<string>, k: nat)
    requires !Contains(name, ".") && allFiles != [] && RulesOk(excludeFiles)
    requires k < |excludeFiles| && throws(excludeFiles[k])
    ensures Decide(accepts, throws, name, allFiles, excludeFiles, includeFiles) == RuleThrows(Exclude)
  {
  }

  /** `pack --exclude '**'` on a plugin with a file rejects: the rule compiles to `(^*[^/]*?$)`. */
  lemma DoubleStarExcludeRejects(file: string)
    ensures Decide(FileMatcher.Accepts, FileMatcher.ThrowsOnCompile, "plugin", [file], ["**"], []) == RuleThrows(Exclude)
  {
    FileMatcherProps.LeadingDoubleStarThrows("**");
    ContainsChar("plugin", '.');
    DoubleStarRuleClean();
    ThrowingRuleRejects(FileMatcher.Accepts, FileMatcher.ThrowsOnCompile, "plugin", [file], ["**"], [], 0);
  }

  lemma DoubleStarRuleClean()
    ensures RulesOk(["**"])
  {
    assert !Contains("**", "node_modules") && !Contains("**", ".git");
  }

  /** A text contains `[c]` only if `c` is one of its characters. */
  lemma ContainsChar(s: string, c: char)
    ensures Contains(s, [c]) ==> c in s
  {
    var r := IndexOf(s, [c], 0);
    if r != -1 {
      assert s[r..r + 1][0] == s[r];
    }
  }

  /** The collected list is non-empty iff some rule accepts some file. */
  lemma NonEmptyHits(accepts: (string, string) -> bool, files: seq<string>, rules: seq<string>)
    ensures Hits(accepts, files, rules) != [] <==> exists f, k :: f in files && 0 <= k < |rules| && accepts(rules[k], f)
  {
    if Hits(accepts, files, rules) != [] {
      var x := Hits(accepts, files, rules)[0];
      HitsMembers(accepts, files, rules, x);
    }
    if exists f, k :: f in files && 0 <= k < |rules| && accepts(rules[k], f) {
      var f, k :| f in files && 0 <= k < |rules| && accepts(rules[k], f);
      HitsMembers(accepts, files, rules, f);
    }
  }

  /** A rule mentioning `node_modules` anywhere stops the command before anything is matched. */
  lemma NodeModulesRuleRefused(accepts: (string, string) -> bool, throws: string -> bool, name: string, allFiles: seq<string>,
                               excludeFiles: seq<string>, includeFiles: seq<string>, k: nat, i: nat)
    requires k < |excludeFiles| && OccursAt(excludeFiles[k], "node_modules", i)
    ensures Decide(accepts, throws, name, allFiles, excludeFiles, includeFiles) in {DottedName, BadRules(Exclude)}
  {
    ContainsAt(excludeFiles[k], "node_modules", i);
  }
}
