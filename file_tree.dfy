/**
 * The plugin folder as a tree of directory entries, and the file listing that
 * both `getAllFiles` walks (src/common/packing.ts and src/commands/pack.ts)
 * produce from it: every file, as a path relative to the root, in directory
 * order, never entering `node_modules` or `.git`.
 */
module FileTree {
  import opened Js

  /** One entry returned by `fs.readdir`: a file, or a directory with its own entries. */
  datatype Entry = File(name: string) | Dir(name: string, children: seq<Entry>)

  /** The entry names the walks neither record nor descend into. */
  predicate Skipped(name: string)
  {
    name == "node_modules" || name == ".git"
  }

  /** A root-relative path given as its names, none of them skipped. */
  predicate Clean(path: seq<string>)
  {
    "node_modules" !in path && ".git" !in path
  }

  /** Every file below `folder` in its first `n` entries, as its list of names from the root, in directory order (the reference listing, skipping nothing). */
  function AllPaths(folder: seq<string>, entries: seq<Entry>, n: nat): seq<seq<string>>
    requires n <= |entries|
    decreases entries, n
  {
    if n == 0 then []
    else
      var e := entries[n - 1];
      AllPaths(folder, entries, n - 1) +
      (if e.File? then [folder + [e.name]] else AllPaths(folder + [e.name], e.children, |e.children|))
  }

  /** What the walks record below `folder` from its first `n` entries: as `AllPaths`, but a skipped entry contributes nothing. */
  function Walk(folder: seq<string>, entries: seq<Entry>, n: nat): seq<seq<string>>
    requires n <= |entries|
    decreases entries, n
  {
    if n == 0 then []
    else
      var e := entries[n - 1];
      Walk(folder, entries, n - 1) +
      (if Skipped(e.name) then []
       else if e.File? then [folder + [e.name]]
       else Walk(folder + [e.name], e.children, |e.children|))
  }

  /** The files an entry adds to the reference listing. */
  function Below(folder: seq<string>, e: Entry): seq<seq<string>>
  {
    if e.File? then [folder + [e.name]] else AllPaths(folder + [e.name], e.children, |e.children|)
  }

  /** The files an entry adds to the walk. */
  function Recorded(folder: seq<string>, e: Entry): seq<seq<string>>
  {
    if Skipped(e.name) then []
    else if e.File? then [folder + [e.name]]
    else Walk(folder + [e.name], e.children, |e.children|)
  }

  /** `path.relative(root, path.join(root, ...names))` on a POSIX system. */
  function PathOf(names: seq<string>): string
  {
    JoinWith(names, '/')
  }

  /** The root-relative path strings of a listing. */
  function Strings(paths: seq<seq<string>>): (r: seq<string>)
    ensures |r| == |paths| && forall k :: 0 <= k < |paths| ==> r[k] == PathOf(paths[k])
  {
    seq(|paths|, k requires 0 <= k < |paths| => PathOf(paths[k]))
  }

  lemma StringsAppend(a: seq<seq<string>>, b: seq<seq<string>>)
    ensures Strings(a + b) == Strings(a) + Strings(b)
  {
  }

  /** One step of a walk loop, on the path strings. */
  lemma StringsStep(folder: seq<string>, entries: seq<Entry>, i: nat)
    requires i < |entries|
    ensures Strings(Walk(folder, entries, i + 1)) == Strings(Walk(folder, entries, i)) + Strings(Recorded(folder, entries[i]))
  {
    StringsAppend(Walk(folder, entries, i), Recorded(folder, entries[i]));
  }

  /**
   * `getAllFiles` of src/commands/pack.ts: the recursive `findFile` pushing
   * into one accumulator.
   */
  method FindFile(folder: seq<string>, entries: seq<Entry>, acc: seq<string>) returns (files: seq<string>)
    ensures files == acc + Strings(Walk(folder, entries, |entries|))
    decreases entries
  {
    files := acc;
    for i := 0 to |entries|
      invariant files == acc + Strings(Walk(folder, entries, i))
    {
      var item := entries[i];
      ghost var before := files;
      if Skipped(item.name) {
      } else if item.File? {
        files := files + [PathOf(folder + [item.name])];
      } else {
        files := FindFile(folder + [item.name], item.children, files);
      }
      assert files == before + Strings(Recorded(folder, item));
      StringsStep(folder, entries, i);
      AppendAssoc(acc, Strings(Walk(folder, entries, i)), Strings(Recorded(folder, item)));
    }
  }

  method GetAllFiles(root: seq<Entry>) returns (allFiles: seq<string>)
    ensures allFiles == Strings(Walk([], root, |root|))
  {
    allFiles := FindFile([], root, []);
  }
}

/** The walk's listing against the reference listing of every file. */
module FileTreeProps {
  import opened Js
  import opened FileTree

  /** Every path listed below `folder` extends `folder` by at least one name. */
  lemma {:induction false} AllPathsUnder(folder: seq<string>, entries: seq<Entry>, n: nat, p: seq<string>)
    requires n <= |entries| && p in AllPaths(folder, entries, n)
    ensures |p| > |folder| && p[..|folder|] == folder
    decreases entries, n
  {
    var e := entries[n - 1];
    if p in AllPaths(folder, entries, n - 1) {
      AllPathsUnder(folder, entries, n - 1, p);
    } else if e.Dir? {
      AllPathsUnder(folder + [e.name], e.children, |e.children|, p);
      assert p[..|folder|] == p[..|folder| + 1][..|folder|];
    }
  }

  /**
   * The walk records exactly the files of the tree whose path holds no
   * `node_modules` or `.git` name: skipping an entry is the same as dropping
   * every path through it.
   */
  lemma {:induction false} WalkIsCleanListing(folder: seq<string>, entries: seq<Entry>, n: nat, p: seq<string>)
    requires Clean(folder) && n <= |entries|
    ensures p in Walk(folder, entries, n) <==> p in AllPaths(folder, entries, n) && Clean(p)
    decreases entries, n
  {
    if n > 0 {
      WalkIsCleanListing(folder, entries, n - 1, p);
      EntryIsClean(folder, entries, n - 1, p);
      Unfold(folder, entries, n);
      Combine(p, Walk(folder, entries, n - 1), Recorded(folder, entries[n - 1]), AllPaths(folder, entries, n - 1), Below(folder, entries[n - 1]), Clean(p));
    }
  }

  /** One entry more on both listings. */
  lemma Unfold(folder: seq<string>, entries: seq<Entry>, n: nat)
    requires 0 < n <= |entries|
    ensures Walk(folder, entries, n) == Walk(folder, entries, n - 1) + Recorded(folder, entries[n - 1])
    ensures AllPaths(folder, entries, n) == AllPaths(folder, entries, n - 1) + Below(folder, entries[n - 1])
  {
  }

  lemma Combine(p: seq<string>, w0: seq<seq<string>>, r: seq<seq<string>>, a0: seq<seq<string>>, b: seq<seq<string>>, c: bool)
    requires (p in w0 <==> p in a0 && c) && (p in r <==> p in b && c)
    ensures p in w0 + r <==> p in a0 + b && c
  {
  }

  /** One entry's part of `WalkIsCleanListing`. */
  lemma {:induction false} EntryIsClean(folder: seq<string>, entries: seq<Entry>, i: nat, p: seq<string>)
    requires Clean(folder) && i < |entries|
    ensures p in Recorded(folder, entries[i]) <==> p in Below(folder, entries[i]) && Clean(p)
    decreases entries, i
  {
    var e := entries[i];
    var here := folder + [e.name];
    if Skipped(e.name) {
      if p in Below(folder, e) {
        if e.Dir? {
          AllPathsUnder(here, e.children, |e.children|, p);
          assert p[|folder|] == p[..|here|][|folder|];
        }
        assert p[|folder|] == e.name;
      }
    } else if e.File? {
      assert Clean(here);
    } else {
      WalkIsCleanListing(here, e.children, |e.children|, p);
    }
  }

  /** A path is recorded iff it is a file of the tree and none of its names is `node_modules` or `.git`. */
  lemma WalkMembers(root: seq<Entry>, p: seq<string>)
    ensures p in Walk([], root, |root|) <==> p in AllPaths([], root, |root|) && Clean(p)
  {
    WalkIsCleanListing([], root, |root|, p);
  }

  /** A file inside `node_modules` is never recorded; a file beside it is. */
  lemma WalkExample()
    ensures Walk([], [Dir("node_modules", [File("x.js")]), File("a.ts")], 2) == [["a.ts"]]
  {
    assert [] + ["a.ts"] == ["a.ts"];
  }
}
