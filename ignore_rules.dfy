/**
 * Reading `.vscodeignore` and merging its rules with the command-line and
 * `pack-config.json` lists (`readVscodeignore` and `getPackageFiles` in
 * src/common/util.ts). Everything here is a pure list pipeline; the file
 * reads are inputs.
 */
module IgnoreRules {
  import opened Js

  /** The outcome of reading a file: its text, or the error code of the failure. */
  datatype FileRead = Contents(text: string) | ReadFailed(code: string)

  /** A result or the error code that rejected the promise. */
  datatype Outcome<T> = Ok(value: T) | Err(code: string)

  /** The two lists `readVscodeignore` resolves with. */
  datatype IgnoreLists = IgnoreLists(ignore: seq<string>, negate: seq<string>)

  // ---------------------------------------------------------------------------
  // Lines: `split(/[\n\r]/)`, `trim`, drop empty lines and `/^\s*#/` comments
  // ---------------------------------------------------------------------------

  predicate IsLineBreak(c: char) { c == '\n' || c == '\r' }

  /** `/^\s*#/.test(s)`: the first character that is not whitespace is `#`. */
  predicate IsComment(s: string)
  {
    var k := SkipWhitespace(s, 0);
    k < |s| && s[k] == '#'
  }

  /** The trimmed pieces that are neither empty nor comments, in order. */
  function KeptLines(pieces: seq<string>): (r: seq<string>)
    ensures |r| <= |pieces|
    ensures forall x :: x in r ==> x != "" && !IsComment(x)
  {
    if pieces == [] then []
    else
      var t := Trim(pieces[0]);
      (if t != "" && !IsComment(t) then [t] else []) + KeptLines(pieces[1..])
  }

  function ParseLines(raw: string): seq<string>
  {
    KeptLines(Split(raw, IsLineBreak))
  }

  // ---------------------------------------------------------------------------
  // Folder copies: `/(^|\/)[^/]*\*[^/]*$/` and the `/**` suffix
  // ---------------------------------------------------------------------------

  /** Start of the segment that ends at `j`: one past the last `/` before `j`, or 0. */
  function SegmentStart(s: string, j: nat): (p: nat)
    requires j <= |s|
    ensures p <= j
    ensures forall i :: p <= i < j ==> s[i] != '/'
    ensures p > 0 ==> s[p - 1] == '/'
    decreases j
  {
    if j == 0 || s[j - 1] == '/' then j else SegmentStart(s, j - 1)
  }

  /** The last path segment of `s` holds a `*`. */
  predicate StarInLastSegment(s: string)
  {
    '*' in s[SegmentStart(s, |s|)..]
  }

  /**
   * What `/(^|\/)[^/]*\*[^/]*$/` accepts, read off the regex: some start of
   * the string or position after a `/` from which the rest has no `/` and
   * holds a `*`.
   */
  ghost predicate LastSegmentRegex(s: string)
  {
    exists p :: 0 <= p <= |s| && (p == 0 || s[p - 1] == '/') &&
      (forall i :: p <= i < |s| ==> s[i] != '/') && '*' in s[p..]
  }

  // `/\/$/.test(i) ? i + "**" : i + "/**"`.
  function FolderCopy(rule: string): (r: string)
    ensures StartsWith(r, rule) && EndsWith(r, "/**")
  {
    if EndsWith(rule, "/") then rule + "**" else rule + "/**"
  }

  /** The copies added for rules whose last segment has no `*`, in rule order. */
  function Copies(rules: seq<string>): (r: seq<string>)
    ensures |r| <= |rules|
  {
    if rules == [] then []
    else (if !StarInLastSegment(rules[0]) then [FolderCopy(rules[0])] else []) + Copies(rules[1..])
  }

  /** `[...ignore, ...copies]`: all originals, then all copies. */
  function Expand(rules: seq<string>): seq<string>
  {
    rules + Copies(rules)
  }

  // ---------------------------------------------------------------------------
  // Partition: the `reduce` on `/^\s*!/`
  // ---------------------------------------------------------------------------

  /** `/^\s*!/.test(e)`. */
  predicate IsNegation(e: string)
  {
    var k := SkipWhitespace(e, 0);
    k < |e| && e[k] == '!'
  }

  /** `e.substring(1)`. */
  function Substring1(e: string): string
  {
    if e == [] then [] else e[1..]
  }

  /**
   * The left fold of the `reduce`: each entry is appended to `ignore`, or its
   * `substring(1)` to `negate`.
   */
  function Partition(entries: seq<string>): (r: IgnoreLists)
    ensures |r.ignore| + |r.negate| == |entries|
    decreases |entries|
  {
    if entries == [] then IgnoreLists([], [])
    else
      var acc := Partition(entries[..|entries| - 1]);
      var e := entries[|entries| - 1];
      if !IsNegation(e) then IgnoreLists(acc.ignore + [e], acc.negate)
      else IgnoreLists(acc.ignore, acc.negate + [Substring1(e)])
  }

  /** `readVscodeignore`: a missing file (ENOENT) reads as empty; other errors reject. */
  function ReadVscodeignore(read: FileRead): Outcome<IgnoreLists>
  {
    match read
    case ReadFailed(code) => if code != "ENOENT" then Err(code) else Ok(Partition(Expand(ParseLines(""))))
    case Contents(text) => Ok(Partition(Expand(ParseLines(text))))
  }

  // ---------------------------------------------------------------------------
  // getPackageFiles
  // ---------------------------------------------------------------------------

  /**
   * `pack-config.json` as `getPackageFiles` sees it: absent, failing to read or
   * parse (the `catch`), or parsed with its `exclude` and `include` fields.
   */
  datatype ConfigFile =
    | NoConfig
    | BadConfig
    | Config(exclude: Option<seq<string>>, includes: Option<seq<string>>)

  datatype PackageFiles = PackageFiles(excludeFiles: seq<string>, includeFiles: seq<string>)

  /** `list && list.length ? cli.concat(list) : cli`. */
  function WithConfigList(cli: seq<string>, list: Option<seq<string>>): seq<string>
  {
    if list.Some? && |list.value| > 0 then cli + list.value else cli
  }

  function GetPackageFiles(includeFile: seq<string>, excludeFile: seq<string>, config: ConfigFile, ignoreFile: FileRead): Outcome<PackageFiles>
  {
    var excl := if config.Config? then WithConfigList(excludeFile, config.exclude) else excludeFile;
    var incl := if config.Config? then WithConfigList(includeFile, config.includes) else includeFile;
    var lists := ReadVscodeignore(ignoreFile);
    if lists.Err? then Err(lists.code)
    else Ok(PackageFiles(excl + lists.value.ignore, incl + lists.value.negate))
  }
}

/** What the ignore-file pipeline guarantees. */
module IgnoreRulesProps {
  import opened Js
  import opened IgnoreRules

  // ---------------------------------------------------------------------------
  // Lines
  // ---------------------------------------------------------------------------

  lemma TrimInside(s: string, c: char)
    requires c in Trim(s)
    ensures c in s
  {
    var a, b :| 0 <= a <= b <= |s| && Trim(s) == s[a..b];
    var i :| 0 <= i < b - a && s[a..b][i] == c;
    assert s[a + i] == c;
  }

  /** Every kept line is a trimmed piece that is neither empty nor a comment, and every such piece is kept. */
  lemma {:induction false} KeptLinesMembers(pieces: seq<string>, x: string)
    ensures x in KeptLines(pieces) <==> exists p :: p in pieces && Trim(p) == x && x != "" && !IsComment(x)
  {
    if pieces != [] {
      KeptLinesMembers(pieces[1..], x);
      if exists p :: p in pieces && Trim(p) == x && x != "" && !IsComment(x) {
        var p :| p in pieces && Trim(p) == x && x != "" && !IsComment(x);
        if p != pieces[0] { assert p in pieces[1..]; }
      }
      if exists p :: p in pieces[1..] && Trim(p) == x && x != "" && !IsComment(x) {
        var p :| p in pieces[1..] && Trim(p) == x && x != "" && !IsComment(x);
        assert p in pieces;
      }
    }
  }

  /**
   * A parsed rule is non-empty, holds no line break, has no whitespace at
   * either end and is not a comment.
   */
  lemma ParsedRule(raw: string, x: string)
    requires x in ParseLines(raw)
    ensures x != "" && !IsComment(x)
    ensures !IsWhitespace(x[0]) && !IsWhitespace(x[|x| - 1])
    ensures forall c :: c in x ==> !IsLineBreak(c)
  {
    KeptLinesMembers(Split(raw, IsLineBreak), x);
    var p :| p in Split(raw, IsLineBreak) && Trim(p) == x;
    forall c | c in x ensures !IsLineBreak(c) {
      TrimInside(p, c);
    }
  }

  /** An empty file, and so a missing one, gives no rules. */
  lemma EmptyFileNoRules()
    ensures ParseLines("") == []
    ensures ReadVscodeignore(ReadFailed("ENOENT")) == Ok(IgnoreLists([], []))
  {
    assert NextSep("", IsLineBreak, 0) == 0;
    assert Split("", IsLineBreak) == [""];
    assert Trim("") == "";
    assert Copies([]) == [] && Expand([]) == [];
  }

  /** Any read error other than ENOENT rejects with that error. */
  lemma ReadErrorRejects(code: string)
    requires code != "ENOENT"
    ensures ReadVscodeignore(ReadFailed(code)) == Err(code)
  {
  }

  // ---------------------------------------------------------------------------
  // Folder copies
  // ---------------------------------------------------------------------------

  /** The computed last segment is exactly what the regex inspects. */
  lemma LastSegmentMatchesRegex(s: string)
    ensures StarInLastSegment(s) <==> LastSegmentRegex(s)
  {
    var q := SegmentStart(s, |s|);
    if LastSegmentRegex(s) {
      var p :| 0 <= p <= |s| && (p == 0 || s[p - 1] == '/') &&
        (forall i :: p <= i < |s| ==> s[i] != '/') && '*' in s[p..];
      assert p == q;
    }
    if StarInLastSegment(s) {
      assert q == 0 || s[q - 1] == '/';
    }
  }

  /** A folder copy ends in a `**` segment, so it is never copied again. */
  lemma FolderCopyHasStar(rule: string)
    ensures StarInLastSegment(FolderCopy(rule))
  {
    var c := FolderCopy(rule);
    assert c[|c| - 3..] == "/**";
    assert c[|c| - 3] == '/' && c[|c| - 2] == '*' && c[|c| - 1] == '*';
    var p := SegmentStart(c, |c|);
    assert p == |c| - 2;
    assert c[p..][0] == '*';
  }

  /** Expanding the copies adds nothing: expansion is not repeated on its own output. */
  lemma {:induction false} CopiesOfCopies(rules: seq<string>)
    ensures Copies(Copies(rules)) == []
  {
    if rules != [] {
      CopiesOfCopies(rules[1..]);
      var head := if !StarInLastSegment(rules[0]) then [FolderCopy(rules[0])] else [];
      CopiesAppend(head, Copies(rules[1..]));
      if head != [] {
        FolderCopyHasStar(rules[0]);
        assert head[1..] == [];
      }
    }
  }

  /** Copies are taken rule by rule: the copies of a concatenation are concatenated. */
  lemma {:induction false} CopiesAppend(a: seq<string>, b: seq<string>)
    ensures Copies(a + b) == Copies(a) + Copies(b)
  {
    if a == [] {
      assert a + b == b;
    } else {
      assert (a + b)[0] == a[0] && (a + b)[1..] == a[1..] + b;
      CopiesAppend(a[1..], b);
    }
  }

  /** `y` is a copy exactly when some rule without a `*` in its last segment gives it. */
  lemma {:induction false} CopiesMembers(rules: seq<string>, y: string)
    ensures y in Copies(rules) <==> exists r :: r in rules && !StarInLastSegment(r) && y == FolderCopy(r)
  {
    if rules != [] {
      CopiesMembers(rules[1..], y);
      if exists r :: r in rules && !StarInLastSegment(r) && y == FolderCopy(r) {
        var r :| r in rules && !StarInLastSegment(r) && y == FolderCopy(r);
        if r != rules[0] { assert r in rules[1..]; }
      }
      if exists r :: r in rules[1..] && !StarInLastSegment(r) && y == FolderCopy(r) {
        var r :| r in rules[1..] && !StarInLastSegment(r) && y == FolderCopy(r);
        assert r in rules;
      }
    }
  }

  /** The expansion keeps every original first, in order, and at most doubles the list. */
  lemma ExpandShape(rules: seq<string>)
    ensures Expand(rules)[..|rules|] == rules
    ensures |rules| <= |Expand(rules)| <= 2 * |rules|
  {
  }

  // A folder rule `dist/` gets the copy `dist/**`, a rule `out` the copy `out/**`.
  lemma FolderCopyExamples()
    ensures FolderCopy("dist/") == "dist/**"
    ensures FolderCopy("out") == "out/**"
  {
    assert EndsWith("dist/", "/");
    assert !EndsWith("out", "/") by { assert "out"[2..] != "/"; }
  }

  // ---------------------------------------------------------------------------
  // Partition
  // ---------------------------------------------------------------------------

  /** Entries that are not negations, in order. */
  function Kept(entries: seq<string>): seq<string>
  {
    if entries == [] then []
    else (if !IsNegation(entries[0]) then [entries[0]] else []) + Kept(entries[1..])
  }

  /** Negations without their first character, in order. */
  function Negations(entries: seq<string>): seq<string>
  {
    if entries == [] then []
    else (if IsNegation(entries[0]) then [Substring1(entries[0])] else []) + Negations(entries[1..])
  }

  /** The reduce step's order: one more entry lands at the end of its list. */
  lemma {:induction false} PartitionIsFilter(entries: seq<string>)
    ensures Partition(entries) == IgnoreLists(Kept(entries), Negations(entries))
    decreases |entries|
  {
    if entries != [] {
      var init := entries[..|entries| - 1];
      var e := entries[|entries| - 1];
      PartitionIsFilter(init);
      KeptAppend(init, [e]);
      NegationsAppend(init, [e]);
      assert [e][1..] == [];
      assert init + [e] == entries;
    }
  }

  /** Filtering a concatenation filters each part. */
  lemma {:induction false} KeptAppend(a: seq<string>, b: seq<string>)
    ensures Kept(a + b) == Kept(a) + Kept(b)
  {
    if a == [] {
      assert a + b == b;
    } else {
      assert (a + b)[0] == a[0] && (a + b)[1..] == a[1..] + b;
      KeptAppend(a[1..], b);
    }
  }

  lemma {:induction false} NegationsAppend(a: seq<string>, b: seq<string>)
    ensures Negations(a + b) == Negations(a) + Negations(b)
  {
    if a == [] {
      assert a + b == b;
    } else {
      assert (a + b)[0] == a[0] && (a + b)[1..] == a[1..] + b;
      var h := if IsNegation(a[0]) then [Substring1(a[0])] else [];
      assert Negations(a + b) == h + Negations(a[1..] + b);
      NegationsAppend(a[1..], b);
      assert h + (Negations(a[1..]) + Negations(b)) == (h + Negations(a[1..])) + Negations(b);
    }
  }

  lemma {:induction false} KeptMembers(entries: seq<string>, x: string)
    ensures x in Kept(entries) <==> x in entries && !IsNegation(x)
  {
    if entries != [] {
      KeptMembers(entries[1..], x);
      if x in entries && x != entries[0] { assert x in entries[1..]; }
    }
  }

  /**
   * A trimmed negation starts with `!`, and what `negate` holds is the rule
   * after it.
   */
  lemma NegationOfTrimmed(e: string)
    requires e != [] && !IsWhitespace(e[0])
    ensures IsNegation(e) <==> e[0] == '!'
  {
  }

  /**
   * End to end: a line `!r` whose last segment has no `*` puts both `r` and
   * its folder copy's rule into `negate`; a plain line `r` puts `r` into `ignore`.
   */
  lemma NegatedLineReachesNegate(lines: seq<string>, r: string)
    requires ("!" + r) in lines && !StarInLastSegment("!" + r)
    ensures r in Negations(Expand(lines))
    ensures Substring1(FolderCopy("!" + r)) in Negations(Expand(lines))
  {
    var e := "!" + r;
    assert IsNegation(e) by { assert SkipWhitespace(e, 0) == 0 by { assert !IsWhitespace(e[0]); } }
    CopiesMembers(lines, FolderCopy(e));
    var c := FolderCopy(e);
    assert c[0] == '!' by { assert c[..|e|] == e; }
    assert IsNegation(c) by { assert SkipWhitespace(c, 0) == 0 by { assert !IsWhitespace(c[0]); } }
    NegationsMembers(Expand(lines), e);
    NegationsMembers(Expand(lines), c);
    assert Substring1(e) == r;
  }

  lemma {:induction false} NegationsMembers(entries: seq<string>, e: string)
    requires e in entries && IsNegation(e)
    ensures Substring1(e) in Negations(entries)
  {
    if e != entries[0] {
      assert e in entries[1..];
      NegationsMembers(entries[1..], e);
    }
  }

  // ---------------------------------------------------------------------------
  // getPackageFiles
  // ---------------------------------------------------------------------------

  /** The entries a configuration contributes to one list: none when absent, unreadable or missing the field. */
  function ConfigEntries(config: ConfigFile, exclude: bool): seq<string>
  {
    if !config.Config? then []
    else
      var list := if exclude then config.exclude else config.includes;
      if list.Some? then list.value else []
  }

  /**
   * The merged lists: command-line entries first, then the configuration's
   * entries, then the ignore file's lists.
   */
  lemma PackageFilesMerge(includeFile: seq<string>, excludeFile: seq<string>, config: ConfigFile, text: string)
    ensures var lists := Partition(Expand(ParseLines(text)));
      GetPackageFiles(includeFile, excludeFile, config, Contents(text)) ==
      Ok(PackageFiles(excludeFile + ConfigEntries(config, true) + lists.ignore,
                      includeFile + ConfigEntries(config, false) + lists.negate))
  {
    ConfigListMerge(excludeFile, config, true);
    ConfigListMerge(includeFile, config, false);
  }

  lemma ConfigListMerge(cli: seq<string>, config: ConfigFile, exclude: bool)
    ensures (if config.Config? then WithConfigList(cli, if exclude then config.exclude else config.includes) else cli) ==
      cli + ConfigEntries(config, exclude)
  {
    assert cli + [] == cli;
  }

  /** A configuration list that is empty leaves the command-line list unchanged. */
  lemma EmptyConfigListIgnored(cli: seq<string>)
    ensures WithConfigList(cli, Some([])) == cli
    ensures WithConfigList(cli, None) == cli
  {
  }

  /** A failing ignore-file read makes the whole merge fail with its error. */
  lemma PackageFilesReadError(includeFile: seq<string>, excludeFile: seq<string>, config: ConfigFile, code: string)
    requires code != "ENOENT"
    ensures GetPackageFiles(includeFile, excludeFile, config, ReadFailed(code)) == Err(code)
  {
  }
}
