/**
 * The pre-packing checks of src/common/detection.ts. Whether `package.json`
 * and `README.md` exist and the manifest fields `readPkg` returns are inputs;
 * each warning the checks print is an element of the result. With `block`
 * false every check only warns; with `block` true a check returns false at
 * its first failing test.
 */
module Detection {
  import opened Js

  /** What `checkNecessaryFiles`, `checkPackageValid` and `checkFieldLength` print. */
  datatype Warning =
    | PackageJsonMissing
    | ReadmeMissing
    | NameMissing
    | PublisherMissing
    | VersionMissing
    | DottedName
    | BadVersion
    | NameTooLong
    | DescriptionTooLong
    /** The `keywords` test; its message names 'description' and 600 characters. */
    | KeywordsTooLong
    | IconTooLong

  /**
   * The manifest fields the checks read. `keywords` is `JSON.stringify` of
   * the keyword array when there is one (an array is always truthy).
   */
  datatype PackageFields = PackageFields(
    name: Option<string>,
    publisher: Option<string>,
    version: Option<string>,
    description: Option<string>,
    keywords: Option<string>,
    icon: Option<string>)

  /** A check's verdict and the warnings it printed. */
  datatype Report = Report(ok: bool, warnings: seq<Warning>)

  /**
   * One `if (test) { console.warn(...); if (block) return false; }` block of a
   * check: skipped once an earlier block has returned false.
   */
  function Step(block: bool, r: Report, failed: bool, w: Warning): Report
  {
    if !r.ok then r
    else if failed then Report(!block, r.warnings + [w])
    else r
  }

  /** `checkNecessaryFiles`: a missing `package.json` always fails; a missing `README.md` only when blocking. */
  function NecessaryFiles(block: bool, hasPackage: bool, hasReadme: bool): Report
  {
    if !hasPackage then Report(false, [PackageJsonMissing])
    else if !hasReadme then Report(!block, [ReadmeMissing])
    else Report(true, [])
  }

  /** Line terminators, which the regular-expression `.` does not match. */
  predicate LineTerminator(c: char)
  {
    c == '\n' || c == '\r' || c == '\U{2028}' || c == '\U{2029}'
  }

  /**
   * A character one `.` of a non-Unicode regular expression matches: one
   * UTF-16 code unit that is not a line terminator (a character above U+FFFF
   * is two code units).
   */
  predicate AnyUnit(c: char)
  {
    !LineTerminator(c) && c as int <= 0xFFFF
  }

  /** `\d+`. */
  predicate Digits(s: string)
  {
    |s| > 0 && forall i :: 0 <= i < |s| ==> IsDigit(s[i])
  }

  /** `\d+(.\d+){0,k}` matches the whole of `s`. */
  predicate Groups(s: string, k: nat)
    decreases k
  {
    Digits(s) ||
    (k > 0 && exists i :: 1 <= i < |s| - 1 && Digits(s[..i]) && AnyUnit(s[i]) && Groups(s[i + 1..], k - 1))
  }

  /** `/^\d+(.\d+){0,2}$/.test(v)`: the `.` is not escaped, so any single code unit separates the numbers. */
  predicate VersionRule(v: string)
  {
    Groups(v, 2)
  }

  /** `checkPackageValid`. */
  function PackageValid(block: bool, p: PackageFields): Report
  {
    var r1 := Step(block, Report(true, []), !Present(p.name), NameMissing);
    var r2 := Step(block, r1, !Present(p.publisher), PublisherMissing);
    var r3 := Step(block, r2, !Present(p.version), VersionMissing);
    var r4 := Step(block, r3, Present(p.name) && Contains(p.name.value, "."), DottedName);
    Step(block, r4, Present(p.version) && !VersionRule(p.version.value), BadVersion)
  }

  /**
   * The number of UTF-16 code units of one character after
   * `replace(/[^\x00-\xff]/g, '01')`: a unit above 0xFF becomes two, and a
   * character above U+FFFF is two such units.
   */
  function Units(c: char): nat
  {
    if c as int > 0xFFFF then 4 else if c as int > 0xFF then 2 else 1
  }

  /** `strLength`. */
  function StrLength(s: string): (n: nat)
    ensures |s| <= n <= 4 * |s|
  {
    if s == [] then 0 else StrLength(s[..|s| - 1]) + Units(s[|s| - 1])
  }

  /** A field the length check measures: present (truthy) and longer than `limit`. */
  predicate TooLong(field: Option<string>, limit: nat)
  {
    Present(field) && StrLength(field.value) > limit
  }

  /** `checkFieldLength`. */
  function FieldLength(block: bool, p: PackageFields): Report
  {
    var r1 := Step(block, Report(true, []), TooLong(p.name, 255), NameTooLong);
    var r2 := Step(block, r1, TooLong(p.description, 255), DescriptionTooLong);
    var r3 := Step(block, r2, p.keywords.Some? && StrLength(p.keywords.value) > 600, KeywordsTooLong);
    Step(block, r3, TooLong(p.icon, 255), IconTooLong)
  }

  const WarnIcon: string := "\U{26A0}\U{FE0F} "
  const BlockIcon: string := "\U{2757}\U{FE0F} "

  /** A printed warning with the icon that prefixed it. */
  datatype Line = Line(icon: string, warning: Warning)

  function Stamp(icon: string, ws: seq<Warning>): (lines: seq<Line>)
    ensures |lines| == |ws| && forall i :: 0 <= i < |ws| ==> lines[i] == Line(icon, ws[i])
  {
    seq(|ws|, i requires 0 <= i < |ws| => Line(icon, ws[i]))
  }

  /** Three checks run in order: a failing one ends the run, and what each printed is kept. */
  function Chain(f: Report, v: Report, l: Report): Report
  {
    if !f.ok then f
    else if !v.ok then Report(false, f.warnings + v.warnings)
    else Report(l.ok, f.warnings + v.warnings + l.warnings)
  }

  /** The module-wide `warnIcon` and the `detection` entry point that sets it. */
  class Detector {
    var warnIcon: string

    constructor()
      ensures warnIcon == WarnIcon
    {
      warnIcon := WarnIcon;
    }

    /**
     * `detection`: blocking switches the icon to `❗️` for good; the three
     * checks run in order and the first that fails ends the run.
     */
    method Detection(needBlock: bool, hasPackage: bool, hasReadme: bool, p: PackageFields)
      returns (passed: bool, printed: seq<Line>)
      modifies this
      ensures warnIcon == if needBlock then BlockIcon else old(warnIcon)
      ensures old(warnIcon) == BlockIcon ==> warnIcon == BlockIcon
      ensures var r := Chain(NecessaryFiles(needBlock, hasPackage, hasReadme), PackageValid(needBlock, p), FieldLength(needBlock, p));
        passed == r.ok && printed == Stamp(warnIcon, r.warnings)
    {
      if needBlock {
        warnIcon := BlockIcon;
      }
      var f := NecessaryFiles(needBlock, hasPackage, hasReadme);
      var shown := f.warnings;
      if !f.ok {
        return false, Stamp(warnIcon, shown);
      }
      var v := PackageValid(needBlock, p);
      shown := shown + v.warnings;
      if !v.ok {
        return false, Stamp(warnIcon, shown);
      }
      var l := FieldLength(needBlock, p);
      shown := shown + l.warnings;
      return l.ok, Stamp(warnIcon, shown);
    }
  }
}

/** What the checks accept and what they print. */
module DetectionProps {
  import opened Js
  import opened Detection

  /** `package.json` is required in both modes, `README.md` only when blocking. */
  lemma NecessaryFilesIff(block: bool, hasPackage: bool, hasReadme: bool)
    ensures NecessaryFiles(block, hasPackage, hasReadme).ok <==> hasPackage && (hasReadme || !block)
  {
  }

  /** Without blocking, the validity and length checks always pass. */
  lemma NonBlockingPasses(p: PackageFields)
    ensures PackageValid(false, p).ok && FieldLength(false, p).ok
  {
  }

  /** Blocking, the validity check passes iff name, publisher and version are present, the name has no dot and the version fits the rule. */
  lemma BlockingValidity(p: PackageFields)
    ensures PackageValid(true, p).ok <==>
      Present(p.name) && Present(p.publisher) && Present(p.version) &&
      !Contains(p.name.value, ".") && VersionRule(p.version.value)
  {
  }

  /** Blocking, the length check passes iff name, description and icon fit in 255 units and the keywords' JSON in 600. */
  lemma BlockingLengths(p: PackageFields)
    ensures FieldLength(true, p).ok <==>
      !TooLong(p.name, 255) && !TooLong(p.description, 255) &&
      !(p.keywords.Some? && StrLength(p.keywords.value) > 600) && !TooLong(p.icon, 255)
  {
  }

  /** `detection` passes iff all three checks pass, and shows a check's warnings only when the checks before it passed. */
  lemma ChainPassesIffAll(f: Report, v: Report, l: Report)
    ensures Chain(f, v, l).ok <==> f.ok && v.ok && l.ok
    ensures Chain(f, v, l).warnings == f.warnings + (if f.ok then v.warnings + (if v.ok then l.warnings else []) else [])
  {
  }

  /** Without blocking, `detection` fails only when `package.json` is missing. */
  lemma NonBlockingDetection(hasPackage: bool, hasReadme: bool, p: PackageFields)
    ensures Chain(NecessaryFiles(false, hasPackage, hasReadme), PackageValid(false, p), FieldLength(false, p)).ok <==> hasPackage
  {
    NonBlockingPasses(p);
  }

  /** The validity tests in the order the check makes them. */
  function ValidityTests(p: PackageFields): seq<(bool, Warning)>
  {
    [(!Present(p.name), NameMissing), (!Present(p.publisher), PublisherMissing), (!Present(p.version), VersionMissing),
     (Present(p.name) && Contains(p.name.value, "."), DottedName),
     (Present(p.version) && !VersionRule(p.version.value), BadVersion)]
  }

  /** The warnings of the first `n` tests that fail, in order. */
  function Failing(tests: seq<(bool, Warning)>, n: nat): seq<Warning>
    requires n <= |tests|
  {
    if n == 0 then [] else Failing(tests, n - 1) + (if tests[n - 1].0 then [tests[n - 1].1] else [])
  }

  /** The first `n` tests run through `Step` from a passing report. */
  function RunSteps(block: bool, tests: seq<(bool, Warning)>, n: nat): Report
    requires n <= |tests|
  {
    if n == 0 then Report(true, []) else Step(block, RunSteps(block, tests, n - 1), tests[n - 1].0, tests[n - 1].1)
  }

  /** Without blocking every failing test is reported and the check still passes. */
  lemma {:induction false} NonBlockingWarnsAll(tests: seq<(bool, Warning)>, n: nat)
    requires n <= |tests|
    ensures RunSteps(false, tests, n) == Report(true, Failing(tests, n))
  {
    if n > 0 {
      NonBlockingWarnsAll(tests, n - 1);
    }
  }

  /** Blocking, only the first failing test is reported, and the check passes iff none fails. */
  lemma {:induction false} BlockingStopsAtFirst(tests: seq<(bool, Warning)>, n: nat)
    requires n <= |tests|
    ensures var r := RunSteps(true, tests, n);
      (r.ok <==> Failing(tests, n) == []) && (r.ok ==> r.warnings == []) &&
      (!r.ok ==> r.warnings == [Failing(tests, n)[0]])
  {
    if n > 0 {
      BlockingStopsAtFirst(tests, n - 1);
      if Failing(tests, n - 1) != [] {
        assert Failing(tests, n)[0] == Failing(tests, n - 1)[0];
      }
    }
  }

  /** `checkPackageValid` is the validity tests run in order. */
  lemma PackageValidRuns(block: bool, p: PackageFields)
    ensures PackageValid(block, p) == RunSteps(block, ValidityTests(p), 5)
  {
    var t := ValidityTests(p);
    assert |t| == 5;
    assert RunSteps(block, t, 0) == Report(true, []);
    var r1 := RunSteps(block, t, 1);
    assert r1 == Step(block, Report(true, []), t[0].0, t[0].1);
    var r2 := RunSteps(block, t, 2);
    assert r2 == Step(block, r1, t[1].0, t[1].1);
    var r3 := RunSteps(block, t, 3);
    assert r3 == Step(block, r2, t[2].0, t[2].1);
    var r4 := RunSteps(block, t, 4);
    assert r4 == Step(block, r3, t[3].0, t[3].1);
  }

  /** Without blocking `checkPackageValid` prints one warning per failing test, in order. */
  lemma NonBlockingValidityWarnings(p: PackageFields)
    ensures PackageValid(false, p).warnings == Failing(ValidityTests(p), 5)
  {
    PackageValidRuns(false, p);
    NonBlockingWarnsAll(ValidityTests(p), 5);
  }

  lemma {:induction false} StrLengthAppend(a: string, b: string)
    ensures StrLength(a + b) == StrLength(a) + StrLength(b)
    decreases |b|
  {
    if b == [] {
      assert a + b == a;
    } else {
      var init := b[..|b| - 1];
      StrLengthAppend(a, init);
      assert (a + b)[..|a + b| - 1] == a + init;
    }
  }

  /** Text in the range U+0000..U+00FF is measured by its length. */
  lemma {:induction false} Latin1Length(s: string)
    requires forall i :: 0 <= i < |s| ==> s[i] as int <= 0xFF
    ensures StrLength(s) == |s|
    decreases |s|
  {
    if s != [] {
      Latin1Length(s[..|s| - 1]);
    }
  }

  /** Two CJK characters count as four. */
  lemma CjkExample()
    ensures StrLength("名字") == 4
  {
    assert "名字"[..1] == "名";
  }

  /** Three non-empty digit runs separated by any two non-line-terminator code units pass the version rule. */
  lemma AnySeparator(a: string, x: char, b: string, y: char, c: string)
    requires Digits(a) && Digits(b) && Digits(c) && AnyUnit(x) && AnyUnit(y)
    ensures VersionRule(a + [x] + b + [y] + c)
  {
    var s := a + [x] + b + [y] + c;
    var t := b + [y] + c;
    assert Groups(c, 0);
    assert t[..|b|] == b && t[|b|] == y && t[|b| + 1..] == c;
    assert Groups(t, 1);
    assert s[..|a|] == a && s[|a|] == x && s[|a| + 1..] == t;
  }

  /** So `1.2.3` passes, and so does `1a2b3`. */
  lemma VersionExamples()
    ensures VersionRule("1.2.3") && VersionRule("1a2b3")
  {
    AnySeparator("1", '.', "2", '.', "3");
    assert "1" + ['.'] + "2" + ['.'] + "3" == "1.2.3";
    AnySeparator("1", 'a', "2", 'b', "3");
    assert "1" + ['a'] + "2" + ['b'] + "3" == "1a2b3";
  }

  /** Every digit run on its own passes. */
  lemma DigitsPass(s: string)
    requires Digits(s)
    ensures VersionRule(s)
  {
  }

  /** A version the rule accepts starts and ends with a digit. */
  lemma {:induction false} RuleEnds(s: string, k: nat)
    requires Groups(s, k)
    ensures |s| > 0 && IsDigit(s[0]) && IsDigit(s[|s| - 1])
    decreases k
  {
    if !Digits(s) {
      var i :| 1 <= i < |s| - 1 && Digits(s[..i]) && AnyUnit(s[i]) && Groups(s[i + 1..], k - 1);
      RuleEnds(s[i + 1..], k - 1);
      assert s[0] == s[..i][0];
    }
  }

  /** A digit run cannot reach past a character that is not a digit. */
  lemma DigitRunEnd(s: string, i: nat, j: nat)
    requires i <= |s| && Digits(s[..i]) && j < |s| && !IsDigit(s[j])
    ensures i <= j
  {
  }

  /** Four numbers are one too many. */
  lemma FourNumbersRejected()
    ensures !VersionRule("1.2.3.4")
  {
    var s := "1.2.3.4";
    assert !Digits(s) by { assert !IsDigit(s[1]); }
    forall i | 1 <= i < |s| - 1 && Digits(s[..i]) ensures !(AnyUnit(s[i]) && Groups(s[i + 1..], 1)) {
      DigitRunEnd(s, i, 1);
      var t := s[2..];
      assert t == "2.3.4";
      assert !Digits(t) by { assert !IsDigit(t[1]); }
      forall j | 1 <= j < |t| - 1 && Digits(t[..j]) ensures !(AnyUnit(t[j]) && Groups(t[j + 1..], 0)) {
        DigitRunEnd(t, j, 1);
        var u := t[2..];
        assert u == "3.4";
        assert !IsDigit(u[1]);
      }
    }
  }
}
