/**
 * Matching a list of files against a list of `fileMatch` rules, file by file
 * and rule by rule, as `fuzzyMatch` (src/common/packing.ts:106-115) and
 * `getMatchFiles` (src/commands/pack.ts:61-72) both do: a file is collected
 * once for every rule that accepts it, and each rule counts its hits.
 */
module Selection {
  import opened Js

  /** The copies of `file` collected while trying `rules` in order: one per accepting rule. */
  function Row(accepts: (string, string) -> bool, file: string, rules: seq<string>): seq<string>
  {
    if rules == [] then []
    else Row(accepts, file, rules[..|rules| - 1]) + (if accepts(rules[|rules| - 1], file) then [file] else [])
  }

  /** Everything collected over `files` (outer loop) and `rules` (inner loop). */
  function Hits(accepts: (string, string) -> bool, files: seq<string>, rules: seq<string>): seq<string>
  {
    if files == [] then []
    else Hits(accepts, files[..|files| - 1], rules) + Row(accepts, files[|files| - 1], rules)
  }

  /** How many of `files` the rule accepts. */
  function RuleHits(accepts: (string, string) -> bool, files: seq<string>, rule: string): nat
  {
    if files == [] then 0
    else RuleHits(accepts, files[..|files| - 1], rule) + (if accepts(rule, files[|files| - 1]) then 1 else 0)
  }

  /** The hit counter of every rule, in rule order (`temps`). */
  function Temps(accepts: (string, string) -> bool, files: seq<string>, rules: seq<string>): (t: seq<nat>)
    ensures |t| == |rules|
    ensures forall k :: 0 <= k < |rules| ==> t[k] == RuleHits(accepts, files, rules[k])
  {
    if rules == [] then []
    else Temps(accepts, files, rules[..|rules| - 1]) + [RuleHits(accepts, files, rules[|rules| - 1])]
  }

  function Sum(s: seq<nat>): nat
  {
    if s == [] then 0 else Sum(s[..|s| - 1]) + s[|s| - 1]
  }

  lemma HitsStep(accepts: (string, string) -> bool, files: seq<string>, rules: seq<string>, i: nat)
    requires i < |files|
    ensures Hits(accepts, files[..i + 1], rules) == Hits(accepts, files[..i], rules) + Row(accepts, files[i], rules)
  {
    assert files[..i + 1][..i] == files[..i];
  }

  lemma RowStep(accepts: (string, string) -> bool, file: string, rules: seq<string>, j: nat)
    requires j < |rules|
    ensures Row(accepts, file, rules[..j + 1]) == Row(accepts, file, rules[..j]) + (if accepts(rules[j], file) then [file] else [])
  {
    assert rules[..j + 1][..j] == rules[..j];
  }

  lemma RuleHitsStep(accepts: (string, string) -> bool, files: seq<string>, rule: string, i: nat)
    requires i < |files|
    ensures RuleHits(accepts, files[..i + 1], rule) == RuleHits(accepts, files[..i], rule) + (if accepts(rule, files[i]) then 1 else 0)
  {
    assert files[..i + 1][..i] == files[..i];
  }
}

/** What the collected list and the counters say about the rules and the files. */
module SelectionProps {
  import opened Js
  import opened Selection

  /** Every element of a row is the file itself. */
  lemma {:induction false} RowMultiset(accepts: (string, string) -> bool, file: string, rules: seq<string>, x: string)
    ensures multiset(Row(accepts, file, rules))[x] == if x == file then |Row(accepts, file, rules)| else 0
    decreases |rules|
  {
    if rules != [] {
      var init := rules[..|rules| - 1];
      RowMultiset(accepts, file, init, x);
      var last := if accepts(rules[|rules| - 1], file) then [file] else [];
      assert multiset(Row(accepts, file, init) + last)[x] == multiset(Row(accepts, file, init))[x] + multiset(last)[x];
    }
  }

  /** A row is non-empty iff some rule accepts the file. */
  lemma {:induction false} RowNonEmpty(accepts: (string, string) -> bool, file: string, rules: seq<string>)
    ensures |Row(accepts, file, rules)| > 0 <==> exists k :: 0 <= k < |rules| && accepts(rules[k], file)
    decreases |rules|
  {
    if rules != [] {
      var init := rules[..|rules| - 1];
      RowNonEmpty(accepts, file, init);
      if exists k :: 0 <= k < |init| && accepts(init[k], file) {
        var k :| 0 <= k < |init| && accepts(init[k], file);
        assert rules[k] == init[k];
      }
      if exists k :: 0 <= k < |rules| && accepts(rules[k], file) {
        var k :| 0 <= k < |rules| && accepts(rules[k], file);
        assert k == |init| || init[k] == rules[k];
      }
    }
  }

  lemma SnocCount(s: seq<string>, x: string)
    requires s != []
    ensures multiset(s)[x] == multiset(s[..|s| - 1])[x] + (if s[|s| - 1] == x then 1 else 0)
  {
    assert s == s[..|s| - 1] + [s[|s| - 1]];
  }

  lemma MulStep(a: nat, b: nat)
    ensures (a + 1) * b == a * b + b
  {
  }

  /**
   * Each file is collected once per rule that accepts it: the number of copies
   * of `x` is its number of occurrences times its number of accepting rules.
   */
  lemma {:induction false} HitsMultiplicity(accepts: (string, string) -> bool, files: seq<string>, rules: seq<string>, x: string)
    ensures multiset(Hits(accepts, files, rules))[x] == multiset(files)[x] * |Row(accepts, x, rules)|
    decreases |files|
  {
    if files != [] {
      var init := files[..|files| - 1];
      var f := files[|files| - 1];
      HitsMultiplicity(accepts, init, rules, x);
      RowMultiset(accepts, f, rules, x);
      var h := Hits(accepts, init, rules);
      var r := Row(accepts, f, rules);
      assert Hits(accepts, files, rules) == h + r;
      assert multiset(h + r)[x] == multiset(h)[x] + multiset(r)[x];
      SnocCount(files, x);
      if f == x {
        MulStep(multiset(init)[x], |r|);
      }
    }
  }

  /** A path is collected iff it is one of the files and some rule accepts it. */
  lemma {:induction false} HitsMembers(accepts: (string, string) -> bool, files: seq<string>, rules: seq<string>, x: string)
    ensures x in Hits(accepts, files, rules) <==> x in files && exists k :: 0 <= k < |rules| && accepts(rules[k], x)
  {
    HitsMultiplicity(accepts, files, rules, x);
    RowNonEmpty(accepts, x, rules);
    assert x in Hits(accepts, files, rules) <==> multiset(Hits(accepts, files, rules))[x] > 0;
    assert x in files <==> multiset(files)[x] > 0;
  }

  lemma {:induction false} TempsSnoc(accepts: (string, string) -> bool, files: seq<string>, f: string, rules: seq<string>)
    ensures Sum(Temps(accepts, files + [f], rules)) == Sum(Temps(accepts, files, rules)) + |Row(accepts, f, rules)|
    decreases |rules|
  {
    if rules != [] {
      var init := rules[..|rules| - 1];
      var r := rules[|rules| - 1];
      TempsSnoc(accepts, files, f, init);
      assert (files + [f])[..|files + [f]| - 1] == files;
      assert RuleHits(accepts, files + [f], r) == RuleHits(accepts, files, r) + (if accepts(r, f) then 1 else 0);
      assert Temps(accepts, files + [f], rules)[..|rules| - 1] == Temps(accepts, files + [f], init);
      assert Temps(accepts, files, rules)[..|rules| - 1] == Temps(accepts, files, init);
    }
  }

  /** The counters add up to the length of the collected list. */
  lemma {:induction false} TempsSum(accepts: (string, string) -> bool, files: seq<string>, rules: seq<string>)
    ensures Sum(Temps(accepts, files, rules)) == |Hits(accepts, files, rules)|
    decreases |files|
  {
    if files == [] {
      ZeroTemps(accepts, rules);
    } else {
      var init := files[..|files| - 1];
      TempsSum(accepts, init, rules);
      assert files == init + [files[|files| - 1]];
      TempsSnoc(accepts, init, files[|files| - 1], rules);
    }
  }

  lemma {:induction false} ZeroTemps(accepts: (string, string) -> bool, rules: seq<string>)
    ensures Sum(Temps(accepts, [], rules)) == 0
    decreases |rules|
  {
    if rules != [] {
      ZeroTemps(accepts, rules[..|rules| - 1]);
      assert Temps(accepts, [], rules)[..|rules| - 1] == Temps(accepts, [], rules[..|rules| - 1]);
    }
  }

  /** A rule's counter is zero iff the rule accepts none of the files. */
  lemma {:induction false} RuleHitsZero(accepts: (string, string) -> bool, files: seq<string>, rule: string)
    ensures RuleHits(accepts, files, rule) == 0 <==> forall i :: 0 <= i < |files| ==> !accepts(rule, files[i])
    decreases |files|
  {
    if files != [] {
      var init := files[..|files| - 1];
      RuleHitsZero(accepts, init, rule);
      assert forall i :: 0 <= i < |init| ==> init[i] == files[i];
    }
  }
}
