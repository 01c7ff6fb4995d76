/**
 * `codearts-migrate`: rewrite a VS Code extension's `package.json` for
 * CodeArts — add the `pack` script, and retarget `engines` to CodeArts when
 * the declared VS Code API is not newer than the one CodeArts provides.
 *
 * The version test is `'1.69.0'.localeCompare(v, undefined, { numeric: true,
 * sensitivity: 'base' }) > -1`. That collation is modelled by its primary
 * keys: a run of digits is one key compared by value, an ASCII letter is a key
 * that ignores case, and every other character is a key that sorts below all
 * digits and letters.
 */
module Migrate {
  import opened Js

  const VscodeApiVersion: string := "1.69.0"
  const CodeartsVersion: string := "^2.0.0"
  const PackCommand: string := "codearts-pack -p"

  /** A primary collation key. */
  datatype Key = Sym(c: char) | Num(n: nat) | Letter(c: char)

  predicate IsLetter(c: char)
  {
    'a' <= c <= 'z' || 'A' <= c <= 'Z'
  }

  function LowerChar(c: char): (r: char)
    ensures IsLetter(c) ==> 'a' <= r <= 'z'
    ensures 'a' <= c <= 'z' ==> r == c
  {
    if 'A' <= c <= 'Z' then (c as int + 32) as char else c
  }

  /** The length of the run of digits that `s` starts with. */
  function DigitRun(s: string): (k: nat)
    ensures k <= |s|
    ensures forall i :: 0 <= i < k ==> IsDigit(s[i])
    ensures k < |s| ==> !IsDigit(s[k])
  {
    if s == [] || !IsDigit(s[0]) then 0 else 1 + DigitRun(s[1..])
  }

  /** The decimal value of a string of digits. */
  function DigitValue(s: string): nat
  {
    if s == [] then 0 else DigitValue(s[..|s| - 1]) * 10 + DigitOf(s[|s| - 1])
  }

  function DigitOf(c: char): nat
  {
    if IsDigit(c) then c as int - '0' as int else 0
  }

  /** The primary keys of a string under numeric, case-insensitive collation. */
  function CollationKeys(s: string): seq<Key>
    decreases |s|
  {
    if s == [] then []
    else if IsDigit(s[0]) then
      var k := DigitRun(s);
      [Num(DigitValue(s[..k]))] + CollationKeys(s[k..])
    else if IsLetter(s[0]) then [Letter(LowerChar(s[0]))] + CollationKeys(s[1..])
    else [Sym(s[0])] + CollationKeys(s[1..])
  }

  function Sign(x: int, y: int): (r: int)
    ensures r == -1 <==> x < y
    ensures r == 1 <==> x > y
    ensures r == 0 <==> x == y
  {
    if x < y then -1 else if x > y then 1 else 0
  }

  /** Symbols sort below digits, and digits below letters. */
  function Rank(k: Key): nat
  {
    match k
    case Sym(_) => 0
    case Num(_) => 1
    case Letter(_) => 2
  }

  function KeyCompare(a: Key, b: Key): (r: int)
    ensures r == 0 <==> a == b
    ensures -1 <= r <= 1
  {
    if Rank(a) != Rank(b) then Sign(Rank(a), Rank(b))
    else match a
      case Sym(c) => Sign(c as int, b.c as int)
      case Num(n) => Sign(n, b.n)
      case Letter(c) => Sign(c as int, b.c as int)
  }

  /** Key sequences compare key by key; a proper prefix sorts first. */
  function Compare(a: seq<Key>, b: seq<Key>): (r: int)
    ensures -1 <= r <= 1
  {
    if a == [] && b == [] then 0
    else if a == [] then -1
    else if b == [] then 1
    else if KeyCompare(a[0], b[0]) != 0 then KeyCompare(a[0], b[0])
    else Compare(a[1..], b[1..])
  }

  /** `x.localeCompare(y, undefined, { numeric: true, sensitivity: 'base' })`. */
  function LocaleCompare(x: string, y: string): (r: int)
    ensures -1 <= r <= 1
  {
    Compare(CollationKeys(x), CollationKeys(y))
  }

  /** `version.startsWith('^') ? version.substring(1) : version`. */
  function StripCaret(v: string): (r: string)
    ensures StartsWith(v, "^") ==> v == "^" + r
    ensures !StartsWith(v, "^") ==> r == v
  {
    if StartsWith(v, "^") then v[1..] else v
  }

  /** `validVersion`: the declared API is not newer than the one CodeArts provides. */
  predicate ValidVersion(v: string)
  {
    LocaleCompare(VscodeApiVersion, StripCaret(v)) > -1
  }

  /** The field `key` of the manifest, `undefined` when absent. */
  function Get(fields: map<string, Json>, key: string): Option<Json>
  {
    if key in fields then Some(fields[key]) else None
  }

  /**
   * `scripts` after `Object.assign(configs.scripts, { pack })` or the
   * replacement by `{ pack }`: a truthy value that is not an object (a string,
   * number or array) takes no visible property.
   */
  function WithPackScript(scripts: Option<Json>): Json
  {
    if scripts.Some? && Truthy(scripts.value) then
      (if scripts.value.JObj? then JObj(scripts.value.fields["pack" := JStr(PackCommand)]) else scripts.value)
    else JObj(map["pack" := JStr(PackCommand)])
  }

  /** `configs.engines.vscode`, `undefined` when engines is not an object or lacks it. */
  function VscodeEngine(engines: Option<Json>): Option<Json>
  {
    if engines.Some? && engines.value.JObj? then Get(engines.value.fields, "vscode") else None
  }

  /** A truthy `vscode` that is not a string has no `startsWith`: `validVersion` throws. */
  predicate Throws(fields: map<string, Json>)
  {
    var vscode := VscodeEngine(Get(fields, "engines"));
    vscode.Some? && Truthy(vscode.value) && !vscode.value.JStr?
  }

  /** The engines are retargeted iff `vscode` is a non-empty string that passes `validVersion`. */
  predicate Retarget(fields: map<string, Json>)
  {
    var vscode := VscodeEngine(Get(fields, "engines"));
    vscode.Some? && vscode.value.JStr? && vscode.value.s != "" && ValidVersion(vscode.value.s)
  }

  /** The manifest after `migrateConfig`, also when it throws after adding the script. */
  function Migrated(fields: map<string, Json>): map<string, Json>
  {
    var withScript := fields["scripts" := WithPackScript(Get(fields, "scripts"))];
    if Retarget(fields) then withScript["engines" := JObj(map["codearts" := JStr(CodeartsVersion)])] else withScript
  }

  /** The parsed `package.json`, which `migrateConfig` updates in place. */
  class Manifest {
    var fields: map<string, Json>

    constructor(fields: map<string, Json>)
      ensures this.fields == fields
    {
      this.fields := fields;
    }

    /** `migrateConfig`; `thrown` reports the `TypeError` of a non-string `vscode` engine. */
    method MigrateConfig() returns (thrown: bool)
      modifies this
      ensures fields == Migrated(old(fields))
      ensures thrown <==> Throws(old(fields))
    {
      ghost var before := fields;
      var scripts := Get(fields, "scripts");
      if scripts.Some? && Truthy(scripts.value) {
        if scripts.value.JObj? {
          fields := fields["scripts" := JObj(scripts.value.fields["pack" := JStr(PackCommand)])];
        }
      } else {
        fields := fields["scripts" := JObj(map["pack" := JStr(PackCommand)])];
      }
      assert fields == before["scripts" := WithPackScript(Get(before, "scripts"))];
      var engines := Get(fields, "engines");
      assert engines == Get(before, "engines");
      ghost var vscodeEngine := VscodeEngine(engines);
      if engines.Some? && Truthy(engines.value) && engines.value.JObj? {
        var vscode := Get(engines.value.fields, "vscode");
        assert vscode == vscodeEngine;
        if vscode.Some? && Truthy(vscode.value) {
          if !vscode.value.JStr? {
            return true;
          }
          if ValidVersion(vscode.value.s) {
            assert Retarget(before);
            fields := fields["engines" := JObj(map["codearts" := JStr(CodeartsVersion)])];
          } else {
            assert !Retarget(before);
          }
        } else {
          assert !Retarget(before);
        }
      } else {
        assert vscodeEngine == None;
        assert !Retarget(before);
      }
      return false;
    }
  }

  /** The decimal spelling of `n`, as `String(n)` writes it. */
  function NatStr(n: nat): (s: string)
    ensures |s| > 0
  {
    if n < 10 then [('0' as int + n) as char] else NatStr(n / 10) + [('0' as int + n % 10) as char]
  }
}

/** What the migration writes, and which versions it retargets. */
module MigrateProps {
  import opened Js
  import opened Migrate

  /** The manifest gains a `pack` script unless `scripts` is a truthy value that is not an object. */
  lemma PackScriptAdded(fields: map<string, Json>)
    ensures var s := Migrated(fields)["scripts"];
      (s.JObj? && "pack" in s.fields && s.fields["pack"] == JStr(PackCommand)) <==>
      !(Get(fields, "scripts").Some? && Truthy(fields["scripts"]) && !fields["scripts"].JObj?)
  {
  }

  /** An existing scripts object keeps every other script. */
  lemma OtherScriptsKept(fields: map<string, Json>, name: string)
    requires "scripts" in fields && fields["scripts"].JObj? && name != "pack"
    ensures var s := Migrated(fields)["scripts"];
      s.JObj? && (name in s.fields <==> name in fields["scripts"].fields) &&
      (name in s.fields ==> s.fields[name] == fields["scripts"].fields[name])
  {
  }

  /** Engines become `{ codearts: '^2.0.0' }` exactly when the vscode engine passes; otherwise they stay as they were. */
  lemma EnginesRetargeted(fields: map<string, Json>)
    ensures Retarget(fields) ==> Get(Migrated(fields), "engines") == Some(JObj(map["codearts" := JStr(CodeartsVersion)]))
    ensures !Retarget(fields) ==> Get(Migrated(fields), "engines") == Get(fields, "engines")
  {
  }

  /** Only `scripts` and `engines` change. */
  lemma OthersUnchanged(fields: map<string, Json>, key: string)
    requires key != "scripts" && key != "engines"
    ensures Get(Migrated(fields), key) == Get(fields, key)
  {
  }

  /** A manifest that throws is never retargeted. */
  lemma ThrowsExcludesRetarget(fields: map<string, Json>)
    ensures Throws(fields) ==> !Retarget(fields)
  {
  }

  /** After the migration the engines are never retargeted again, and a throwing manifest still throws. */
  lemma MigratedSettles(fields: map<string, Json>)
    ensures !Retarget(Migrated(fields))
    ensures Throws(Migrated(fields)) <==> Throws(fields)
  {
    var m := Migrated(fields);
    if Retarget(fields) {
      assert Get(m, "engines") == Some(JObj(map["codearts" := JStr(CodeartsVersion)]));
      assert VscodeEngine(Get(m, "engines")) == None;
    } else {
      assert Get(m, "engines") == Get(fields, "engines");
    }
  }

  lemma PackScriptIdempotent(scripts: Option<Json>)
    ensures WithPackScript(Some(WithPackScript(scripts))) == WithPackScript(scripts)
  {
    if scripts.Some? && Truthy(scripts.value) && scripts.value.JObj? {
      var f := scripts.value.fields["pack" := JStr(PackCommand)];
      assert f["pack" := JStr(PackCommand)] == f;
    }
  }

  /** Migrating twice writes the same manifest as migrating once. */
  lemma MigrateIdempotent(fields: map<string, Json>)
    ensures Migrated(Migrated(fields)) == Migrated(fields)
    ensures Throws(Migrated(fields)) <==> Throws(fields)
  {
    var m := Migrated(fields);
    MigratedSettles(fields);
    PackScriptIdempotent(Get(fields, "scripts"));
    assert Get(m, "scripts") == Some(WithPackScript(Get(fields, "scripts")));
    assert m["scripts" := m["scripts"]] == m;
  }

  /** Comparison is antisymmetric. */
  lemma {:induction false} CompareAntisymmetric(a: seq<Key>, b: seq<Key>)
    ensures Compare(a, b) == -Compare(b, a)
    decreases |a|
  {
    if a != [] && b != [] && KeyCompare(a[0], b[0]) == 0 {
      CompareAntisymmetric(a[1..], b[1..]);
    }
  }

  /** Two key sequences compare equal exactly when they are the same. */
  lemma {:induction false} CompareZeroIffEqual(a: seq<Key>, b: seq<Key>)
    ensures Compare(a, b) == 0 <==> a == b
    decreases |a|
  {
    if a != [] && b != [] && KeyCompare(a[0], b[0]) == 0 {
      CompareZeroIffEqual(a[1..], b[1..]);
      assert a == [a[0]] + a[1..] && b == [b[0]] + b[1..];
    }
  }

  lemma CompareCons(x: Key, xs: seq<Key>, y: Key, ys: seq<Key>)
    ensures Compare([x] + xs, [y] + ys) == if KeyCompare(x, y) != 0 then KeyCompare(x, y) else Compare(xs, ys)
  {
    assert ([x] + xs)[1..] == xs && ([y] + ys)[1..] == ys;
  }

  lemma {:induction false} NatStrDigits(n: nat)
    ensures forall i :: 0 <= i < |NatStr(n)| ==> IsDigit(NatStr(n)[i])
  {
    if n >= 10 {
      NatStrDigits(n / 10);
    }
  }

  lemma {:induction false} NatStrValue(n: nat)
    ensures DigitValue(NatStr(n)) == n
  {
    if n >= 10 {
      NatStrValue(n / 10);
      var s := NatStr(n);
      assert s[..|s| - 1] == NatStr(n / 10);
    }
  }

  lemma {:induction false} DigitRunAppend(d: string, r: string)
    requires forall i :: 0 <= i < |d| ==> IsDigit(d[i])
    ensures DigitRun(d + r) == |d| + DigitRun(r)
  {
    if d != [] {
      assert (d + r)[0] == d[0];
      assert (d + r)[1..] == d[1..] + r;
      DigitRunAppend(d[1..], r);
    } else {
      assert d + r == r;
    }
  }

  /** A number followed by something that is not a digit is one numeric key. */
  lemma NumberKey(n: nat, rest: string)
    requires rest == [] || !IsDigit(rest[0])
    ensures CollationKeys(NatStr(n) + rest) == [Num(n)] + CollationKeys(rest)
  {
    var s := NatStr(n) + rest;
    NatStrDigits(n);
    DigitRunAppend(NatStr(n), rest);
    assert DigitRun(s) == |NatStr(n)|;
    assert s[..|NatStr(n)|] == NatStr(n) && s[|NatStr(n)|..] == rest;
    NatStrValue(n);
  }

  lemma DotKey(rest: string)
    ensures CollationKeys("." + rest) == [Sym('.')] + CollationKeys(rest)
  {
    assert ("." + rest)[1..] == rest;
  }

  /** The keys of a three-number version `a.b.c`. */
  lemma VersionKeys(a: nat, b: nat, c: nat)
    ensures CollationKeys(NatStr(a) + "." + NatStr(b) + "." + NatStr(c)) == [Num(a), Sym('.'), Num(b), Sym('.'), Num(c)]
  {
    NumberKey(c, []);
    assert NatStr(c) + [] == NatStr(c);
    NumberDotKey(b, NatStr(c), [Num(c)]);
    var rhs := NatStr(a) + ("." + (NatStr(b) + ("." + NatStr(c))));
    NumberDotKey(a, NatStr(b) + ("." + NatStr(c)), [Num(b), Sym('.'), Num(c)]);
    PrependKeys(CollationKeys(rhs), [Num(a), Sym('.')], [Num(b), Sym('.'), Num(c)]);
    Nest(NatStr(a), ".", NatStr(b), ".", NatStr(c));
  }

  lemma PrependKeys(keys: seq<Key>, front: seq<Key>, back: seq<Key>)
    requires keys == front + back && |front| == 2 && |back| == 3
    ensures keys == [front[0], front[1], back[0], back[1], back[2]]
  {
  }

  /** A number and a dot in front of `rest` add their two keys in front of its keys. */
  lemma NumberDotKey(n: nat, rest: string, keys: seq<Key>)
    requires CollationKeys(rest) == keys
    ensures CollationKeys(NatStr(n) + ("." + rest)) == [Num(n), Sym('.')] + keys
  {
    DotKey(rest);
    NumberKey(n, "." + rest);
  }

  /** Concatenation of five pieces, regrouped to the right. */
  lemma Nest<T>(a: seq<T>, x: seq<T>, b: seq<T>, y: seq<T>, c: seq<T>)
    ensures a + x + b + y + c == a + (x + (b + (y + c)))
  {
    AppendAssoc(b, y, c);
    AppendAssoc(x, b, y + c);
    AppendAssoc(a, x, b + (y + c));
    AppendAssoc(a + x, b, y + c);
    AppendAssoc(a + x + b, y, c);
  }

  /**
   * A plain version `a.b.c` is retargeted iff it is not newer than 1.69.0,
   * comparing the numbers by value.
   */
  lemma ThreeNumberVersion(a: nat, b: nat, c: nat)
    ensures ValidVersion(NatStr(a) + "." + NatStr(b) + "." + NatStr(c)) <==>
      a < 1 || (a == 1 && (b < 69 || (b == 69 && c == 0)))
  {
    var v := NatStr(a) + "." + NatStr(b) + "." + NatStr(c);
    VersionKeys(a, b, c);
    NatStrDigits(a);
    assert v[0] == NatStr(a)[0];
    UncaretedVersion(v, [Num(a), Sym('.'), Num(b), Sym('.'), Num(c)]);
    CompareTriples(1, 69, 0, a, b, c);
  }

  /** The keys of the API version CodeArts provides. */
  lemma ApiVersionKeys()
    ensures CollationKeys(VscodeApiVersion) == [Num(1), Sym('.'), Num(69), Sym('.'), Num(0)]
  {
    Spellings();
    VersionKeys(1, 69, 0);
  }

  /** A version without a caret passes iff its keys do not sort after the API version's. */
  lemma UncaretedVersion(v: string, keys: seq<Key>)
    requires v != [] && v[0] != '^' && CollationKeys(v) == keys
    ensures ValidVersion(v) <==> Compare([Num(1), Sym('.'), Num(69), Sym('.'), Num(0)], keys) > -1
  {
    assert StripCaret(v) == v;
    ApiVersionKeys();
  }

  /** Three-number keys compare lexicographically by value. */
  lemma CompareTriples(x: nat, y: nat, z: nat, a: nat, b: nat, c: nat)
    ensures Compare([Num(x), Sym('.'), Num(y), Sym('.'), Num(z)], [Num(a), Sym('.'), Num(b), Sym('.'), Num(c)]) > -1 <==>
      a < x || (a == x && (b < y || (b == y && c <= z)))
  {
    CompareCons(Num(z), [], Num(c), []);
    CompareCons(Sym('.'), [Num(z)], Sym('.'), [Num(c)]);
    CompareCons(Num(y), [Sym('.'), Num(z)], Num(b), [Sym('.'), Num(c)]);
    CompareCons(Sym('.'), [Num(y), Sym('.'), Num(z)], Sym('.'), [Num(b), Sym('.'), Num(c)]);
    CompareCons(Num(x), [Sym('.'), Num(y), Sym('.'), Num(z)], Num(a), [Sym('.'), Num(b), Sym('.'), Num(c)]);
  }

  /** One leading caret is ignored. */
  lemma CaretIgnored(v: string)
    ensures ValidVersion("^" + v) <==> LocaleCompare(VscodeApiVersion, v) > -1
  {
    assert StartsWith("^" + v, "^") && ("^" + v)[1..] == v;
  }

  /** How `String(n)` spells the numbers of the examples below. */
  lemma Spellings()
    ensures NatStr(1) + "." + NatStr(9) + "." + NatStr(0) == "1.9.0"
    ensures NatStr(1) + "." + NatStr(69) + "." + NatStr(0) == "1.69.0"
    ensures NatStr(1) + "." + NatStr(70) + "." + NatStr(0) == "1.70.0"
    ensures NatStr(1) + "." + NatStr(100) + "." + NatStr(0) == "1.100.0"
  {
    assert NatStr(1) == "1" && NatStr(0) == "0" && NatStr(9) == "9";
    assert NatStr(69) == "69" && NatStr(70) == "70" && NatStr(100) == "100";
  }

  /** Numbers compare by value, not as text: 1.9.0 passes and 1.100.0 does not. */
  lemma NumbersByValue()
    ensures ValidVersion("1.9.0") && !ValidVersion("1.100.0")
  {
    Spellings();
    ThreeNumberVersion(1, 9, 0);
    ThreeNumberVersion(1, 100, 0);
  }

  /** The provided API itself passes; the next minor version does not. */
  lemma ApiVersionPasses()
    ensures ValidVersion("1.69.0") && !ValidVersion("1.70.0")
  {
    Spellings();
    ThreeNumberVersion(1, 69, 0);
    ThreeNumberVersion(1, 70, 0);
  }

  /**
   * A version that starts with any other symbol (`~1.80.0`, `>=1.80.0`) sorts
   * below every number and is retargeted whatever it names.
   */
  lemma SymbolPrefixPasses(c: char, v: string)
    requires !IsDigit(c) && !IsLetter(c) && c != '^'
    ensures ValidVersion([c] + v)
  {
    var s := [c] + v;
    assert s[1..] == v;
    var keys := CollationKeys(s);
    assert keys == [Sym(c)] + CollationKeys(v);
    UncaretedVersion(s, keys);
    CompareCons(Num(1), [Sym('.'), Num(69), Sym('.'), Num(0)], Sym(c), CollationKeys(v));
  }

  /** A proper prefix sorts first. */
  lemma {:induction false} PrefixFirst(a: seq<Key>, tail: seq<Key>)
    requires tail != []
    ensures Compare(a, a + tail) == -1
  {
    if a != [] {
      assert (a + tail)[0] == a[0] && (a + tail)[1..] == a[1..] + tail;
      PrefixFirst(a[1..], tail);
    }
  }

  /** Concatenation of six pieces, regrouped to the right. */
  lemma Nest6<T>(a: seq<T>, x: seq<T>, b: seq<T>, y: seq<T>, c: seq<T>, d: seq<T>)
    ensures a + x + b + y + c + d == a + (x + (b + (y + (c + d))))
  {
    Nest(a, x, b, y, c + d);
    AppendAssoc(a + x + b + y, c, d);
    AppendAssoc(a + x + b, y, c);
  }

  /** A pre-release of the provided API (`1.69.0-insider`) is longer and sorts after it: not retargeted. */
  lemma PrereleaseRejected(suffix: string)
    requires suffix != [] && !IsDigit(suffix[0])
    ensures !ValidVersion("1.69.0" + suffix)
  {
    var v := "1.69.0" + suffix;
    Spellings();
    Nest6(NatStr(1), ".", NatStr(69), ".", NatStr(0), suffix);
    var tail := CollationKeys(suffix);
    NumberKey(0, suffix);
    NumberDotKey(69, NatStr(0) + suffix, [Num(0)] + tail);
    NumberDotKey(1, NatStr(69) + ("." + (NatStr(0) + suffix)), [Num(69), Sym('.')] + ([Num(0)] + tail));
    var api := [Num(1), Sym('.'), Num(69), Sym('.'), Num(0)];
    AppendKeys(CollationKeys(v), tail);
    assert tail != [] by {
      assert suffix[0] == suffix[0];
    }
    assert v[0] == '1';
    UncaretedVersion(v, api + tail);
    PrefixFirst(api, tail);
  }

  lemma AppendKeys(keys: seq<Key>, tail: seq<Key>)
    requires keys == [Num(1), Sym('.')] + ([Num(69), Sym('.')] + ([Num(0)] + tail))
    ensures keys == [Num(1), Sym('.'), Num(69), Sym('.'), Num(0)] + tail
  {
  }
}
