/**
 * The small part of JavaScript's value and string semantics that the packager
 * relies on: optional values, JSON values and their truthiness, whitespace
 * trimming, splitting, substring search and ASCII case mapping.
 */
module Js {

  datatype Option<T> = None | Some(value: T)

  /** A parsed JSON value. Numbers are integers: no floating point is modelled. */
  datatype Json =
    | JNull
    | JBool(b: bool)
    | JNum(n: int)
    | JStr(s: string)
    | JArr(items: seq<Json>)
    | JObj(fields: map<string, Json>)

  /** JavaScript truthiness of a JSON value (`!!v`). */
  predicate Truthy(v: Json)
  {
    match v
    case JNull => false
    case JBool(b) => b
    case JNum(n) => n != 0
    case JStr(s) => s != ""
    case JArr(_) => true
    case JObj(_) => true
  }

  /** Truthiness of a possibly absent string field: `undefined` and `""` are falsy. */
  predicate Present(v: Option<string>)
  {
    v.Some? && v.value != ""
  }

  /** An ASCII decimal digit (`\d`). */
  predicate IsDigit(c: char)
  {
    '0' <= c <= '9'
  }

  /**
   * The characters removed by `String.prototype.trim` and matched by `\s`:
   * ECMAScript's WhiteSpace and LineTerminator code points.
   */
  predicate IsWhitespace(c: char)
  {
    c == '\U{0009}' || c == '\U{000A}' || c == '\U{000B}' || c == '\U{000C}' || c == '\U{000D}' ||
    c == '\U{0020}' || c == '\U{00A0}' || c == '\U{1680}' || ('\U{2000}' <= c <= '\U{200A}') ||
    c == '\U{2028}' || c == '\U{2029}' || c == '\U{202F}' || c == '\U{205F}' || c == '\U{3000}' ||
    c == '\U{FEFF}'
  }

  /** Index of the first non-whitespace character at or after `i` (or `|s|`). */
  function SkipWhitespace(s: string, i: nat): (k: nat)
    requires i <= |s|
    ensures i <= k <= |s|
    ensures forall j :: i <= j < k ==> IsWhitespace(s[j])
    ensures k < |s| ==> !IsWhitespace(s[k])
    decreases |s| - i
  {
    if i == |s| || !IsWhitespace(s[i]) then i else SkipWhitespace(s, i + 1)
  }

  /** One past the last non-whitespace character before `j` (or `lo`). */
  function SkipWhitespaceBack(s: string, lo: nat, j: nat): (k: nat)
    requires lo <= j <= |s|
    ensures lo <= k <= j
    ensures forall m :: k <= m < j ==> IsWhitespace(s[m])
    ensures k > lo ==> !IsWhitespace(s[k - 1])
    decreases j
  {
    if j == lo || !IsWhitespace(s[j - 1]) then j else SkipWhitespaceBack(s, lo, j - 1)
  }

  /** `String.prototype.trim`: `s` without its leading and trailing whitespace. */
  function Trim(s: string): (r: string)
    ensures |r| <= |s|
    ensures r == [] || (!IsWhitespace(r[0]) && !IsWhitespace(r[|r| - 1]))
    ensures exists a, b :: (0 <= a <= b <= |s| && r == s[a..b] &&
      (forall j :: 0 <= j < a ==> IsWhitespace(s[j])) &&
      (forall j :: b <= j < |s| ==> IsWhitespace(s[j])))
  {
    var a := SkipWhitespace(s, 0);
    var b := SkipWhitespaceBack(s, a, |s|);
    s[a..b]
  }

  predicate StartsWith<T(==)>(s: seq<T>, prefix: seq<T>)
  {
    |prefix| <= |s| && s[..|prefix|] == prefix
  }

  predicate EndsWith<T(==)>(s: seq<T>, suffix: seq<T>)
  {
    |suffix| <= |s| && s[|s| - |suffix|..] == suffix
  }

  predicate OccursAt<T(==)>(s: seq<T>, sub: seq<T>, i: nat)
  {
    i + |sub| <= |s| && s[i..i + |sub|] == sub
  }

  /** `s.indexOf(sub, from)`: the first occurrence at or after `from`, or -1. */
  function IndexOf<T(==)>(s: seq<T>, sub: seq<T>, from: nat): (r: int)
    requires from <= |s|
    ensures r == -1 || (from <= r && OccursAt(s, sub, r))
    ensures r == -1 ==> forall i :: from <= i <= |s| ==> !OccursAt(s, sub, i)
    ensures r != -1 ==> forall i :: from <= i < r ==> !OccursAt(s, sub, i)
    decreases |s| - from
  {
    if OccursAt(s, sub, from) then from
    else if from == |s| then -1
    else IndexOf(s, sub, from + 1)
  }

  /** `s.indexOf(sub) !== -1`. */
  predicate Contains<T(==)>(s: seq<T>, sub: seq<T>)
  {
    IndexOf(s, sub, 0) != -1
  }

  lemma AppendAssoc<T>(a: seq<T>, b: seq<T>, c: seq<T>)
    ensures (a + b) + c == a + (b + c)
  {
  }

  /** A non-empty sequence is its prefix followed by its last element. */
  lemma LastSplit<T>(s: seq<T>)
    requires s != []
    ensures s == s[..|s| - 1] + [s[|s| - 1]]
  {
  }

  lemma ContainsAt<T>(s: seq<T>, sub: seq<T>, i: nat)
    requires OccursAt(s, sub, i)
    ensures Contains(s, sub)
  {
  }

  /** `String.prototype.toLowerCase`, on ASCII letters. */
  function ToLower(s: string): (r: string)
    ensures |r| == |s|
    ensures forall i :: 0 <= i < |s| ==>
      r[i] == (if 'A' <= s[i] <= 'Z' then (s[i] as int + 32) as char else s[i])
  {
    seq(|s|, i requires 0 <= i < |s| => if 'A' <= s[i] <= 'Z' then (s[i] as int + 32) as char else s[i])
  }

  /**
   * Lowering case folds: no capital letter is left, a second pass changes
   * nothing, every other character is kept, and a text is its own lowering iff
   * it has no capital letter.
   */
  lemma ToLowerFolds(s: string)
    ensures forall i :: 0 <= i < |s| ==> !('A' <= ToLower(s)[i] <= 'Z')
    ensures ToLower(ToLower(s)) == ToLower(s)
    ensures forall i :: 0 <= i < |s| && !('A' <= s[i] <= 'Z') ==> ToLower(s)[i] == s[i]
    ensures ToLower(s) == s <==> forall i :: 0 <= i < |s| ==> !('A' <= s[i] <= 'Z')
  {
    if ToLower(s) == s {
      forall i | 0 <= i < |s| ensures !('A' <= s[i] <= 'Z') {
        assert ToLower(s)[i] == s[i];
      }
    }
  }

  /** Lowering works character by character, so it distributes over concatenation. */
  lemma ToLowerAppend(a: string, b: string)
    ensures ToLower(a + b) == ToLower(a) + ToLower(b)
  {
  }

  /** Index of the first element at or after `i` that satisfies `isSep`, or `|s|`. */
  function NextSep<T>(s: seq<T>, isSep: T -> bool, i: nat): (k: nat)
    requires i <= |s|
    ensures i <= k <= |s|
    ensures forall j :: i <= j < k ==> !isSep(s[j])
    ensures k < |s| ==> isSep(s[k])
    decreases |s| - i
  {
    if i == |s| || isSep(s[i]) then i else NextSep(s, isSep, i + 1)
  }

  /**
   * `s.split(sep)` for a separator that is a single element (or a one-character
   * class): the pieces between separators, including empty ones.
   */
  function Split<T>(s: seq<T>, isSep: T -> bool): (r: seq<seq<T>>)
    ensures |r| >= 1
    ensures forall p :: p in r ==> forall x :: x in p ==> !isSep(x)
    decreases |s|
  {
    var k := NextSep(s, isSep, 0);
    if k == |s| then [s] else [s[..k]] + Split(s[k + 1..], isSep)
  }

  function Count<T>(s: seq<T>, isSep: T -> bool): nat
  {
    if s == [] then 0 else (if isSep(s[0]) then 1 else 0) + Count(s[1..], isSep)
  }

  /** Joins pieces with a separator element between consecutive pieces. */
  function JoinWith<T>(pieces: seq<seq<T>>, sep: T): seq<T>
  {
    if pieces == [] then [] else if |pieces| == 1 then pieces[0]
    else pieces[0] + [sep] + JoinWith(pieces[1..], sep)
  }

  lemma {:induction false} CountAppend<T>(a: seq<T>, b: seq<T>, isSep: T -> bool)
    ensures Count(a + b, isSep) == Count(a, isSep) + Count(b, isSep)
  {
    if a == [] {
      assert a + b == b;
    } else {
      assert (a + b)[0] == a[0] && (a + b)[1..] == a[1..] + b;
      CountAppend(a[1..], b, isSep);
    }
  }

  lemma {:induction false} CountNone<T>(s: seq<T>, isSep: T -> bool)
    requires forall x :: x in s ==> !isSep(x)
    ensures Count(s, isSep) == 0
  {
    if s != [] { CountNone(s[1..], isSep); }
  }

  /** Splitting yields one more piece than there are separators. */
  lemma {:induction false} SplitCount<T>(s: seq<T>, isSep: T -> bool)
    ensures |Split(s, isSep)| == Count(s, isSep) + 1
    decreases |s|
  {
    var k := NextSep(s, isSep, 0);
    CountNone(s[..k], isSep);
    if k < |s| {
      SplitCount(s[k + 1..], isSep);
      assert s == s[..k] + [s[k]] + s[k + 1..];
      CountAppend(s[..k] + [s[k]], s[k + 1..], isSep);
      CountAppend(s[..k], [s[k]], isSep);
      assert Count([s[k]], isSep) == 1 by { assert [s[k]][1..] == []; }
    } else {
      assert s[..k] == s;
    }
  }

  /** When every separator is the same element, joining the pieces back restores `s`. */
  lemma {:induction false} SplitJoin<T>(s: seq<T>, sep: T, isSep: T -> bool)
    requires forall x :: isSep(x) <==> x == sep
    ensures JoinWith(Split(s, isSep), sep) == s
    decreases |s|
  {
    var k := NextSep(s, isSep, 0);
    if k < |s| {
      SplitJoin(s[k + 1..], sep, isSep);
      assert s == s[..k] + [sep] + s[k + 1..];
    }
  }

  /** Splitting a join of separator-free pieces gives the pieces back. */
  lemma {:induction false} SplitJoined<T>(ws: seq<seq<T>>, sep: T, isSep: T -> bool)
    requires |ws| >= 1 && isSep(sep)
    requires forall k, x :: 0 <= k < |ws| && x in ws[k] ==> !isSep(x)
    ensures Split(JoinWith(ws, sep), isSep) == ws
    decreases |ws|
  {
    var s := JoinWith(ws, sep);
    if |ws| == 1 {
      assert s == ws[0];
      forall j | 0 <= j < |s| ensures !isSep(s[j]) { assert s[j] in ws[0]; }
    } else {
      SplitHead(ws[0], sep, JoinWith(ws[1..], sep), isSep);
      SplitJoined(ws[1..], sep, isSep);
      assert ws == [ws[0]] + ws[1..];
    }
  }

  /** A piece free of separators, then a separator: the piece comes out first. */
  lemma SplitHead<T>(a: seq<T>, sep: T, rest: seq<T>, isSep: T -> bool)
    requires isSep(sep) && forall x :: x in a ==> !isSep(x)
    ensures Split(a + [sep] + rest, isSep) == [a] + Split(rest, isSep)
  {
    var s := a + [sep] + rest;
    forall j | 0 <= j < |a| ensures !isSep(s[j]) { assert s[j] == a[j] && a[j] in a; }
    assert s[|a|] == sep;
    var k := NextSep(s, isSep, 0);
    assert k == |a|;
    assert s[..k] == a && s[k + 1..] == rest;
  }

  /** Every element of a join is the separator or an element of one of the pieces. */
  lemma {:induction false} InJoin<T>(ws: seq<seq<T>>, sep: T, x: T)
    requires x in JoinWith(ws, sep)
    ensures x == sep || exists k :: 0 <= k < |ws| && x in ws[k]
    decreases |ws|
  {
    if |ws| > 1 {
      var rest := JoinWith(ws[1..], sep);
      assert JoinWith(ws, sep) == ws[0] + [sep] + rest;
      if x in rest {
        InJoin(ws[1..], sep, x);
        if x != sep {
          var k :| 0 <= k < |ws[1..]| && x in ws[1..][k];
          assert x in ws[k + 1];
        }
      }
    }
  }

  /** `Array.prototype.filter`: the elements that satisfy `keep`, in their order. */
  function Filter<T>(s: seq<T>, keep: T -> bool): (r: seq<T>)
    ensures |r| <= |s|
  {
    if s == [] then []
    else Filter(s[..|s| - 1], keep) + (if keep(s[|s| - 1]) then [s[|s| - 1]] else [])
  }

  lemma {:induction false} FilterAppend<T>(a: seq<T>, b: seq<T>, keep: T -> bool)
    ensures Filter(a + b, keep) == Filter(a, keep) + Filter(b, keep)
    decreases |b|
  {
    if b != [] {
      var n := |b| - 1;
      var tail := if keep(b[n]) then [b[n]] else [];
      assert (a + b)[..|a + b| - 1] == a + b[..n];
      assert Filter(a + b, keep) == Filter(a + b[..n], keep) + tail;
      FilterAppend(a, b[..n], keep);
    } else {
      assert a + b == a;
    }
  }

  /** Filtering keeps every occurrence of a kept element and none of the others. */
  lemma {:induction false} FilterMultiset<T>(s: seq<T>, keep: T -> bool)
    ensures forall x :: multiset(Filter(s, keep))[x] == if keep(x) then multiset(s)[x] else 0
    decreases |s|
  {
    if s != [] {
      var init := s[..|s| - 1];
      FilterMultiset(init, keep);
      assert s == init + [s[|s| - 1]];
    }
  }

  lemma FilterMembers<T>(s: seq<T>, keep: T -> bool, x: T)
    ensures x in Filter(s, keep) <==> x in s && keep(x)
  {
    FilterMultiset(s, keep);
    assert x in Filter(s, keep) <==> multiset(Filter(s, keep))[x] > 0;
  }

  /** `a.indexOf(x)` on an array: the first index holding `x`, or -1. */
  function FirstIndex<T(==)>(s: seq<T>, x: T): (r: int)
    ensures -1 <= r < |s|
    ensures r == -1 <==> x !in s
    ensures r >= 0 ==> s[r] == x && x !in s[..r]
  {
    if s == [] then -1
    else if s[0] == x then 0
    else
      var k := FirstIndex(s[1..], x);
      if k == -1 then -1
      else
        assert s[..k + 1] == [s[0]] + s[1..][..k];
        k + 1
  }
}
