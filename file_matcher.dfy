/**
 * The rule compiler of src/common/file-matcher.ts: a glob-like rule is turned
 * into an anchored regular expression by a fixed chain of textual rewrites, and
 * the returned predicate tests a path against it (negated for a `!` rule).
 *
 * The chain is modelled on a sequence of pieces: `Ch(c)` is a character of the
 * rule that is still plain text, the other pieces are the regex fragments the
 * chain inserted. `Render` gives the regex source text. `ToRegex` is how the
 * JavaScript RegExp constructor reads that text, for the subset of patterns
 * this model covers, and `Matches` is the language of the result.
 */
module FileMatcher {
  import opened Js

  /** A piece of the rule while it is being rewritten. */
  datatype Piece =
    | Ch(c: char)           // a rule character, still plain text
    | LazyRun               // `[^/]*?`, put in for the first lone `*`
    | SegStar               // `([^/]+/)*`, put in for the first `**/`
    | Alt(items: seq<Item>) // `(?:(a)|(b)|...)`, put in for a brace group
  /** One alternative of a brace group. */
  datatype Item = Item(body: seq<Piece>)

  /** The rule text as plain pieces. */
  function Lift(s: string): (p: seq<Piece>)
    ensures |p| == |s|
    ensures forall i :: 0 <= i < |s| ==> p[i] == Ch(s[i])
  {
    seq(|s|, i requires 0 <= i < |s| => Ch(s[i]))
  }

  // ---------------------------------------------------------------------------
  // The rewrite chain (src/common/file-matcher.ts:14-35)
  // ---------------------------------------------------------------------------

  /** `filter.indexOf('!') === 0`. */
  predicate IsNegated(filter: string)
  {
    |filter| > 0 && filter[0] == '!'
  }

  /** `.replace(/^!/, '')`. */
  function StripNegation(filter: string): string
  {
    if IsNegated(filter) then filter[1..] else filter
  }

  // A `*` not followed by `/` or `*` (the regex `\*(?![\/*])`).
  predicate LoneStarAt(p: seq<Piece>, i: nat)
    requires i < |p|
  {
    p[i] == Ch('*') && (i + 1 == |p| || (p[i + 1] != Ch('/') && p[i + 1] != Ch('*')))
  }

  /** The first lone star at or after `from`, or -1. */
  function FindLoneStar(p: seq<Piece>, from: nat): (r: int)
    requires from <= |p|
    ensures r == -1 ==> forall i :: from <= i < |p| ==> !LoneStarAt(p, i)
    ensures r != -1 ==> from <= r < |p| && LoneStarAt(p, r)
    ensures r != -1 ==> forall i :: from <= i < r ==> !LoneStarAt(p, i)
    decreases |p| - from
  {
    if from == |p| then -1
    else if LoneStarAt(p, from) then from
    else FindLoneStar(p, from + 1)
  }

  // `.replace(/\*(?![\/*])/, '[^/]*?')`: only the first lone star is rewritten.
  function ReplaceLoneStar(p: seq<Piece>): (r: seq<Piece>)
    ensures (forall i :: 0 <= i < |p| ==> !LoneStarAt(p, i)) ==> r == p
    ensures forall i :: 0 <= i < |p| && LoneStarAt(p, i) && (forall j :: 0 <= j < i ==> !LoneStarAt(p, j)) ==>
      r == p[..i] + [LazyRun] + p[i + 1..]
  {
    var i := FindLoneStar(p, 0);
    if i == -1 then p else p[..i] + [LazyRun] + p[i + 1..]
  }

  const Globstar: seq<Piece> := [Ch('*'), Ch('*'), Ch('/')]

  /** `.replace('**' + '/', '([^/]+/)*')`: a string pattern, so only the first occurrence. */
  function ReplaceGlobstar(p: seq<Piece>): (r: seq<Piece>)
    ensures (forall i :: 0 <= i <= |p| ==> !OccursAt(p, Globstar, i)) ==> r == p
    ensures forall i :: 0 <= i <= |p| && OccursAt(p, Globstar, i) && (forall j :: 0 <= j < i ==> !OccursAt(p, Globstar, j)) ==>
      r == p[..i] + [SegStar] + p[i + 3..]
  {
    var i := IndexOf(p, Globstar, 0);
    if i == -1 then p else p[..i] + [SegStar] + p[i + 3..]
  }

  /** Index of the first `}` at or after `i`, or `|p|`. */
  function CloseBrace(p: seq<Piece>, i: nat): (j: nat)
    requires i <= |p|
    ensures i <= j <= |p|
    ensures forall k :: i <= k < j ==> p[k] != Ch('}')
    ensures j < |p| ==> p[j] == Ch('}')
    decreases |p| - i
  {
    if i == |p| || p[i] == Ch('}') then i else CloseBrace(p, i + 1)
  }

  /** Drops leading and trailing whitespace characters (`item.trim()`). */
  function TrimPieces(q: seq<Piece>): (r: seq<Piece>)
    ensures exists a, b :: (0 <= a <= b <= |q| && r == q[a..b] &&
      (forall k :: 0 <= k < a ==> q[k].Ch? && IsWhitespace(q[k].c)) &&
      (forall k :: b <= k < |q| ==> q[k].Ch? && IsWhitespace(q[k].c)))
    ensures r != [] ==> !(r[0].Ch? && IsWhitespace(r[0].c)) && !(r[|r| - 1].Ch? && IsWhitespace(r[|r| - 1].c))
  {
    var a := SkipBlank(q, 0);
    var b := SkipBlankBack(q, a, |q|);
    q[a..b]
  }

  function SkipBlank(q: seq<Piece>, i: nat): (k: nat)
    requires i <= |q|
    ensures i <= k <= |q|
    ensures forall j :: i <= j < k ==> q[j].Ch? && IsWhitespace(q[j].c)
    ensures k < |q| ==> !(q[k].Ch? && IsWhitespace(q[k].c))
    decreases |q| - i
  {
    if i == |q| || !(q[i].Ch? && IsWhitespace(q[i].c)) then i else SkipBlank(q, i + 1)
  }

  function SkipBlankBack(q: seq<Piece>, lo: nat, j: nat): (k: nat)
    requires lo <= j <= |q|
    ensures lo <= k <= j
    ensures forall m :: k <= m < j ==> q[m].Ch? && IsWhitespace(q[m].c)
    ensures k > lo ==> !(q[k - 1].Ch? && IsWhitespace(q[k - 1].c))
    decreases j
  {
    if j == lo || !(q[j - 1].Ch? && IsWhitespace(q[j - 1].c)) then j else SkipBlankBack(q, lo, j - 1)
  }

  predicate IsComma(x: Piece)
  {
    x == Ch(',')
  }

  /** The alternatives of a brace group: `$2.split(',')`, each trimmed. */
  function BraceItems(content: seq<Piece>): (r: seq<Item>)
    ensures |r| == Count(content, IsComma) + 1
    ensures forall k :: 0 <= k < |r| ==> forall x :: x in r[k].body ==> !IsComma(x)
    ensures forall k :: 0 <= k < |r| && r[k].body != [] ==>
      !(r[k].body[0].Ch? && IsWhitespace(r[k].body[0].c)) &&
      !(r[k].body[|r[k].body| - 1].Ch? && IsWhitespace(r[k].body[|r[k].body| - 1].c))
  {
    var parts := Split(content, IsComma);
    SplitCount(content, IsComma);
    assert forall k :: 0 <= k < |parts| ==> parts[k] in parts;
    seq(|parts|, k requires 0 <= k < |parts| => Item(TrimPieces(parts[k])))
  }

  /**
   * `.replace(/\{([^\}]+)\}/g, ...)` from position `i` on: a `{` followed by at
   * least one piece up to the next `}` becomes one alternation; scanning resumes
   * after the `}`. Any other piece is kept.
   */
  function ExpandBracesFrom(p: seq<Piece>, i: nat): seq<Piece>
    requires i <= |p|
    decreases |p| - i
  {
    if i == |p| then []
    else if p[i] == Ch('{') && i + 2 <= CloseBrace(p, i + 1) < |p| then
      var j := CloseBrace(p, i + 1);
      [Alt(BraceItems(p[i + 1..j]))] + ExpandBracesFrom(p, j + 1)
    else [p[i]] + ExpandBracesFrom(p, i + 1)
  }

  function ExpandBraces(p: seq<Piece>): seq<Piece>
  {
    ExpandBracesFrom(p, 0)
  }

  /** The pieces after every rewrite of the chain except the final escaping. */
  function Rewrite(filter: string): seq<Piece>
  {
    ExpandBraces(ReplaceGlobstar(ReplaceLoneStar(Lift(StripNegation(filter)))))
  }

  // ---------------------------------------------------------------------------
  // The regex source text: `.replace(/([\/\.])/g, '\\$1')` and the anchors
  // ---------------------------------------------------------------------------

  function RenderPiece(x: Piece): string
    decreases x, 1
  {
    match x
    case Ch(c) => if c == '/' || c == '.' then ['\\', c] else [c]
    case LazyRun => "[^\\/]*?"
    case SegStar => "([^\\/]+\\/)*"
    case Alt(items) => "(?:" + RenderItems(items) + ")"
  }

  function Render(p: seq<Piece>): string
    decreases p
  {
    if p == [] then [] else RenderPiece(p[0]) + Render(p[1..])
  }

  /** `(a)|(b)|...`: each item in parentheses, separated by `|`. */
  function RenderItems(items: seq<Item>): string
    decreases items
  {
    if items == [] then []
    else if |items| == 1 then "(" + Render(items[0].body) + ")"
    else "(" + Render(items[0].body) + ")|" + RenderItems(items[1..])
  }

  /** A `\` in front of every `.` and `/` of a plain text. */
  function Escape(s: string): string
  {
    if s == [] then [] else (if s[0] == '/' || s[0] == '.' then ['\\', s[0]] else [s[0]]) + Escape(s[1..])
  }

  /** The regex source that `fileMatch` compiles, anchored at both ends. */
  function Compile(filter: string): (r: string)
    ensures StartsWith(r, "(^") && EndsWith(r, "$)")
    ensures |r| >= 4
  {
    "(^" + Render(Rewrite(filter)) + "$)"
  }

  // ---------------------------------------------------------------------------
  // How the RegExp constructor reads the text, and what it matches
  // ---------------------------------------------------------------------------

  /** A regex atom of the modelled subset. */
  datatype Atom =
    | Lit(c: char)           // a literal or escaped character
    | Rep(r: char)           // a character followed by `*`: zero or more of it
    | NonSlashRun            // `[^\/]*?`: any run without `/`
    | Segments               // `([^\/]+\/)*`: zero or more `segment/`
    | Choice(alts: seq<Branch>)
  datatype Branch = Branch(atoms: seq<Atom>)

  /** Characters that still carry regex meaning once `.` and `/` are escaped. */
  predicate IsMeta(c: char)
  {
    c == '\\' || c == '^' || c == '$' || c == '|' || c == '?' || c == '*' || c == '+' ||
    c == '(' || c == ')' || c == '[' || c == ']' || c == '{' || c == '}'
  }

  function Prepend(a: Atom, rest: Option<seq<Atom>>): Option<seq<Atom>>
  {
    if rest.None? then None else Some([a] + rest.value)
  }

  /**
   * The atoms of the rendered text, or None when the text leaves the modelled
   * subset: a metacharacter of the rule other than a `*` right after a plain
   * character, or a `*` after an inserted fragment (a syntax error or a
   * quantified group in JavaScript).
   */
  function ToRegex(p: seq<Piece>): Option<seq<Atom>>
    decreases p
  {
    if p == [] then Some([])
    else
      var starNext := |p| > 1 && p[1] == Ch('*');
      match p[0]
      case Ch(c) =>
        if IsMeta(c) then None
        else if starNext then Prepend(Rep(c), ToRegex(p[2..]))
        else Prepend(Lit(c), ToRegex(p[1..]))
      case LazyRun => if starNext then None else Prepend(NonSlashRun, ToRegex(p[1..]))
      case SegStar => if starNext then None else Prepend(Segments, ToRegex(p[1..]))
      case Alt(items) =>
        if starNext then None
        else
          var alts := ToBranches(items);
          if alts.None? then None else Prepend(Choice(alts.value), ToRegex(p[1..]))
  }

  function ToBranches(items: seq<Item>): Option<seq<Branch>>
    decreases items
  {
    if items == [] then Some([])
    else
      var first := ToRegex(items[0].body);
      var rest := ToBranches(items[1..]);
      if first.None? || rest.None? then None else Some([Branch(first.value)] + rest.value)
  }

  /**
   * Whether the rendered text has a `*` with nothing to repeat, on which the
   * RegExp constructor throws a SyntaxError: a `*` at the start of the pattern
   * (right after `^`) or of an alternative, or right after another quantifier
   * (`c**`, `[^/]*?*`, `([^/]+/)**`, `(?:...)**`). Only text that the model
   * reads up to that `*` counts: the scan gives up at any other metacharacter.
   */
  predicate NothingToRepeat(p: seq<Piece>)
    decreases p
  {
    if p == [] then false
    else
      var starNext := |p| > 1 && p[1] == Ch('*');
      match p[0]
      case Ch(c) =>
        if c == '*' then true
        else if IsMeta(c) then false
        else if starNext then NothingToRepeat(p[2..])
        else NothingToRepeat(p[1..])
      case LazyRun => NothingToRepeat(p[1..])
      case SegStar => NothingToRepeat(p[1..])
      case Alt(items) =>
        ItemsNothingToRepeat(items) ||
        (ToBranches(items).Some? && if starNext then NothingToRepeat(p[2..]) else NothingToRepeat(p[1..]))
  }

  /** Some alternative of a group, read in order, has a `*` with nothing to repeat. */
  predicate ItemsNothingToRepeat(items: seq<Item>)
    decreases items
  {
    items != [] &&
    (NothingToRepeat(items[0].body) || (ToRegex(items[0].body).Some? && ItemsNothingToRepeat(items[1..])))
  }

  /** A text that throws is not one the model reads as a pattern. */
  lemma {:induction false} NothingToRepeatUnread(p: seq<Piece>)
    requires NothingToRepeat(p)
    ensures ToRegex(p).None?
    decreases p
  {
    var starNext := |p| > 1 && p[1] == Ch('*');
    match p[0]
    case Ch(c) =>
      if c != '*' && !IsMeta(c) {
        if starNext { NothingToRepeatUnread(p[2..]); } else { NothingToRepeatUnread(p[1..]); }
      }
    case LazyRun => if !starNext { NothingToRepeatUnread(p[1..]); }
    case SegStar => if !starNext { NothingToRepeatUnread(p[1..]); }
    case Alt(items) =>
      if !starNext {
        if ItemsNothingToRepeat(items) { ItemsNothingToRepeatUnread(items); } else { NothingToRepeatUnread(p[1..]); }
      }
  }

  lemma {:induction false} ItemsNothingToRepeatUnread(items: seq<Item>)
    requires ItemsNothingToRepeat(items)
    ensures ToBranches(items).None?
    decreases items
  {
    if NothingToRepeat(items[0].body) {
      NothingToRepeatUnread(items[0].body);
    } else {
      ItemsNothingToRepeatUnread(items[1..]);
    }
  }

  /** Index of the first `/` at or after `i`, or `|s|`. */
  function FirstSlash(s: string, i: nat): (k: nat)
    requires i <= |s|
    ensures i <= k <= |s|
    ensures forall j :: i <= j < k ==> s[j] != '/'
    ensures k < |s| ==> s[k] == '/'
    decreases |s| - i
  {
    if i == |s| || s[i] == '/' then i else FirstSlash(s, i + 1)
  }

  /** Whether the whole of `s` is in the language of `p`. */
  predicate Matches(p: seq<Atom>, s: string)
    decreases p, |s|
  {
    if p == [] then s == []
    else match p[0]
      case Lit(c) => s != [] && s[0] == c && Matches(p[1..], s[1..])
      case Rep(c) => Matches(p[1..], s) || (s != [] && s[0] == c && Matches(p, s[1..]))
      case NonSlashRun => Matches(p[1..], s) || (s != [] && s[0] != '/' && Matches(p, s[1..]))
      case Segments =>
        Matches(p[1..], s) || (var k := FirstSlash(s, 0); 0 < k < |s| && Matches(p, s[k + 1..]))
      case Choice(alts) =>
        exists i, j | 0 <= i < |alts| && 0 <= j <= |s| :: Matches(alts[i].atoms, s[..j]) && Matches(p[1..], s[j..])
  }

  /** The predicate `fileMatch` returns: the compiled pattern and whether it is negated. */
  datatype Matcher = Matcher(negated: bool, pattern: seq<Atom>)
  {
    /** `negateRule.test(path) ? false : true`, or `matchRule.test(path)`. */
    predicate Test(path: string)
    {
      if negated then !Matches(pattern, path) else Matches(pattern, path)
    }
  }

  /** `fileMatch(filter)`, for rules whose compiled text is in the modelled subset. */
  function FileMatch(filter: string): Option<Matcher>
  {
    var p := ToRegex(Rewrite(filter));
    if p.None? then None else Some(Matcher(IsNegated(filter), p.value))
  }

  /** What `new RegExp` makes of a rule's text. */
  datatype Compiled =
    | Compiles(matcher: Matcher) // a pattern in the modelled subset
    | SyntaxError                // the constructor throws: a `*` has nothing to repeat
    | Unmodelled                 // any other text, which this model does not read

  /** The constructor throws on the rule's compiled text. */
  predicate ThrowsOnCompile(filter: string)
  {
    NothingToRepeat(Rewrite(filter))
  }

  /** `fileMatch(filter)`, with the throw of the RegExp constructor. */
  function Compilation(filter: string): (c: Compiled)
    ensures c.SyntaxError? <==> ThrowsOnCompile(filter)
    ensures c.Compiles? <==> FileMatch(filter).Some?
    ensures c.Compiles? ==> FileMatch(filter) == Some(c.matcher)
  {
    if ThrowsOnCompile(filter) then
      NothingToRepeatUnread(Rewrite(filter));
      SyntaxError
    else
      var m := FileMatch(filter);
      if m.Some? then Compiles(m.value) else Unmodelled
  }

  /** `fileMatch(filter)(path)`; a rule outside the modelled subset accepts nothing. */
  predicate Accepts(filter: string, path: string)
  {
    var m := FileMatch(filter);
    m.Some? && m.value.Test(path)
  }
}

/** Properties of the rule compiler, including the cases of tests/match.test.ts. */
module FileMatcherProps {
  import opened Js
  import opened FileMatcher

  /** A literal text as atoms. */
  function Lits(w: string): (p: seq<Atom>)
    ensures |p| == |w|
    ensures forall i :: 0 <= i < |w| ==> p[i] == Lit(w[i])
  {
    seq(|w|, i requires 0 <= i < |w| => Lit(w[i]))
  }

  /** Text in which no character has regex meaning (`.` and `/` are escaped by the chain). */
  predicate Plain(w: string)
  {
    forall i :: 0 <= i < |w| ==> !IsMeta(w[i])
  }

  predicate NoSlash(s: string)
  {
    forall i :: 0 <= i < |s| ==> s[i] != '/'
  }

  // ---------------------------------------------------------------------------
  // The language of the atoms
  // ---------------------------------------------------------------------------

  /** A pattern that starts with literal text matches exactly the paths that start with it. */
  lemma {:induction false} MatchesLitsPrefix(w: string, q: seq<Atom>, s: string)
    ensures Matches(Lits(w) + q, s) <==> StartsWith(s, w) && Matches(q, s[|w|..])
    decreases |w|
  {
    var p := Lits(w) + q;
    if w == [] {
      assert p == q;
    } else {
      assert p[0] == Lit(w[0]);
      assert p[1..] == Lits(w[1..]) + q;
      if s != [] {
        MatchesLitsPrefix(w[1..], q, s[1..]);
        assert StartsWith(s, w) <==> s[0] == w[0] && StartsWith(s[1..], w[1..]);
        if |w| <= |s| { assert s[1..][|w| - 1..] == s[|w|..]; }
      }
    }
  }

  /** A literal text, read as a pattern, matches only itself. */
  lemma LitsExact(w: string, s: string)
    ensures Matches(Lits(w), s) <==> s == w
  {
    MatchesLitsPrefix(w, [], s);
    assert Lits(w) + [] == Lits(w);
  }

  /** `[^/]*?` followed by `q` matches when it takes a slash-free prefix and `q` matches the rest. */
  lemma {:induction false} MatchesRun(q: seq<Atom>, s: string, k: nat)
    requires k <= |s| && NoSlash(s[..k]) && Matches(q, s[k..])
    ensures Matches([NonSlashRun] + q, s)
    decreases k
  {
    var p := [NonSlashRun] + q;
    assert p[1..] == q;
    if k > 0 {
      assert s[1..][..k - 1] == s[1..k];
      assert s[1..][k - 1..] == s[k..];
      MatchesRun(q, s[1..], k - 1);
    }
  }

  /** Every match of a pattern that ends in literal text ends with that text. */
  lemma {:induction false} MatchesEndsWithLits(q: seq<Atom>, w: string, s: string)
    requires Matches(q + Lits(w), s)
    ensures EndsWith(s, w)
    decreases q, |s|
  {
    var p := q + Lits(w);
    if q == [] {
      assert p == Lits(w);
      LitsExact(w, s);
    } else {
      assert p[0] == q[0] && p[1..] == q[1..] + Lits(w);
      match q[0]
      case Lit(c) =>
        MatchesEndsWithLits(q[1..], w, s[1..]);
      case Rep(c) =>
        if Matches(p[1..], s) { MatchesEndsWithLits(q[1..], w, s); }
        else { MatchesEndsWithLits(q, w, s[1..]); }
      case NonSlashRun =>
        if Matches(p[1..], s) { MatchesEndsWithLits(q[1..], w, s); }
        else { MatchesEndsWithLits(q, w, s[1..]); }
      case Segments =>
        if Matches(p[1..], s) { MatchesEndsWithLits(q[1..], w, s); }
        else {
          var k := FirstSlash(s, 0);
          MatchesEndsWithLits(q, w, s[k + 1..]);
        }
      case Choice(alts) =>
        var i, j :| 0 <= i < |alts| && 0 <= j <= |s| && Matches(alts[i].atoms, s[..j]) && Matches(p[1..], s[j..]);
        MatchesEndsWithLits(q[1..], w, s[j..]);
    }
  }

  /** Atoms that can never consume a `/`. */
  predicate SlashFree(p: seq<Atom>)
    decreases p
  {
    p == [] || (AtomSlashFree(p[0]) && SlashFree(p[1..]))
  }

  predicate AtomSlashFree(a: Atom)
    decreases a
  {
    match a
    case Lit(c) => c != '/'
    case Rep(c) => c != '/'
    case NonSlashRun => true
    case Segments => false
    case Choice(alts) => BranchesSlashFree(alts)
  }

  predicate BranchesSlashFree(alts: seq<Branch>)
    decreases alts
  {
    alts == [] || (SlashFree(alts[0].atoms) && BranchesSlashFree(alts[1..]))
  }

  lemma {:induction false} BranchSlashFree(alts: seq<Branch>, i: nat)
    requires BranchesSlashFree(alts) && i < |alts|
    ensures SlashFree(alts[i].atoms)
  {
    if i > 0 { BranchSlashFree(alts[1..], i - 1); }
  }

  /** A slash-free pattern matches only paths without `/`. */
  lemma {:induction false} SlashFreeMatchesNoSlash(p: seq<Atom>, s: string)
    requires SlashFree(p) && Matches(p, s)
    ensures NoSlash(s)
    decreases p, |s|
  {
    if p != [] {
      match p[0]
      case Lit(c) =>
        SlashFreeMatchesNoSlash(p[1..], s[1..]);
        assert s == [s[0]] + s[1..];
      case Rep(c) =>
        if Matches(p[1..], s) { SlashFreeMatchesNoSlash(p[1..], s); }
        else { SlashFreeMatchesNoSlash(p, s[1..]); assert s == [s[0]] + s[1..]; }
      case NonSlashRun =>
        if Matches(p[1..], s) { SlashFreeMatchesNoSlash(p[1..], s); }
        else { SlashFreeMatchesNoSlash(p, s[1..]); assert s == [s[0]] + s[1..]; }
      case Choice(alts) =>
        var i, j :| 0 <= i < |alts| && 0 <= j <= |s| && Matches(alts[i].atoms, s[..j]) && Matches(p[1..], s[j..]);
        BranchSlashFree(alts, i);
        SlashFreeMatchesNoSlash(alts[i].atoms, s[..j]);
        SlashFreeMatchesNoSlash(p[1..], s[j..]);
        assert s == s[..j] + s[j..];
    }
  }

  // ---------------------------------------------------------------------------
  // The rewrite chain on rules without special characters
  // ---------------------------------------------------------------------------

  /** Brace expansion copies every piece before the next `{` unchanged. */
  lemma {:induction false} ExpandBracesCopies(p: seq<Piece>, i: nat, k: nat)
    requires i <= k <= |p|
    requires forall m :: i <= m < k ==> p[m] != Ch('{')
    ensures ExpandBracesFrom(p, i) == p[i..k] + ExpandBracesFrom(p, k)
    decreases k - i
  {
    if i < k {
      ExpandBracesStep(p, i);
      ExpandBracesCopies(p, i + 1, k);
      ConsSlice(p, i, k, ExpandBracesFrom(p, k));
    }
  }

  lemma ExpandBracesStep(p: seq<Piece>, i: nat)
    requires i < |p| && p[i] != Ch('{')
    ensures ExpandBracesFrom(p, i) == [p[i]] + ExpandBracesFrom(p, i + 1)
  {
  }

  lemma ConsSlice<T>(p: seq<T>, i: nat, k: nat, rest: seq<T>)
    requires i < k <= |p|
    ensures p[i..k] + rest == [p[i]] + (p[i + 1..k] + rest)
  {
    assert p[i..k] == [p[i]] + p[i + 1..k];
  }

  lemma ExpandBracesNoBrace(p: seq<Piece>)
    requires forall m :: 0 <= m < |p| ==> p[m] != Ch('{')
    ensures ExpandBraces(p) == p
  {
    ExpandBracesCopies(p, 0, |p|);
    assert p[0..|p|] == p;
  }

  lemma {:induction false} RenderPlain(w: string)
    ensures Render(Lift(w)) == Escape(w)
    decreases |w|
  {
    if w != [] {
      assert Lift(w)[1..] == Lift(w[1..]);
      RenderPlain(w[1..]);
    }
  }

  /** Plain text in front of `q` is read as literal atoms in front of the atoms of `q`. */
  lemma {:induction false} ToRegexPlainPrefix(w: string, q: seq<Piece>)
    requires Plain(w)
    requires q == [] || q[0] != Ch('*')
    ensures ToRegex(Lift(w) + q) == if ToRegex(q).None? then None else Some(Lits(w) + ToRegex(q).value)
    decreases |w|
  {
    var p := Lift(w) + q;
    if w == [] {
      assert p == q && Lits(w) == [];
      if ToRegex(q).Some? { assert Lits(w) + ToRegex(q).value == ToRegex(q).value; }
    } else {
      assert p[0] == Ch(w[0]) && p[1..] == Lift(w[1..]) + q;
      assert |p| > 1 ==> p[1] != Ch('*') by {
        if |w| > 1 { assert p[1] == Ch(w[1]) && !IsMeta(w[1]); } else if |p| > 1 { assert p[1] == q[0]; }
      }
      assert !IsMeta(w[0]);
      ToRegexPlainPrefix(w[1..], q);
      var r := ToRegex(q);
      if r.Some? {
        LitsCons(w);
        Assoc([Lit(w[0])], Lits(w[1..]), r.value);
      }
    }
  }

  lemma LitsCons(w: string)
    requires w != []
    ensures Lits(w) == [Lit(w[0])] + Lits(w[1..])
  {
  }

  lemma RewritePlain(w: string)
    requires !IsNegated(w)
    requires Plain(w)
    ensures Rewrite(w) == Lift(w)
  {
    var p := Lift(w);
    assert forall i :: 0 <= i < |p| ==> !LoneStarAt(p, i);
    assert ReplaceLoneStar(p) == p;
    assert forall i :: 0 <= i <= |p| ==> !OccursAt(p, Globstar, i) by {
      forall i | 0 <= i <= |p| ensures !OccursAt(p, Globstar, i) {
        if i + 3 <= |p| { assert p[i..i + 3][0] == p[i]; }
      }
    }
    assert ReplaceGlobstar(p) == p;
    ExpandBracesNoBrace(p);
  }

  /** A rule without special characters compiles to itself, escaped and anchored, and matches exactly the path equal to it. */
  lemma PlainRuleMatchesItself(w: string)
    requires !IsNegated(w)
    requires Plain(w)
    ensures Compile(w) == "(^" + Escape(w) + "$)"
    ensures FileMatch(w) == Some(Matcher(false, Lits(w)))
    ensures forall path :: Accepts(w, path) <==> path == w
  {
    RewritePlain(w);
    RenderPlain(w);
    ToRegexPlainPrefix(w, []);
    assert Lift(w) + [] == Lift(w) && Lits(w) + [] == Lits(w);
    forall path { LitsExact(w, path); }
  }

  /** A leading `!` is stripped and the predicate answers the opposite of the positive rule. */
  lemma NegationInverts(r: string, path: string)
    requires !IsNegated(r)
    ensures FileMatch("!" + r) == if FileMatch(r).None? then None else Some(Matcher(true, FileMatch(r).value.pattern))
    ensures FileMatch(r).Some? ==> (Accepts("!" + r, path) <==> !Accepts(r, path))
  {
    assert IsNegated("!" + r);
    assert StripNegation("!" + r) == r;
  }

  /** The empty rule compiles to `(^$)`: it accepts the empty path and nothing else. */
  lemma EmptyRule()
    ensures Compile("") == "(^$)"
    ensures FileMatch("") == Some(Matcher(false, []))
    ensures forall path :: Accepts("", path) <==> path == ""
  {
    PlainRuleMatchesItself("");
  }

  // ---------------------------------------------------------------------------
  // The language, atom by atom
  // ---------------------------------------------------------------------------

  /** Zero or more non-empty slash-free segments, each followed by `/`. */
  predicate DirChain(d: string)
    decreases |d|
  {
    d == [] || (var k := FirstSlash(d, 0); 0 < k < |d| && DirChain(d[k + 1..]))
  }

  /** The first slash of `d + s` is the first slash of `d` when `d` has one. */
  lemma FirstSlashPrefix(d: string, s: string, i: nat)
    requires i <= |d| && FirstSlash(d, i) < |d|
    ensures FirstSlash(d + s, i) == FirstSlash(d, i)
  {
    var k := FirstSlash(d, i);
    var k' := FirstSlash(d + s, i);
    assert (d + s)[k] == '/';
  }

  lemma {:induction false} SegmentsLang(s: string)
    ensures Matches([Segments], s) <==> DirChain(s)
    decreases |s|
  {
    assert [Segments][1..] == [];
    if s != [] {
      var k := FirstSlash(s, 0);
      if 0 < k < |s| { SegmentsLang(s[k + 1..]); }
    }
  }

  lemma {:induction false} RunLang(s: string)
    ensures Matches([NonSlashRun], s) <==> NoSlash(s)
    decreases |s|
  {
    assert [NonSlashRun][1..] == [];
    if s != [] {
      RunLang(s[1..]);
      assert NoSlash(s) <==> s[0] != '/' && NoSlash(s[1..]) by {
        if s[0] != '/' && NoSlash(s[1..]) {
          forall i | 0 <= i < |s| ensures s[i] != '/' { if i > 0 { assert s[i] == s[1..][i - 1]; } }
        }
      }
    }
  }

  lemma {:induction false} RepLang(c: char, s: string)
    ensures Matches([Rep(c)], s) <==> forall i :: 0 <= i < |s| ==> s[i] == c
    decreases |s|
  {
    assert [Rep(c)][1..] == [];
    if s != [] {
      RepLang(c, s[1..]);
      if s[0] == c && (forall i :: 0 <= i < |s[1..]| ==> s[1..][i] == c) {
        forall i | 0 <= i < |s| ensures s[i] == c { if i > 0 { assert s[i] == s[1..][i - 1]; } }
      }
    }
  }

  lemma ChoiceLang(alts: seq<Branch>, s: string)
    ensures Matches([Choice(alts)], s) <==> exists i :: 0 <= i < |alts| && Matches(alts[i].atoms, s)
  {
    var p := [Choice(alts)];
    assert p[1..] == [];
    assert s[..|s|] == s && s[|s|..] == [];
    if Matches(p, s) {
      var i, j :| 0 <= i < |alts| && 0 <= j <= |s| && Matches(alts[i].atoms, s[..j]) && Matches(p[1..], s[j..]);
      assert j == |s|;
    }
    if exists i :: 0 <= i < |alts| && Matches(alts[i].atoms, s) {
      var i :| 0 <= i < |alts| && Matches(alts[i].atoms, s);
      assert Matches(alts[i].atoms, s[..|s|]) && Matches(p[1..], s[|s|..]);
    }
  }

  /** The language of `q1 + q2` is the concatenation of the two languages: one direction. */
  lemma {:induction false} ConcatJoin(q1: seq<Atom>, q2: seq<Atom>, a: string, b: string)
    requires Matches(q1, a) && Matches(q2, b)
    ensures Matches(q1 + q2, a + b)
    decreases q1, |a|, 1
  {
    if q1 == [] {
      assert q1 + q2 == q2 && a + b == b;
    } else if q1[0].Choice? {
      ConcatJoinChoice(q1, q2, a, b);
    } else if !q1[0].Lit? && Matches(q1[1..], a) {
      ConcatJoin(q1[1..], q2, a, b);
      assert (q1 + q2)[1..] == q1[1..] + q2;
    } else {
      ConcatJoinStep(q1, q2, a, b);
    }
  }

  lemma DropAppend<T>(a: seq<T>, b: seq<T>, m: nat)
    requires m <= |a|
    ensures (a + b)[m..] == a[m..] + b
  {
  }

  /** The first atom of `q1` consumes a first piece of `a`. */
  lemma {:induction false} ConcatJoinStep(q1: seq<Atom>, q2: seq<Atom>, a: string, b: string)
    requires q1 != [] && !q1[0].Choice? && (q1[0].Lit? || !Matches(q1[1..], a))
    requires Matches(q1, a) && Matches(q2, b)
    ensures Matches(q1 + q2, a + b)
    decreases q1, |a|, 0
  {
    var p := q1 + q2;
    assert p[0] == q1[0] && p[1..] == q1[1..] + q2;
    var m := if q1[0].Segments? then FirstSlash(a, 0) + 1 else 1;
    var rest := if q1[0].Lit? then q1[1..] else q1;
    assert 0 < m <= |a| && Matches(rest, a[m..]);
    ConcatJoin(rest, q2, a[m..], b);
    DropAppend(a, b, m);
    if q1[0].Segments? {
      FirstSlashPrefix(a, b, 0);
    } else {
      assert (a + b)[0] == a[0];
    }
  }

  lemma {:induction false} ConcatJoinChoice(q1: seq<Atom>, q2: seq<Atom>, a: string, b: string)
    requires q1 != [] && q1[0].Choice?
    requires Matches(q1, a) && Matches(q2, b)
    ensures Matches(q1 + q2, a + b)
    decreases q1, |a|, 0
  {
    var p := q1 + q2;
    assert p[0] == q1[0] && p[1..] == q1[1..] + q2;
    var alts := q1[0].alts;
    var i, j :| 0 <= i < |alts| && 0 <= j <= |a| && Matches(alts[i].atoms, a[..j]) && Matches(q1[1..], a[j..]);
    ConcatJoin(q1[1..], q2, a[j..], b);
    DropAppend(a, b, j);
    assert (a + b)[..j] == a[..j];
  }

  lemma Shift(s: string, m: nat, j: nat)
    requires m + j <= |s|
    ensures s[..m + j][m..] == s[m..][..j] && s[m + j..] == s[m..][j..]
    ensures s[..m + j][..m] == s[..m]
  {
  }

  /** The language of `q1 + q2` is the concatenation of the two languages: the other direction. */
  lemma {:induction false} ConcatSplit(q1: seq<Atom>, q2: seq<Atom>, s: string)
    requires Matches(q1 + q2, s)
    ensures exists j :: 0 <= j <= |s| && Matches(q1, s[..j]) && Matches(q2, s[j..])
    decreases q1, |s|, 2
  {
    if q1 == [] {
      assert q1 + q2 == q2 && s[..0] == [] && s[0..] == s;
    } else if q1[0].Choice? {
      ConcatSplitChoice(q1, q2, s);
    } else {
      ConcatSplitStep(q1, q2, s);
    }
  }

  /** The first atom of `q1` is not a choice: it matches nothing, or consumes a first piece of `s`. */
  lemma {:induction false} ConcatSplitStep(q1: seq<Atom>, q2: seq<Atom>, s: string)
    requires q1 != [] && !q1[0].Choice? && Matches(q1 + q2, s)
    ensures exists j :: 0 <= j <= |s| && Matches(q1, s[..j]) && Matches(q2, s[j..])
    decreases q1, |s|, 1
  {
    var p := q1 + q2;
    assert p[0] == q1[0] && p[1..] == q1[1..] + q2;
    if Matches(p[1..], s) && !q1[0].Lit? {
      ConcatSplit(q1[1..], q2, s);
    } else if q1[0].Segments? {
      ConcatSplitSegments(q1, q2, s);
    } else {
      var rest := if q1[0].Lit? then q1[1..] else q1;
      assert s != [] && Matches(rest + q2, s[1..]);
      ConcatSplit(rest, q2, s[1..]);
      var j :| 0 <= j <= |s[1..]| && Matches(rest, s[1..][..j]) && Matches(q2, s[1..][j..]);
      Shift(s, 1, j);
      assert Matches(q1, s[..1 + j]);
    }
  }

  /** `([^/]+/)*` consuming its first directory. */
  lemma {:induction false} ConcatSplitSegments(q1: seq<Atom>, q2: seq<Atom>, s: string)
    requires q1 != [] && q1[0].Segments?
    requires Matches(q1 + q2, s) && !Matches(q1[1..] + q2, s)
    ensures exists j :: 0 <= j <= |s| && Matches(q1, s[..j]) && Matches(q2, s[j..])
    decreases q1, |s|, 0
  {
    var p := q1 + q2;
    assert p[0] == q1[0] && p[1..] == q1[1..] + q2;
    SegmentsAdvance(p, s);
    var m := FirstSlash(s, 0) + 1;
    ConcatSplit(q1, q2, s[m..]);
    var j :| 0 <= j <= |s[m..]| && Matches(q1, s[m..][..j]) && Matches(q2, s[m..][j..]);
    Shift(s, m, j);
    FirstSlashTake(s, m + j);
    SegmentsCons(q1, s[..m + j], m);
  }

  /** A match of `([^/]+/)*` that is not empty leaves its first directory behind. */
  lemma SegmentsAdvance(p: seq<Atom>, s: string)
    requires p != [] && p[0].Segments? && Matches(p, s) && !Matches(p[1..], s)
    ensures 0 < FirstSlash(s, 0) < |s| && Matches(p, s[FirstSlash(s, 0) + 1..])
  {
  }

  /** One more directory, ending at `m`, in front of a match of `([^/]+/)*`. */
  lemma SegmentsCons(q: seq<Atom>, t: string, m: nat)
    requires q != [] && q[0].Segments?
    requires 0 < FirstSlash(t, 0) && FirstSlash(t, 0) + 1 == m <= |t| && Matches(q, t[m..])
    ensures Matches(q, t)
  {
  }

  /** Cutting `s` after its first slash keeps that slash first. */
  lemma FirstSlashTake(s: string, n: nat)
    requires FirstSlash(s, 0) < n <= |s|
    ensures FirstSlash(s[..n], 0) == FirstSlash(s, 0)
  {
    var k := FirstSlash(s, 0);
    assert s[..n][k] == s[k];
  }

  lemma {:induction false} ConcatSplitChoice(q1: seq<Atom>, q2: seq<Atom>, s: string)
    requires q1 != [] && q1[0].Choice? && Matches(q1 + q2, s)
    ensures exists j :: 0 <= j <= |s| && Matches(q1, s[..j]) && Matches(q2, s[j..])
    decreases q1, |s|, 0
  {
    var p := q1 + q2;
    assert p[0] == q1[0] && p[1..] == q1[1..] + q2;
    var alts := q1[0].alts;
    var i, j1 :| 0 <= i < |alts| && 0 <= j1 <= |s| && Matches(alts[i].atoms, s[..j1]) && Matches(p[1..], s[j1..]);
    ConcatSplit(q1[1..], q2, s[j1..]);
    var j2 :| 0 <= j2 <= |s[j1..]| && Matches(q1[1..], s[j1..][..j2]) && Matches(q2, s[j1..][j2..]);
    Shift(s, j1, j2);
    assert Matches(q1, s[..j1 + j2]);
  }

  lemma ConcatLang(q1: seq<Atom>, q2: seq<Atom>, s: string)
    ensures Matches(q1 + q2, s) <==> exists a, b :: s == a + b && Matches(q1, a) && Matches(q2, b)
  {
    if Matches(q1 + q2, s) {
      ConcatSplit(q1, q2, s);
      var j :| 0 <= j <= |s| && Matches(q1, s[..j]) && Matches(q2, s[j..]);
      assert s == s[..j] + s[j..];
    }
    if exists a, b :: s == a + b && Matches(q1, a) && Matches(q2, b) {
      var a, b :| s == a + b && Matches(q1, a) && Matches(q2, b);
      ConcatJoin(q1, q2, a, b);
    }
  }

  // ---------------------------------------------------------------------------
  // Rules of the form `<dir>**/*<suffix>` and `<dir>**/*<suffix>{a,b,...}`
  // ---------------------------------------------------------------------------

  lemma LiftAppend(a: string, b: string)
    ensures Lift(a + b) == Lift(a) + Lift(b)
  {
  }

  /** Before `*` `*` `/` `*`, with no `*` in front, the lone star is the last of the four. */
  lemma LoneStarStep(a: seq<Piece>, b: seq<Piece>)
    requires forall i :: 0 <= i < |a| ==> a[i] != Ch('*')
    requires b == [] || (b[0] != Ch('*') && b[0] != Ch('/'))
    ensures ReplaceLoneStar(a + [Ch('*'), Ch('*'), Ch('/'), Ch('*')] + b) == a + Globstar + ([LazyRun] + b)
  {
    var n := |a|;
    var g := [Ch('*'), Ch('*'), Ch('/'), Ch('*')];
    var p := a + g + b;
    forall j | 0 <= j < n ensures !LoneStarAt(p, j) {
      assert p[j] == a[j];
    }
    assert p[n] == Ch('*') && p[n + 1] == Ch('*') && p[n + 2] == Ch('/') && p[n + 3] == Ch('*');
    assert b != [] ==> p[n + 4] == b[0];
    assert LoneStarAt(p, n + 3);
    assert p[..n + 3] == a + Globstar;
    assert p[n + 4..] == b;
  }

  /** With no `*` in front, the first `**` `/` is the one after `a`. */
  lemma GlobstarStep(a: seq<Piece>, b: seq<Piece>)
    requires forall i :: 0 <= i < |a| ==> a[i] != Ch('*')
    ensures ReplaceGlobstar(a + Globstar + ([LazyRun] + b)) == a + [SegStar, LazyRun] + b
  {
    var n := |a|;
    var p := a + Globstar + ([LazyRun] + b);
    NoGlobstarBefore(a, Globstar + ([LazyRun] + b));
    assert p == a + (Globstar + ([LazyRun] + b));
    assert p[n..n + 3] == Globstar;
    assert OccursAt(p, Globstar, n);
    var r := IndexOf(p, Globstar, 0);
    assert r == n;
    assert p[..n] == a;
    DropAppend(a + Globstar, [LazyRun] + b, n + 3);
    assert (a + Globstar)[n + 3..] == [];
  }

  /** No `**` `/` starts inside a star-free prefix. */
  lemma NoGlobstarBefore(a: seq<Piece>, rest: seq<Piece>)
    requires forall i :: 0 <= i < |a| ==> a[i] != Ch('*')
    ensures forall j :: 0 <= j < |a| ==> !OccursAt(a + rest, Globstar, j)
  {
    var p := a + rest;
    forall j | 0 <= j < |a| && OccursAt(p, Globstar, j) ensures false {
      GlobstarHead(p, j);
    }
  }

  // In `pre + "**/*" + t`, with no `*` in `pre` or `t` and `t` not starting
  // with `/`, the lone star is the one before `t` and the globstar the one after
  // `pre`: each of the two single rewrites hits the intended spot.
  lemma GlobChain(pre: string, t: string)
    requires forall i :: 0 <= i < |pre| ==> pre[i] != '*'
    requires forall i :: 0 <= i < |t| ==> t[i] != '*'
    requires t == [] || t[0] != '/'
    ensures ReplaceGlobstar(ReplaceLoneStar(Lift(pre + "**/*" + t))) == Lift(pre) + [SegStar, LazyRun] + Lift(t)
  {
    LiftGlob(pre, t);
    LoneStarStep(Lift(pre), Lift(t));
    GlobstarStep(Lift(pre), Lift(t));
  }

  lemma LiftGlob(pre: string, t: string)
    requires forall i :: 0 <= i < |pre| ==> pre[i] != '*'
    requires t == [] || (t[0] != '/' && t[0] != '*')
    ensures Lift(pre + "**/*" + t) == Lift(pre) + [Ch('*'), Ch('*'), Ch('/'), Ch('*')] + Lift(t)
    ensures forall i :: 0 <= i < |pre| ==> Lift(pre)[i] != Ch('*')
    ensures Lift(t) == [] || (Lift(t)[0] != Ch('*') && Lift(t)[0] != Ch('/'))
  {
    var g: string := "**/*";
    assert Lift(g) == [Ch('*'), Ch('*'), Ch('/'), Ch('*')] by {
      assert |Lift(g)| == 4 && Lift(g)[0] == Ch(g[0]) && Lift(g)[1] == Ch(g[1]) && Lift(g)[2] == Ch(g[2]) && Lift(g)[3] == Ch(g[3]);
    }
    LiftAppend(pre + g, t);
    LiftAppend(pre, g);
  }

  // The pattern of `pre + "**/*" + w`: `pre`, any directories, a slash-free name, `w`.
  function GlobPattern(pre: string, w: string): seq<Atom>
  {
    Lits(pre) + ([Segments] + ([NonSlashRun] + Lits(w)))
  }

  lemma GlobRuleCompiles(pre: string, w: string)
    requires Plain(pre) && Plain(w) && !IsNegated(pre)
    requires w == [] || w[0] != '/'
    ensures FileMatch(pre + "**/*" + w) == Some(Matcher(false, GlobPattern(pre, w)))
  {
    GlobRewrite(pre, w);
    GlobToRegex(pre, w);
  }

  lemma GlobRewrite(pre: string, w: string)
    requires Plain(pre) && Plain(w) && !IsNegated(pre)
    requires w == [] || w[0] != '/'
    ensures !IsNegated(pre + "**/*" + w)
    ensures Rewrite(pre + "**/*" + w) == Lift(pre) + [SegStar, LazyRun] + Lift(w)
  {
    var rule := pre + "**/*" + w;
    assert rule[0] == if pre == [] then '*' else pre[0];
    GlobChain(pre, w);
    GlobPrefixNoBrace(pre, w);
    ExpandBracesNoBrace(Lift(pre) + [SegStar, LazyRun] + Lift(w));
  }

  lemma GlobToRegex(pre: string, w: string)
    requires Plain(pre) && Plain(w)
    requires w == [] || w[0] != '/'
    ensures ToRegex(Lift(pre) + [SegStar, LazyRun] + Lift(w)) == Some(GlobPattern(pre, w))
  {
    SegLazyPrefix(w, []);
    assert Lift(w) + [] == Lift(w) && Lits(w) + [] == Lits(w);
    var tail := [SegStar, LazyRun] + Lift(w);
    ToRegexPlainPrefix(pre, tail);
    assert Lift(pre) + [SegStar, LazyRun] + Lift(w) == Lift(pre) + tail;
  }

  /** A wildcard piece that no `*` follows becomes its atom in front of the rest. */
  lemma RunStep(x: Piece, q: seq<Piece>)
    requires x == LazyRun || x == SegStar
    requires q == [] || q[0] != Ch('*')
    ensures ToRegex([x] + q) == Prepend(if x == LazyRun then NonSlashRun else Segments, ToRegex(q))
  {
    var p := [x] + q;
    assert p[1..] == q;
    assert |p| > 1 ==> p[1] == q[0];
  }

  lemma PlainHead(w: string, q: seq<Piece>)
    requires Plain(w)
    requires q == [] || q[0] != Ch('*')
    ensures Lift(w) + q == [] || (Lift(w) + q)[0] != Ch('*')
  {
    if w != [] { assert (Lift(w) + q)[0] == Ch(w[0]) && !IsMeta(w[0]); }
  }

  /** `**` `/` `*` then plain text in front of `q`. */
  lemma SegLazyPrefix(w: string, q: seq<Piece>)
    requires Plain(w)
    requires q == [] || q[0] != Ch('*')
    requires ToRegex(q).Some?
    ensures ToRegex([SegStar, LazyRun] + (Lift(w) + q)) == Some([Segments] + ([NonSlashRun] + (Lits(w) + ToRegex(q).value)))
  {
    var t := Lits(w) + ToRegex(q).value;
    ToRegexPlainPrefix(w, q);
    assert ToRegex(Lift(w) + q) == Some(t);
    PlainHead(w, q);
    RunStep(LazyRun, Lift(w) + q);
    assert ToRegex([LazyRun] + (Lift(w) + q)) == Some([NonSlashRun] + t);
    RunStep(SegStar, [LazyRun] + (Lift(w) + q));
    assert ToRegex([SegStar] + ([LazyRun] + (Lift(w) + q))) == Some([Segments] + ([NonSlashRun] + t));
    assert [SegStar, LazyRun] + (Lift(w) + q) == [SegStar] + ([LazyRun] + (Lift(w) + q));
  }

  /** `([^/]+/)*[^/]*?` in front of `t`: any directories, then a slash-free name, then a match of `t`. */
  ghost predicate TailMatch(t: seq<Atom>, s: string)
  {
    exists d, name, r :: s == d + name + r && DirChain(d) && NoSlash(name) && Matches(t, r)
  }

  lemma TailLang(t: seq<Atom>, s: string)
    ensures Matches([Segments] + ([NonSlashRun] + t), s) <==> TailMatch(t, s)
  {
    if Matches([Segments] + ([NonSlashRun] + t), s) { TailSplit(t, s); }
    if TailMatch(t, s) { TailJoin(t, s); }
  }

  /** Splitting at `j` and then the rest at `k` cuts `s` into three parts. */
  lemma SplitTwice<T>(s: seq<T>, j: nat, k: nat)
    requires j <= |s| && k <= |s| - j
    ensures s == s[..j] + s[j..][..k] + s[j..][k..]
  {
    assert s[j..] == s[j..][..k] + s[j..][k..];
  }

  lemma TailSplit(t: seq<Atom>, s: string)
    requires Matches([Segments] + ([NonSlashRun] + t), s)
    ensures TailMatch(t, s)
  {
    var y := [NonSlashRun] + t;
    ConcatSplit([Segments], y, s);
    var j :| 0 <= j <= |s| && Matches([Segments], s[..j]) && Matches(y, s[j..]);
    var u := s[j..];
    SegmentsLang(s[..j]);
    ConcatSplit([NonSlashRun], t, u);
    var k :| 0 <= k <= |u| && Matches([NonSlashRun], u[..k]) && Matches(t, u[k..]);
    RunLang(u[..k]);
    TailMatchOf(t, s, j, k);
  }

  lemma TailMatchOf(t: seq<Atom>, s: string, j: nat, k: nat)
    requires j <= |s| && k <= |s| - j
    requires DirChain(s[..j]) && NoSlash(s[j..][..k]) && Matches(t, s[j..][k..])
    ensures TailMatch(t, s)
  {
    SplitTwice(s, j, k);
  }

  lemma TailJoin(t: seq<Atom>, s: string)
    requires TailMatch(t, s)
    ensures Matches([Segments] + ([NonSlashRun] + t), s)
  {
    var d, name, r :| s == d + name + r && DirChain(d) && NoSlash(name) && Matches(t, r);
    SegmentsLang(d);
    RunLang(name);
    ConcatJoin([NonSlashRun], t, name, r);
    ConcatJoin([Segments], [NonSlashRun] + t, d, name + r);
    assert d + (name + r) == s;
  }

  /** Literal `pre` in front of a tail pattern. */
  lemma PrefixTail(pre: string, t: seq<Atom>, path: string)
    ensures Matches(Lits(pre) + ([Segments] + ([NonSlashRun] + t)), path) <==>
      StartsWith(path, pre) && TailMatch(t, path[|pre|..])
  {
    MatchesLitsPrefix(pre, [Segments] + ([NonSlashRun] + t), path);
    if StartsWith(path, pre) { TailLang(t, path[|pre|..]); }
  }

  // The paths of `pre + "**/*" + w`: `pre`, directories, a slash-free name, `w`.
  ghost predicate GlobPath(pre: string, w: string, path: string)
  {
    exists d, name :: path == pre + d + name + w && DirChain(d) && NoSlash(name)
  }

  lemma GlobLang(pre: string, w: string, path: string)
    ensures Matches(GlobPattern(pre, w), path) <==> GlobPath(pre, w, path)
  {
    PrefixTail(pre, Lits(w), path);
    if StartsWith(path, pre) { TailLits(w, path[|pre|..]); }
    GlobPathSplit(pre, w, path);
  }

  lemma GlobPathSplit(pre: string, w: string, path: string)
    ensures GlobPath(pre, w, path) <==>
      StartsWith(path, pre) && exists d, name :: path[|pre|..] == d + name + w && DirChain(d) && NoSlash(name)
  {
    if GlobPath(pre, w, path) {
      var d, name :| path == pre + d + name + w && DirChain(d) && NoSlash(name);
      assert path == pre + (d + name + w);
      assert path[|pre|..] == d + name + w;
    }
  }

  /** A tail ending in literal text: directories, a slash-free name, then that text. */
  lemma TailLits(w: string, s: string)
    ensures TailMatch(Lits(w), s) <==> exists d, name :: s == d + name + w && DirChain(d) && NoSlash(name)
  {
    if TailMatch(Lits(w), s) {
      var d, name, r :| s == d + name + r && DirChain(d) && NoSlash(name) && Matches(Lits(w), r);
      LitsExact(w, r);
    }
    if exists d, name :: s == d + name + w && DirChain(d) && NoSlash(name) {
      var d, name :| s == d + name + w && DirChain(d) && NoSlash(name);
      LitsExact(w, w);
    }
  }

  /** Every such path starts with `pre` and ends with `w`. */
  lemma GlobPathEnds(pre: string, w: string, path: string)
    requires GlobPath(pre, w, path)
    ensures StartsWith(path, pre) && EndsWith(path, w)
  {
    var d, name :| path == pre + d + name + w && DirChain(d) && NoSlash(name);
    assert path[..|pre|] == pre;
    assert path[|path| - |w|..] == w;
  }

  /** Which paths the rule accepts. */
  lemma GlobRuleAccepts(pre: string, w: string, path: string)
    requires Plain(pre) && Plain(w) && !IsNegated(pre)
    requires w == [] || w[0] != '/'
    ensures Accepts(pre + "**/*" + w, path) <==> GlobPath(pre, w, path)
  {
    GlobRuleCompiles(pre, w);
    GlobLang(pre, w, path);
  }

  // ---------------------------------------------------------------------------
  // The cases of tests/match.test.ts
  // ---------------------------------------------------------------------------

  lemma PlainTs()
    ensures Plain(".ts") && "**/*.ts" == "" + "**/*" + ".ts"
  {
  }

  // `**/*.ts` accepts a file at the top level and one inside a folder.
  lemma GlobTsAccepts()
    ensures Accepts("**/*.ts", "test.ts")
    ensures Accepts("**/*.ts", "test/index.test.ts")
  {
    PlainTs();
    GlobRuleAccepts("", ".ts", "test.ts");
    GlobRuleAccepts("", ".ts", "test/index.test.ts");
    GlobTsPaths();
  }

  lemma GlobTsPaths()
    ensures GlobPath("", ".ts", "test.ts")
    ensures GlobPath("", ".ts", "test/index.test.ts")
  {
    assert "test.ts" == "" + "" + "test" + ".ts" && DirChain("") && NoSlash("test");
    assert FirstSlash("test/", 0) == 4 && "test/"[5..] == "";
    assert "test/index.test.ts" == "" + "test/" + "index.test" + ".ts" && DirChain("test/") && NoSlash("index.test");
  }

  // `**/*.ts` rejects a path with another extension.
  lemma GlobTsRejects()
    ensures !Accepts("**/*.ts", "src/img.png")
  {
    PlainTs();
    GlobRuleAccepts("", ".ts", "src/img.png");
    if GlobPath("", ".ts", "src/img.png") {
      GlobPathEnds("", ".ts", "src/img.png");
    }
  }

  lemma PlainSrc()
    ensures Plain("src/") && Plain("") && !IsNegated("src/")
    ensures "!src/**/*" == "!" + ("src/" + "**/*" + "") && !IsNegated("src/" + "**/*" + "")
  {
  }

  // `!src/**/*` accepts exactly the paths that are not under `src/`.
  lemma NegatedGlobAccepts(path: string)
    ensures Accepts("!src/**/*", path) <==> !GlobPath("src/", "", path)
  {
    PlainSrc();
    GlobRuleCompiles("src/", "");
    NegationInverts("src/" + "**/*" + "", path);
    GlobRuleAccepts("src/", "", path);
  }

  lemma NegatedOutside(path: string)
    requires |path| >= 4 && path[..4] != "src/"
    ensures Accepts("!src/**/*", path)
  {
    NegatedGlobAccepts(path);
    OutsideSrc(path);
  }

  lemma NegatedInside(path: string)
    requires |path| >= 4 && path[..4] == "src/" && NoSlash(path[4..])
    ensures !Accepts("!src/**/*", path)
  {
    NegatedGlobAccepts(path);
    InsideSrc(path);
  }

  lemma NegatedGlobKeeps()
    ensures Accepts("!src/**/*", "dist/index.js")
    ensures Accepts("!src/**/*", "dist/src/index.js")
    ensures Accepts("!src/**/*", ".gitignore")
  {
    assert "dist/index.js"[..4][0] == 'd' && "dist/src/index.js"[..4][0] == 'd' && ".gitignore"[..4][0] == '.';
    NegatedOutside("dist/index.js");
    NegatedOutside("dist/src/index.js");
    NegatedOutside(".gitignore");
  }

  lemma NegatedGlobDrops()
    ensures !Accepts("!src/**/*", "src/index.ts")
    ensures !Accepts("!src/**/*", "src/img.png")
  {
    assert NoSlash("src/index.ts"[4..]) && NoSlash("src/img.png"[4..]);
    NegatedInside("src/index.ts");
    NegatedInside("src/img.png");
  }

  lemma OutsideSrc(path: string)
    requires |path| >= 4 && path[..4] != "src/"
    ensures !GlobPath("src/", "", path)
  {
    if GlobPath("src/", "", path) { GlobPathEnds("src/", "", path); }
  }

  lemma InsideSrc(path: string)
    requires |path| >= 4 && path[..4] == "src/" && NoSlash(path[4..])
    ensures GlobPath("src/", "", path)
  {
    assert path == "src/" + "" + path[4..] + "" && DirChain("");
  }

  // ---------------------------------------------------------------------------
  // A brace group at the end: `<dir>**/*<suffix>{a,b,...}`
  // ---------------------------------------------------------------------------

  /** A final `{...}` group, with no `{` before it, becomes one alternation. */
  lemma ExpandOneGroup(a: seq<Piece>, c: seq<Piece>)
    requires forall m :: 0 <= m < |a| ==> a[m] != Ch('{')
    requires |c| >= 1 && forall m :: 0 <= m < |c| ==> c[m] != Ch('}')
    ensures ExpandBraces(a + [Ch('{')] + c + [Ch('}')]) == a + [Alt(BraceItems(c))]
  {
    var p := a + [Ch('{')] + c + [Ch('}')];
    var i := |a|;
    var j := i + 1 + |c|;
    ExpandBracesCopies(p, 0, i);
    assert p[0..i] == a;
    assert p[i] == Ch('{') && p[j] == Ch('}');
    assert forall m :: i + 1 <= m < j ==> p[m] == c[m - i - 1];
    assert CloseBrace(p, i + 1) == j;
    assert p[i + 1..j] == c;
    assert ExpandBracesFrom(p, i) == [Alt(BraceItems(c))] + ExpandBracesFrom(p, j + 1);
    assert j + 1 == |p|;
  }

  /** A brace alternative: a non-empty plain text with no `,` and no whitespace at either end. */
  predicate Ext(e: string)
  {
    e != [] && Plain(e) && (forall k :: 0 <= k < |e| ==> e[k] != ',') &&
    !IsWhitespace(e[0]) && !IsWhitespace(e[|e| - 1])
  }

  function LiftAll(ws: seq<string>): (r: seq<seq<Piece>>)
    ensures |r| == |ws| && forall k :: 0 <= k < |ws| ==> r[k] == Lift(ws[k])
  {
    seq(|ws|, k requires 0 <= k < |ws| => Lift(ws[k]))
  }

  function ItemsOf(exts: seq<string>): (r: seq<Item>)
    ensures |r| == |exts| && forall k :: 0 <= k < |exts| ==> r[k] == Item(Lift(exts[k]))
  {
    seq(|exts|, k requires 0 <= k < |exts| => Item(Lift(exts[k])))
  }

  function BranchesOf(exts: seq<string>): (r: seq<Branch>)
    ensures |r| == |exts| && forall k :: 0 <= k < |exts| ==> r[k] == Branch(Lits(exts[k]))
  {
    seq(|exts|, k requires 0 <= k < |exts| => Branch(Lits(exts[k])))
  }

  lemma {:induction false} LiftJoin(ws: seq<string>, sep: char)
    ensures Lift(JoinWith(ws, sep)) == JoinWith(LiftAll(ws), Ch(sep))
    decreases |ws|
  {
    if |ws| > 1 {
      LiftJoin(ws[1..], sep);
      assert LiftAll(ws)[1..] == LiftAll(ws[1..]);
      LiftAppend(ws[0] + [sep], JoinWith(ws[1..], sep));
      LiftAppend(ws[0], [sep]);
    }
  }

  /** A trimmed text with no blank at either end is left as it is. */
  lemma TrimKeeps(q: seq<Piece>)
    requires q != [] && !(q[0].Ch? && IsWhitespace(q[0].c)) && !(q[|q| - 1].Ch? && IsWhitespace(q[|q| - 1].c))
    ensures TrimPieces(q) == q
  {
    assert SkipBlank(q, 0) == 0;
    assert SkipBlankBack(q, 0, |q|) == |q|;
    assert q[0..|q|] == q;
  }

  lemma TrimExt(e: string)
    requires Ext(e)
    ensures TrimPieces(Lift(e)) == Lift(e)
  {
    TrimKeeps(Lift(e));
  }

  lemma SplitLifted(exts: seq<string>)
    requires |exts| >= 1 && forall k :: 0 <= k < |exts| ==> Ext(exts[k])
    ensures Split(Lift(JoinWith(exts, ',')), IsComma) == LiftAll(exts)
  {
    LiftJoin(exts, ',');
    var ws := LiftAll(exts);
    forall k, x | 0 <= k < |ws| && x in ws[k] ensures !IsComma(x) {
      var m :| 0 <= m < |ws[k]| && ws[k][m] == x;
      assert x == Ch(exts[k][m]);
    }
    SplitJoined(ws, Ch(','), IsComma);
  }

  /** `a,b,...` splits into the trimmed alternatives `a`, `b`, ... */
  lemma BraceItemsOf(exts: seq<string>)
    requires |exts| >= 1 && forall k :: 0 <= k < |exts| ==> Ext(exts[k])
    ensures BraceItems(Lift(JoinWith(exts, ','))) == ItemsOf(exts)
  {
    SplitLifted(exts);
    var parts := LiftAll(exts);
    forall k | 0 <= k < |exts| ensures Item(TrimPieces(parts[k])) == ItemsOf(exts)[k] {
      TrimExt(exts[k]);
    }
  }

  lemma {:induction false} ToBranchesOf(exts: seq<string>)
    requires forall k :: 0 <= k < |exts| ==> Plain(exts[k])
    ensures ToBranches(ItemsOf(exts)) == Some(BranchesOf(exts))
    decreases |exts|
  {
    if exts != [] {
      ToRegexPlainPrefix(exts[0], []);
      assert Lift(exts[0]) + [] == Lift(exts[0]) && Lits(exts[0]) + [] == Lits(exts[0]);
      assert ItemsOf(exts)[1..] == ItemsOf(exts[1..]);
      ToBranchesOf(exts[1..]);
      assert BranchesOf(exts) == [Branch(Lits(exts[0]))] + BranchesOf(exts[1..]);
    }
  }

  /** The alternatives joined with `,` form a plain, non-empty text. */
  lemma JoinPlain(exts: seq<string>)
    requires |exts| >= 1 && forall k :: 0 <= k < |exts| ==> Ext(exts[k])
    ensures Plain(JoinWith(exts, ',')) && |JoinWith(exts, ',')| >= 1
  {
    var j := JoinWith(exts, ',');
    forall i | 0 <= i < |j| ensures !IsMeta(j[i]) {
      InJoin(exts, ',', j[i]);
      if j[i] != ',' {
        var k :| 0 <= k < |exts| && j[i] in exts[k];
        var m :| 0 <= m < |exts[k]| && exts[k][m] == j[i];
        assert Plain(exts[k]);
      }
    }
    if |exts| > 1 { assert j == exts[0] + [','] + JoinWith(exts[1..], ','); }
  }

  // The rule `pre + "**/*" + w + "{" + alternatives + "}"`.
  function BraceRule(pre: string, w: string, exts: seq<string>): string
  {
    pre + "**/*" + (w + "{" + JoinWith(exts, ',') + "}")
  }

  // Its pattern: `pre`, directories, a slash-free name, `w`, then one alternative.
  function BracePattern(pre: string, w: string, exts: seq<string>): seq<Atom>
  {
    Lits(pre) + ([Segments] + ([NonSlashRun] + (Lits(w) + [Choice(BranchesOf(exts))])))
  }

  lemma BraceRewrite(pre: string, w: string, exts: seq<string>)
    requires Plain(pre) && Plain(w) && !IsNegated(pre) && (w == [] || w[0] != '/')
    requires |exts| >= 1 && forall k :: 0 <= k < |exts| ==> Ext(exts[k])
    ensures !IsNegated(BraceRule(pre, w, exts))
    ensures Rewrite(BraceRule(pre, w, exts)) == Lift(pre) + [SegStar, LazyRun] + Lift(w) + [Alt(ItemsOf(exts))]
  {
    var rule := BraceRule(pre, w, exts);
    assert !IsNegated(rule) by { if pre == [] { assert rule[0] == '*'; } else { assert rule[0] == pre[0]; } }
    JoinPlain(exts);
    BraceChain(pre, w, JoinWith(exts, ','));
    BraceItemsOf(exts);
  }

  lemma BraceChain(pre: string, w: string, jn: string)
    requires Plain(pre) && Plain(w) && (w == [] || w[0] != '/')
    requires Plain(jn) && |jn| >= 1
    ensures ExpandBraces(ReplaceGlobstar(ReplaceLoneStar(Lift(pre + "**/*" + (w + "{" + jn + "}"))))) ==
      Lift(pre) + [SegStar, LazyRun] + Lift(w) + [Alt(BraceItems(Lift(jn)))]
  {
    var t := w + "{" + jn + "}";
    BraceTail(w, jn);
    GlobChain(pre, t);
    var a := Lift(pre) + [SegStar, LazyRun] + Lift(w);
    GlobPrefixNoBrace(pre, w);
    ExpandOneGroup(a, Lift(jn));
    Regroup4(Lift(pre), [SegStar, LazyRun], Lift(w), [Ch('{')], Lift(jn), [Ch('}')]);
  }

  lemma Regroup4<T>(x: seq<T>, y: seq<T>, z: seq<T>, o: seq<T>, m: seq<T>, c: seq<T>)
    ensures x + y + (z + o + m + c) == (x + y + z) + o + m + c
  {
  }

  lemma GlobPrefixNoBrace(pre: string, w: string)
    requires Plain(pre) && Plain(w)
    ensures var a := Lift(pre) + [SegStar, LazyRun] + Lift(w);
      forall m :: 0 <= m < |a| ==> a[m] != Ch('{')
  {
    var a := Lift(pre) + [SegStar, LazyRun] + Lift(w);
    forall m | 0 <= m < |a| ensures a[m] != Ch('{') {
      if m < |pre| { assert a[m] == Ch(pre[m]); }
      else if m >= |pre| + 2 { assert a[m] == Ch(w[m - |pre| - 2]); }
    }
  }

  lemma BraceTail(w: string, jn: string)
    requires Plain(w) && Plain(jn) && |jn| >= 1 && (w == [] || w[0] != '/')
    ensures var t := w + "{" + jn + "}";
      (forall i :: 0 <= i < |t| ==> t[i] != '*') && (t[0] != '/') &&
      Lift(t) == Lift(w) + [Ch('{')] + Lift(jn) + [Ch('}')]
    ensures forall m :: 0 <= m < |Lift(jn)| ==> Lift(jn)[m] != Ch('}')
    ensures forall m :: 0 <= m < |Lift(w)| ==> Lift(w)[m] != Ch('{')
  {
    var t := w + "{" + jn + "}";
    forall i | 0 <= i < |t| ensures t[i] != '*' {
      if i < |w| { assert t[i] == w[i]; }
      else if i > |w| && i < |w| + 1 + |jn| { assert t[i] == jn[i - |w| - 1]; }
    }
    LiftAppend(w + "{" + jn, "}");
    LiftAppend(w + "{", jn);
    LiftAppend(w, "{");
  }

  lemma BraceToRegex(pre: string, w: string, exts: seq<string>)
    requires Plain(pre) && Plain(w)
    requires forall k :: 0 <= k < |exts| ==> Plain(exts[k])
    ensures ToRegex(Lift(pre) + [SegStar, LazyRun] + Lift(w) + [Alt(ItemsOf(exts))]) == Some(BracePattern(pre, w, exts))
  {
    var alt := [Alt(ItemsOf(exts))];
    AltToRegex(exts);
    SegLazyPrefix(w, alt);
    var r2 := [SegStar, LazyRun] + (Lift(w) + alt);
    assert ToRegex(r2) == Some([Segments] + ([NonSlashRun] + (Lits(w) + [Choice(BranchesOf(exts))])));
    ToRegexPlainPrefix(pre, r2);
    assert Lift(pre) + [SegStar, LazyRun] + Lift(w) + alt == Lift(pre) + r2;
  }

  lemma AltToRegex(exts: seq<string>)
    requires forall k :: 0 <= k < |exts| ==> Plain(exts[k])
    ensures ToRegex([Alt(ItemsOf(exts))]) == Some([Choice(BranchesOf(exts))])
  {
    var alt := [Alt(ItemsOf(exts))];
    ToBranchesOf(exts);
    assert alt[1..] == [] && [Choice(BranchesOf(exts))] + [] == [Choice(BranchesOf(exts))];
  }

  lemma BraceRuleCompiles(pre: string, w: string, exts: seq<string>)
    requires Plain(pre) && Plain(w) && !IsNegated(pre) && (w == [] || w[0] != '/')
    requires |exts| >= 1 && forall k :: 0 <= k < |exts| ==> Ext(exts[k])
    ensures FileMatch(BraceRule(pre, w, exts)) == Some(Matcher(false, BracePattern(pre, w, exts)))
  {
    BraceRewrite(pre, w, exts);
    BraceToRegex(pre, w, exts);
  }

  /** `w` followed by one of the alternatives matches exactly `w + e` for an alternative `e`. */
  lemma SuffixChoice(w: string, exts: seq<string>, r: string)
    ensures Matches(Lits(w) + [Choice(BranchesOf(exts))], r) <==>
      exists k :: 0 <= k < |exts| && r == w + exts[k]
  {
    var bs := BranchesOf(exts);
    MatchesLitsPrefix(w, [Choice(bs)], r);
    if StartsWith(r, w) {
      var e := r[|w|..];
      ChoiceLang(bs, e);
      forall k | 0 <= k < |exts| ensures Matches(bs[k].atoms, e) <==> e == exts[k] {
        LitsExact(exts[k], e);
      }
      assert r == w + e;
    }
    if exists k :: 0 <= k < |exts| && r == w + exts[k] {
      var k :| 0 <= k < |exts| && r == w + exts[k];
      assert r[..|w|] == w && r[|w|..] == exts[k];
    }
  }

  // The paths of the brace rule: `pre`, directories, a slash-free name, `w`, one alternative.
  ghost predicate BracePath(pre: string, w: string, exts: seq<string>, path: string)
  {
    exists d, name, k :: 0 <= k < |exts| && path == pre + d + name + w + exts[k] && DirChain(d) && NoSlash(name)
  }

  ghost predicate ChoiceTail(w: string, exts: seq<string>, s: string)
  {
    exists d, name, k :: 0 <= k < |exts| && s == d + name + w + exts[k] && DirChain(d) && NoSlash(name)
  }

  lemma TailChoice(w: string, exts: seq<string>, s: string)
    ensures TailMatch(Lits(w) + [Choice(BranchesOf(exts))], s) <==> ChoiceTail(w, exts, s)
  {
    if TailMatch(Lits(w) + [Choice(BranchesOf(exts))], s) { TailChoiceSplit(w, exts, s); }
    if ChoiceTail(w, exts, s) { TailChoiceJoin(w, exts, s); }
  }

  lemma TailChoiceSplit(w: string, exts: seq<string>, s: string)
    requires TailMatch(Lits(w) + [Choice(BranchesOf(exts))], s)
    ensures ChoiceTail(w, exts, s)
  {
    var t := Lits(w) + [Choice(BranchesOf(exts))];
    var d, name, r :| s == d + name + r && DirChain(d) && NoSlash(name) && Matches(t, r);
    SuffixChoice(w, exts, r);
    var k :| 0 <= k < |exts| && r == w + exts[k];
    assert s == d + name + w + exts[k];
  }

  lemma TailChoiceJoin(w: string, exts: seq<string>, s: string)
    requires ChoiceTail(w, exts, s)
    ensures TailMatch(Lits(w) + [Choice(BranchesOf(exts))], s)
  {
    var d, name, k :| 0 <= k < |exts| && s == d + name + w + exts[k] && DirChain(d) && NoSlash(name);
    SuffixChoiceOne(w, exts, k);
    Assoc(d + name, w, exts[k]);
  }

  lemma SuffixChoiceOne(w: string, exts: seq<string>, k: nat)
    requires k < |exts|
    ensures Matches(Lits(w) + [Choice(BranchesOf(exts))], w + exts[k])
  {
    SuffixChoice(w, exts, w + exts[k]);
  }

  lemma Assoc<T>(x: seq<T>, y: seq<T>, z: seq<T>)
    ensures x + y + z == x + (y + z)
  {
  }

  lemma BracePathSplit(pre: string, w: string, exts: seq<string>, path: string)
    ensures BracePath(pre, w, exts, path) <==> StartsWith(path, pre) && ChoiceTail(w, exts, path[|pre|..])
  {
    if BracePath(pre, w, exts, path) {
      var d, name, k :| 0 <= k < |exts| && path == pre + d + name + w + exts[k] && DirChain(d) && NoSlash(name);
      assert path == pre + (d + name + w + exts[k]);
      assert path[|pre|..] == d + name + w + exts[k];
    }
  }

  lemma BraceLang(pre: string, w: string, exts: seq<string>, path: string)
    ensures Matches(BracePattern(pre, w, exts), path) <==> BracePath(pre, w, exts, path)
  {
    PrefixTail(pre, Lits(w) + [Choice(BranchesOf(exts))], path);
    if StartsWith(path, pre) { TailChoice(w, exts, path[|pre|..]); }
    BracePathSplit(pre, w, exts, path);
  }

  /** Which paths the brace rule accepts. */
  lemma BraceRuleAccepts(pre: string, w: string, exts: seq<string>, path: string)
    requires Plain(pre) && Plain(w) && !IsNegated(pre) && (w == [] || w[0] != '/')
    requires |exts| >= 1 && forall k :: 0 <= k < |exts| ==> Ext(exts[k])
    ensures Accepts(BraceRule(pre, w, exts), path) <==> BracePath(pre, w, exts, path)
  {
    BraceRuleCompiles(pre, w, exts);
    BraceLang(pre, w, exts, path);
  }

  /** Every path of the brace rule starts with `pre`. */
  lemma BracePathStarts(pre: string, w: string, exts: seq<string>, path: string)
    requires BracePath(pre, w, exts, path)
    ensures StartsWith(path, pre)
  {
    var d, name, k :| 0 <= k < |exts| && path == pre + d + name + w + exts[k] && DirChain(d) && NoSlash(name);
    assert path[..|pre|] == pre;
  }

  const ImageExts: seq<string> := ["png", "jgp", "gif"]

  lemma ImageRule()
    ensures BraceRule("src/", ".", ImageExts) == "src/**/*.{png,jgp,gif}"
    ensures Plain("src/") && Plain(".") && !IsNegated("src/")
    ensures forall k :: 0 <= k < |ImageExts| ==> Ext(ImageExts[k])
  {
    ImageJoin();
    ImageExtsPlain();
  }

  lemma ImageJoin()
    ensures JoinWith(ImageExts, ',') == "png,jgp,gif"
  {
    assert ImageExts[1..] == ["jgp", "gif"] && ImageExts[1..][1..] == ["gif"];
  }

  lemma ImageExtsPlain()
    ensures forall k :: 0 <= k < |ImageExts| ==> Ext(ImageExts[k])
  {
  }

  // `src/**/*.{png,jgp,gif}` accepts images under `src/` at any depth.
  lemma ImageRuleAccepts()
    ensures Accepts("src/**/*.{png,jgp,gif}", "src/img.png")
    ensures Accepts("src/**/*.{png,jgp,gif}", "src/imgs/demo.gif")
  {
    ImageRule();
    BraceRuleAccepts("src/", ".", ImageExts, "src/img.png");
    BraceRuleAccepts("src/", ".", ImageExts, "src/imgs/demo.gif");
    ImagePaths();
  }

  lemma ImagePaths()
    ensures BracePath("src/", ".", ImageExts, "src/img.png")
    ensures BracePath("src/", ".", ImageExts, "src/imgs/demo.gif")
  {
    assert "src/img.png" == "src/" + "" + "img" + "." + ImageExts[0] && DirChain("") && NoSlash("img");
    assert FirstSlash("imgs/", 0) == 4 && "imgs/"[5..] == "";
    assert "src/imgs/demo.gif" == "src/" + "imgs/" + "demo" + "." + ImageExts[2] && DirChain("imgs/") && NoSlash("demo");
  }

  // ... and rejects paths outside `src/`.
  lemma ImageRuleRejects()
    ensures !Accepts("src/**/*.{png,jgp,gif}", "test.ts")
    ensures !Accepts("src/**/*.{png,jgp,gif}", "test/index.test.ts")
  {
    ImageRule();
    BraceRuleAccepts("src/", ".", ImageExts, "test.ts");
    BraceRuleAccepts("src/", ".", ImageExts, "test/index.test.ts");
    if BracePath("src/", ".", ImageExts, "test.ts") { BracePathStarts("src/", ".", ImageExts, "test.ts"); }
    if BracePath("src/", ".", ImageExts, "test/index.test.ts") {
      BracePathStarts("src/", ".", ImageExts, "test/index.test.ts");
    }
  }

  /** `*` before plain text that does not start with `/`: a run of non-slashes, then the text. */
  lemma LeadingStarCompiles(w: string)
    requires Plain(w) && w != [] && w[0] != '/'
    ensures FileMatch("*" + w) == Some(Matcher(false, [NonSlashRun] + Lits(w)))
  {
    LeadingStarRewrite(w);
    var p := [LazyRun] + Lift(w);
    assert p[1..] == Lift(w);
    ToRegexPlainPrefix(w, []);
    assert Lift(w) + [] == Lift(w) && Lits(w) + [] == Lits(w);
  }

  /** The leading `*` of `*` + `w` becomes the lazy wildcard; nothing else changes. */
  lemma LeadingStarRewrite(w: string)
    requires Plain(w) && w != [] && w[0] != '/'
    ensures !IsNegated("*" + w)
    ensures Rewrite("*" + w) == [LazyRun] + Lift(w)
  {
    var rule := "*" + w;
    assert rule[0] == '*' && StripNegation(rule) == rule;
    LiftAppend("*", w);
    assert Lift(rule) == [Ch('*')] + Lift(w);
    assert Lift(w)[0] == Ch(w[0]);
    LeadingStarStep(Lift(w));
    var p := [LazyRun] + Lift(w);
    assert forall i :: 1 <= i < |p| ==> p[i] == Ch(w[i - 1]);
    NoGlobstarBeforeLastStar(p);
    ExpandBracesNoBrace(p);
  }

  // ---------------------------------------------------------------------------
  // Rules on which the RegExp constructor throws
  // ---------------------------------------------------------------------------

  /** Only a `*` after the first can be the first lone star of a rule that starts with `**`. */
  lemma DoubleStarHead(r: string)
    requires |r| >= 2 && r[0] == '*' && r[1] == '*' && (|r| == 2 || r[2] != '/')
    ensures var q := ReplaceLoneStar(Lift(r));
      |q| == |r| && q[0] == Ch('*') && (|q| == 2 || q[2] != Ch('/'))
  {
    var p := Lift(r);
    assert !LoneStarAt(p, 0);
    var i := FindLoneStar(p, 0);
    if i != -1 {
      var q := p[..i] + [LazyRun] + p[i + 1..];
      assert q[0] == p[0];
      assert |q| > 2 ==> q[2] == p[2] || q[2] == LazyRun;
    }
  }

  /** The globstar rewrite and the brace expansion keep a leading `*` that no `*` `/` follows. */
  lemma StarHeadKept(q: seq<Piece>)
    requires |q| >= 2 && q[0] == Ch('*') && (|q| == 2 || q[2] != Ch('/'))
    ensures var e := ExpandBraces(ReplaceGlobstar(q)); e != [] && e[0] == Ch('*')
  {
    assert |q| > 2 ==> q[0..3][2] == q[2];
    var g := ReplaceGlobstar(q);
    assert g != [] && g[0] == Ch('*');
  }

  /**
   * A rule (negated or not) that starts with `**` not followed by `/` compiles
   * to `(^*...` and throws: `**`, `**.js` and `!**` are such rules.
   */
  lemma LeadingDoubleStarThrows(r: string)
    requires |r| >= 2 && r[0] == '*' && r[1] == '*' && (|r| == 2 || r[2] != '/')
    ensures Compilation(r).SyntaxError? && Compilation("!" + r).SyntaxError?
    ensures forall path :: !Accepts(r, path) && !Accepts("!" + r, path)
  {
    assert StripNegation("!" + r) == r && StripNegation(r) == r;
    DoubleStarHead(r);
    StarHeadKept(ReplaceLoneStar(Lift(r)));
  }

  /** The catalogue rules `**` and `**.js` and the doubled globstar of `a/**/b/**/c` throw. */
  lemma SyntaxErrorExamples()
    ensures Compilation("**").SyntaxError?
    ensures Compilation("**.js").SyntaxError?
    ensures Compilation("a/**/b/**/c").SyntaxError?
  {
    LeadingDoubleStarThrows("**");
    LeadingDoubleStarThrows("**.js");
    SecondGlobstarThrows();
  }

  /**
   * Only the first `**` `/` becomes `([^/]+/)*`: in `a/**/b/**/c` the second
   * one stays plain text, a repeated `/` followed by a `*` that has nothing
   * to repeat.
   */
  lemma SecondGlobstarThrows()
    ensures ThrowsOnCompile("a/**/b/**/c")
  {
    SecondGlobstarRewrite();
    DoubledExpand();
    DoubledTailThrows(DoubledRewritten);
  }

  /** `a/**/b/**/c` after the chain: only its first `**` `/` is rewritten. */
  const DoubledRewritten: seq<Piece> := [Ch('a'), Ch('/'), SegStar, Ch('b'), Ch('/'), Ch('*'), Ch('*'), Ch('/'), Ch('c')]

  lemma DoubledExpand()
    ensures ExpandBraces(DoubledRewritten) == DoubledRewritten
  {
    var g := DoubledRewritten;
    forall m | 0 <= m < |g| ensures g[m] != Ch('{') {
    }
    ExpandBracesNoBrace(g);
  }

  lemma DoubledTailThrows(g: seq<Piece>)
    requires g == DoubledRewritten
    ensures NothingToRepeat(g)
  {
    assert g[5] == Ch('*');
    assert NothingToRepeat(g[3..]) by { assert g[3..][2..] == g[5..]; }
    assert NothingToRepeat(g[2..]) by { assert g[2..][1..] == g[3..]; }
    assert g[1..][1..] == g[2..];
  }

  const DoubledGlobstar: seq<Piece> :=
    [Ch('a'), Ch('/'), Ch('*'), Ch('*'), Ch('/'), Ch('b'), Ch('/'), Ch('*'), Ch('*'), Ch('/'), Ch('c')]

  lemma SecondGlobstarRewrite()
    ensures ReplaceGlobstar(ReplaceLoneStar(Lift(StripNegation("a/**/b/**/c")))) == DoubledRewritten
  {
    DoubledLift();
    NoLoneStarInDoubled();
    FirstGlobstarInDoubled();
  }

  lemma DoubledLift()
    ensures Lift(StripNegation("a/**/b/**/c")) == DoubledGlobstar
  {
    assert StripNegation("a/**/b/**/c") == "a/**/b/**/c";
  }

  lemma FirstGlobstarInDoubled()
    ensures ReplaceGlobstar(DoubledGlobstar) == DoubledRewritten
  {
    var p := DoubledGlobstar;
    assert p[2..5] == Globstar;
    assert !OccursAt(p, Globstar, 0) by { assert p[0..3][0] == p[0]; }
    assert !OccursAt(p, Globstar, 1) by { assert p[1..4][0] == p[1]; }
    assert p[..2] + [SegStar] + p[5..] == DoubledRewritten;
  }

  /** Every `*` of `a/**/b/**/c` is followed by a `*` or a `/`. */
  lemma NoLoneStarInDoubled()
    ensures ReplaceLoneStar(DoubledGlobstar) == DoubledGlobstar
  {
    var p := DoubledGlobstar;
    forall i | 0 <= i < |p| ensures !LoneStarAt(p, i) {
      if i in {2, 3, 7, 8} {
        assert p[i + 1] in {Ch('*'), Ch('/')};
      } else {
        assert p[i] != Ch('*');
      }
    }
  }

  // ---------------------------------------------------------------------------
  // Only the first lone `*` becomes a wildcard
  // ---------------------------------------------------------------------------

  // In `*` + `w` + `c` + `*`, the first `*` is the lone star; the last one follows a
  // plain character and stays a regex repetition of that character.
  /** A `*` in front of a character other than `*` and `/` is the first lone star. */
  lemma LeadingStarStep(b: seq<Piece>)
    requires b != [] && b[0] != Ch('*') && b[0] != Ch('/')
    ensures ReplaceLoneStar([Ch('*')] + b) == [LazyRun] + b
  {
    var p := [Ch('*')] + b;
    assert p[1] == b[0] && LoneStarAt(p, 0);
    assert p[1..] == b;
  }

  /** A sequence whose only `*` is its last piece holds no `**` `/`. */
  lemma NoGlobstarBeforeLastStar(p: seq<Piece>)
    requires forall i :: 0 <= i < |p| - 1 ==> p[i] != Ch('*')
    ensures ReplaceGlobstar(p) == p
  {
    forall i | 0 <= i <= |p| && OccursAt(p, Globstar, i) ensures false {
      GlobstarHead(p, i);
    }
  }

  /** An occurrence of `**` `/` starts with a `*` piece. */
  lemma GlobstarHead(p: seq<Piece>, i: nat)
    requires OccursAt(p, Globstar, i)
    ensures i + 1 < |p| && p[i] == Ch('*')
  {
    assert p[i..i + 3][0] == p[i];
  }

  lemma TwoStarLift(w: string, c: char)
    ensures Lift("*" + w + [c] + "*") == [Ch('*')] + (Lift(w) + [Ch(c), Ch('*')])
  {
    LiftAppend("*" + w + [c], "*");
    LiftAppend("*" + w, [c]);
    LiftAppend("*", w);
  }

  lemma TwoStarRewrite(w: string, c: char)
    requires Plain(w) && w != [] && w[0] != '/' && !IsMeta(c)
    ensures Rewrite("*" + w + [c] + "*") == [LazyRun] + (Lift(w) + [Ch(c), Ch('*')])
  {
    var rule := "*" + w + [c] + "*";
    assert rule[0] == '*';
    var b := Lift(w) + [Ch(c), Ch('*')];
    TwoStarLift(w, c);
    assert b[0] == Ch(w[0]);
    LeadingStarStep(b);
    TwoStarTail(w, c);
  }

  lemma TwoStarTail(w: string, c: char)
    requires Plain(w) && !IsMeta(c)
    ensures ExpandBraces(ReplaceGlobstar([LazyRun] + (Lift(w) + [Ch(c), Ch('*')]))) == [LazyRun] + (Lift(w) + [Ch(c), Ch('*')])
  {
    var p2 := [LazyRun] + (Lift(w) + [Ch(c), Ch('*')]);
    assert forall i :: 1 <= i < 1 + |w| ==> p2[i] == Ch(w[i - 1]);
    assert p2[1 + |w|] == Ch(c);
    NoGlobstarBeforeLastStar(p2);
    ExpandBracesNoBrace(p2);
  }

  lemma TwoStarCompiles(w: string, c: char)
    requires Plain(w) && w != [] && w[0] != '/' && !IsMeta(c)
    ensures FileMatch("*" + w + [c] + "*") == Some(Matcher(false, [NonSlashRun] + (Lits(w) + [Rep(c)])))
  {
    var rule := "*" + w + [c] + "*";
    assert !IsNegated(rule) by { assert rule[0] == '*'; }
    TwoStarRewrite(w, c);
    var q := [Ch(c), Ch('*')];
    PlainThenRep(w, c);
    PlainHead(w, q);
    RunStep(LazyRun, Lift(w) + q);
  }

  /** `w` then `c*` reads as the literals of `w` and a run of `c`. */
  lemma PlainThenRep(w: string, c: char)
    requires Plain(w) && !IsMeta(c)
    ensures ToRegex(Lift(w) + [Ch(c), Ch('*')]) == Some(Lits(w) + [Rep(c)])
  {
    var q := [Ch(c), Ch('*')];
    assert ToRegex(q) == Some([Rep(c)]) by { assert q[2..] == [] && [Rep(c)] + [] == [Rep(c)]; }
    ToRegexPlainPrefix(w, q);
  }

  // The second `*` of `*.min.*` repeats the `.` before it: the rule accepts
  // `app.min..` and rejects `app.min.js`.
  lemma SecondStarQuantifies()
    ensures Accepts("*.min.*", "app.min..")
    ensures !Accepts("*.min.*", "app.min.js")
  {
    assert "*.min.*" == "*" + ".min" + ['.'] + "*" && Plain(".min");
    TwoStarCompiles(".min", '.');
    MinPatternAccepts();
    MinPatternRejects();
  }

  /** A run of `c` cannot end on a character other than `c`. */
  lemma RepSuffix(c: char, s: string, j: nat)
    requires j <= |s| && s != [] && s[|s| - 1] != c && Matches([Rep(c)], s[j..])
    ensures j == |s|
  {
    RepLang(c, s[j..]);
  }

  lemma MinPatternRejects()
    ensures !Matches([NonSlashRun] + (Lits(".min") + [Rep('.')]), "app.min.js")
  {
    var head := [NonSlashRun] + Lits(".min");
    assert [NonSlashRun] + (Lits(".min") + [Rep('.')]) == head + [Rep('.')];
    var s := "app.min.js";
    if Matches(head + [Rep('.')], s) {
      ConcatSplit(head, [Rep('.')], s);
      var j :| 0 <= j <= |s| && Matches(head, s[..j]) && Matches([Rep('.')], s[j..]);
      RepSuffix('.', s, j);
      assert s[..j] == s;
      MatchesEndsWithLits([NonSlashRun], ".min", s);
    }
  }

  lemma MinPatternAccepts()
    ensures Matches([NonSlashRun] + (Lits(".min") + [Rep('.')]), "app.min..")
  {
    var head := [NonSlashRun] + Lits(".min");
    assert [NonSlashRun] + (Lits(".min") + [Rep('.')]) == head + [Rep('.')];
    LitsExact(".min", ".min");
    assert "app.min"[3..] == ".min" && NoSlash("app.min"[..3]);
    MatchesRun(Lits(".min"), "app.min", 3);
    RepLang('.', "..");
    ConcatJoin(head, [Rep('.')], "app.min", "..");
    assert "app.min" + ".." == "app.min..";
  }
}
