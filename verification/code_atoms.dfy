/**
  `CodeAnalysisAgent.extractCodeAtoms`: scans source text for function,
  class and variable declarations with three global regular expressions and
  turns every match into an atom.

  Each of the regular expressions is an alternation of literal keywords, each
  followed by `\s+` and, for the scanning expressions, by `\w+`. The model
  describes such an expression by the datatype `Pattern` and gives the match
  semantics of JavaScript's `String.prototype.match` (global flag) and of a
  non-global `String.prototype.replace` for it.
*/
module CodeAtoms {
  import opened Wrappers

  // ---------------------------------------------------------------------
  // Character classes
  // ---------------------------------------------------------------------

  /** `\s`: the ECMAScript WhiteSpace and LineTerminator characters. */
  predicate IsSpace(c: char): (r: bool)
    ensures r ==> !IsWordChar(c)
  {
    var n := c as int;
    n == 0x09 || n == 0x0A || n == 0x0B || n == 0x0C || n == 0x0D || n == 0x20 ||
    n == 0xA0 || n == 0x1680 || (0x2000 <= n <= 0x200A) || n == 0x2028 || n == 0x2029 ||
    n == 0x202F || n == 0x205F || n == 0x3000 || n == 0xFEFF
  }

  /** `\w`: ASCII letters, digits and the underscore. */
  predicate IsWordChar(c: char): (r: bool)
    ensures r ==> c as int < 0x80
  {
    ('a' <= c <= 'z') || ('A' <= c <= 'Z') || ('0' <= c <= '9') || c == '_'
  }

  /** Length of the run of `\s` characters starting at `i` (greedy `\s*`). */
  function SpaceRun(s: string, i: nat): (n: nat)
    requires i <= |s|
    ensures i + n <= |s|
    decreases |s| - i
  {
    if i < |s| && IsSpace(s[i]) then 1 + SpaceRun(s, i + 1) else 0
  }

  /** Length of the run of `\w` characters starting at `i` (greedy `\w*`). */
  function WordRun(s: string, i: nat): (n: nat)
    requires i <= |s|
    ensures i + n <= |s|
    decreases |s| - i
  {
    if i < |s| && IsWordChar(s[i]) then 1 + WordRun(s, i + 1) else 0
  }

  /** `SpaceRun` is the longest run: all `\s`, and no `\s` right after it;
      and it is the only run with that property. */
  lemma {:induction false} SpaceRunSpec(s: string, i: nat, n: nat)
    requires i + n <= |s|
    ensures SpaceRun(s, i) == n <==>
      (forall j :: i <= j < i + n ==> IsSpace(s[j])) && (i + n < |s| ==> !IsSpace(s[i + n]))
    decreases n
  {
    if n > 0 {
      SpaceRunSpec(s, i + 1, n - 1);
    }
  }

  /** `WordRun` is the longest run: all `\w`, and no `\w` right after it;
      and it is the only run with that property. */
  lemma {:induction false} WordRunSpec(s: string, i: nat, n: nat)
    requires i + n <= |s|
    ensures WordRun(s, i) == n <==>
      (forall j :: i <= j < i + n ==> IsWordChar(s[j])) && (i + n < |s| ==> !IsWordChar(s[i + n]))
    decreases n
  {
    if n > 0 {
      WordRunSpec(s, i + 1, n - 1);
    }
  }

  // ---------------------------------------------------------------------
  // Patterns and where they match
  // ---------------------------------------------------------------------

  /** The regular expression `kw1\s+(\w+)|kw2\s+(\w+)|...` when `withName`,
      and `kw1\s+|kw2\s+|...` otherwise. */
  datatype Pattern = Pattern(keywords: seq<string>, withName: bool)

  /** `/function\s+(\w+)/g` */
  const FunctionPattern := Pattern(["function"], true)
  /** `/class\s+(\w+)/g` */
  const ClassPattern := Pattern(["class"], true)
  /** `/const\s+(\w+)|let\s+(\w+)|var\s+(\w+)/g` */
  const VariablePattern := Pattern(["const", "let", "var"], true)
  /** `/const\s+|let\s+|var\s+/` */
  const VariablePrefix := Pattern(["const", "let", "var"], false)

  predicate StartsWithAt(s: string, i: nat, w: string) {
    i + |w| <= |s| && s[i..i + |w|] == w
  }

  /** Length of the match of one alternative `kw\s+(\w+)` (or `kw\s+`) at `i`.
      Both runs are greedy; since no `\s` character is a `\w` character, giving
      back part of the `\s+` run never lets `\w+` match, so the greedy attempt
      is the only one that can succeed. */
  function KeywordMatchLen(s: string, i: nat, kw: string, withName: bool): (r: Option<nat>)
    requires i <= |s|
    ensures r.Some? ==> |kw| < r.value && i + r.value <= |s|
  {
    if !StartsWithAt(s, i, kw) then None
    else
      var w := SpaceRun(s, i + |kw|);
      if w == 0 then None
      else if !withName then Some(|kw| + w)
      else
        var d := WordRun(s, i + |kw| + w);
        if d == 0 then None else Some(|kw| + w + d)
  }

  /** The alternatives are tried in order; the first that matches wins. */
  function AltMatchLen(s: string, i: nat, kws: seq<string>, withName: bool): (r: Option<nat>)
    requires i <= |s|
    ensures r.Some? ==> 1 <= r.value && i + r.value <= |s|
  {
    if kws == [] then None
    else match KeywordMatchLen(s, i, kws[0], withName)
      case Some(n) => Some(n)
      case None => AltMatchLen(s, i, kws[1..], withName)
  }

  /** The alternation matches as its first matching alternative does: that
      alternative's index is returned. */
  lemma {:induction false} AltMatchLenFirst(s: string, i: nat, kws: seq<string>, withName: bool) returns (k: nat)
    requires i <= |s| && AltMatchLen(s, i, kws, withName).Some?
    ensures k < |kws| && KeywordMatchLen(s, i, kws[k], withName) == AltMatchLen(s, i, kws, withName)
    ensures forall m :: 0 <= m < k ==> KeywordMatchLen(s, i, kws[m], withName).None?
  {
    if KeywordMatchLen(s, i, kws[0], withName).Some? {
      k := 0;
    } else {
      var k' := AltMatchLenFirst(s, i, kws[1..], withName);
      k := k' + 1;
      forall m | 1 <= m < k ensures KeywordMatchLen(s, i, kws[m], withName).None? {
        assert kws[m] == kws[1..][m - 1];
      }
    }
  }

  /** Length of the match of `p` that starts at `i`, if one does. */
  function MatchLen(s: string, i: nat, p: Pattern): (r: Option<nat>)
    requires i <= |s|
    ensures r.Some? ==> 1 <= r.value && i + r.value <= |s|
  {
    AltMatchLen(s, i, p.keywords, p.withName)
  }

  /** A match: where it starts and the text it covers. */
  datatype Found = Found(start: nat, text: string)

  function End(f: Found): nat {
    f.start + |f.text|
  }

  /** The matcher of `p` on `s`: the length of the match at each position. */
  function MatcherOf(s: string, p: Pattern): nat -> Option<nat> {
    (j: nat) => if j <= |s| then MatchLen(s, j, p) else None
  }

  /** A matcher on a text of length `n` reports only non-empty matches that
      end within the text. */
  ghost predicate Bounded(n: nat, m: nat -> Option<nat>) {
    forall j: nat :: j <= n && m(j).Some? ==> 1 <= m(j).value && j + m(j).value <= n
  }

  lemma MatcherBounded(s: string, p: Pattern)
    ensures Bounded(|s|, MatcherOf(s, p))
  {
  }

  /** The matches of a global regular expression from position `i` on: at each
      position, a match is taken and scanning resumes after it, or scanning
      moves on one character. The scan does not depend on the pattern, only
      on where its matches start and how long they are. */
  function ScanWith(s: string, i: nat, m: nat -> Option<nat>): (r: seq<Found>)
    requires i <= |s| && Bounded(|s|, m)
    ensures |r| <= |s| - i
    decreases |s| - i
  {
    if i == |s| then []
    else if m(i).Some? then [Found(i, s[i..i + m(i).value])] + ScanWith(s, i + m(i).value, m)
    else ScanWith(s, i + 1, m)
  }

  /** The global scan of `s` for `p`. */
  function Scan(s: string, i: nat, p: Pattern): (r: seq<Found>)
    requires i <= |s|
    ensures |r| <= |s| - i
  {
    MatcherBounded(s, p);
    ScanWith(s, i, MatcherOf(s, p))
  }

  /** Every reported match is a match at its start, covering the text it
      holds. */
  lemma {:induction false} ScanSound(s: string, i: nat, m: nat -> Option<nat>, k: nat)
    requires i <= |s| && Bounded(|s|, m) && k < |ScanWith(s, i, m)|
    ensures var f := ScanWith(s, i, m)[k];
      i <= f.start && End(f) <= |s| && m(f.start) == Some(|f.text|) && f.text == s[f.start..End(f)]
    decreases |s| - i
  {
    if m(i).Some? {
      if k > 0 {
        ScanSound(s, i + m(i).value, m, k - 1);
        assert ScanWith(s, i, m)[k] == ScanWith(s, i + m(i).value, m)[k - 1];
      }
    } else {
      ScanSound(s, i + 1, m, k);
    }
  }

  /** The reported matches do not overlap and come left to right. */
  lemma {:induction false} ScanOrdered(s: string, i: nat, m: nat -> Option<nat>, k: nat)
    requires i <= |s| && Bounded(|s|, m) && k + 1 < |ScanWith(s, i, m)|
    ensures End(ScanWith(s, i, m)[k]) <= ScanWith(s, i, m)[k + 1].start
    decreases |s| - i
  {
    if m(i).Some? {
      var rest := ScanWith(s, i + m(i).value, m);
      assert ScanWith(s, i, m) == [Found(i, s[i..i + m(i).value])] + rest;
      if k > 0 {
        ScanOrdered(s, i + m(i).value, m, k - 1);
      } else {
        ScanSound(s, i + m(i).value, m, 0);
      }
    } else {
      ScanOrdered(s, i + 1, m, k);
    }
  }

  /** The scan is leftmost: every position where a match starts is the start
      of a reported match or lies inside one. The index of that match is
      returned. */
  lemma {:induction false} ScanCovers(s: string, i: nat, m: nat -> Option<nat>, j: nat) returns (k: nat)
    requires i <= j < |s| && Bounded(|s|, m) && m(j).Some?
    ensures k < |ScanWith(s, i, m)| && ScanWith(s, i, m)[k].start <= j < End(ScanWith(s, i, m)[k])
    decreases |s| - i
  {
    if m(i).Some? {
      var rest := ScanWith(s, i + m(i).value, m);
      assert ScanWith(s, i, m) == [Found(i, s[i..i + m(i).value])] + rest;
      if j < i + m(i).value {
        k := 0;
      } else {
        var k' := ScanCovers(s, i + m(i).value, m, j);
        k := k' + 1;
        assert ScanWith(s, i, m)[k] == rest[k'];
      }
    } else {
      k := ScanCovers(s, i + 1, m, j);
    }
  }

  /** A text has no match at all exactly when the scan reports none. */
  lemma ScanEmptyIff(s: string, p: Pattern)
    ensures Scan(s, 0, p) == [] <==> forall j :: 0 <= j < |s| ==> MatchLen(s, j, p).None?
  {
    MatcherBounded(s, p);
    var m := MatcherOf(s, p);
    if Scan(s, 0, p) == [] {
      forall j | 0 <= j < |s| ensures MatchLen(s, j, p).None? {
        if MatchLen(s, j, p).Some? {
          assert m(j).Some?;
          var k := ScanCovers(s, 0, m, j);
        }
      }
    } else {
      ScanSound(s, 0, m, 0);
    }
  }

  /** The texts of a list of matches. */
  function Texts(fs: seq<Found>): (r: seq<string>)
    ensures |r| == |fs|
    ensures forall k :: 0 <= k < |fs| ==> r[k] == fs[k].text
  {
    if fs == [] then [] else [fs[0].text] + Texts(fs[1..])
  }

  /** `content.match(re) || []`: the text of every match, left to right. */
  function AllMatches(s: string, p: Pattern): (r: seq<string>)
    ensures |r| == |Scan(s, 0, p)| <= |s|
    ensures r == [] <==> forall j :: 0 <= j < |s| ==> MatchLen(s, j, p).None?
  {
    ScanEmptyIff(s, p);
    Texts(Scan(s, 0, p))
  }

  // ---------------------------------------------------------------------
  // String replacement
  // ---------------------------------------------------------------------

  /** `s.indexOf(w, i)`: the first position at or after `i` where `w` occurs. */
  function IndexOfFrom(s: string, w: string, i: nat): (r: Option<nat>)
    requires i <= |s|
    ensures r.Some? ==> i <= r.value && StartsWithAt(s, r.value, w)
    ensures forall j :: i <= j && (r.None? || j < r.value) ==> !StartsWithAt(s, j, w)
    decreases |s| - i
  {
    if StartsWithAt(s, i, w) then Some(i)
    else if i == |s| then None
    else IndexOfFrom(s, w, i + 1)
  }

  /** `s.replace(w, v)` with a string `w` and a replacement `v` without `$`
      patterns: only the first occurrence of `w` is replaced, and a text
      without `w` is returned unchanged. */
  function ReplaceFirst(s: string, w: string, v: string): (r: string)
    ensures (forall j: nat :: !StartsWithAt(s, j, w)) ==> r == s
    ensures forall i: nat :: StartsWithAt(s, i, w) && (forall j: nat :: j < i ==> !StartsWithAt(s, j, w)) ==>
      r == s[..i] + v + s[i + |w|..]
  {
    match IndexOfFrom(s, w, 0)
    case None => s
    case Some(i) => s[..i] + v + s[i + |w|..]
  }

  /** The leftmost match at or after `i`, as a non-global regular expression
      finds it. */
  function FirstMatch(s: string, i: nat, m: nat -> Option<nat>): (r: Option<Found>)
    requires i <= |s| && Bounded(|s|, m)
    ensures r.Some? ==> i <= r.value.start && End(r.value) <= |s|
    decreases |s| - i
  {
    if i == |s| then None
    else if m(i).Some? then Some(Found(i, s[i..i + m(i).value]))
    else FirstMatch(s, i + 1, m)
  }

  /** The first match a global scan reports is the one a non-global search
      finds. */
  lemma {:induction false} FirstMatchIsFirstOfScan(s: string, i: nat, m: nat -> Option<nat>)
    requires i <= |s| && Bounded(|s|, m)
    ensures FirstMatch(s, i, m).None? <==> ScanWith(s, i, m) == []
    ensures FirstMatch(s, i, m).Some? ==> FirstMatch(s, i, m).value == ScanWith(s, i, m)[0]
    decreases |s| - i
  {
    if i < |s| && m(i).None? {
      FirstMatchIsFirstOfScan(s, i + 1, m);
    }
  }

  /** `s.replace(re, '')` with a non-global `re`: the leftmost match is deleted. */
  function DeleteFirstMatch(s: string, p: Pattern): (r: string)
    ensures r == s || |r| < |s|
  {
    MatcherBounded(s, p);
    match FirstMatch(s, 0, MatcherOf(s, p))
    case None => s
    case Some(f) => s[..f.start] + s[End(f)..]
  }

  /** `match.replace('function ', '')` */
  function FunctionName(t: string): (r: string)
    ensures r == t || |r| + 9 == |t|
  {
    ReplaceFirst(t, "function ", "")
  }

  /** `match.replace('class ', '')` */
  function ClassName(t: string): (r: string)
    ensures r == t || |r| + 6 == |t|
  {
    ReplaceFirst(t, "class ", "")
  }

  /** `match.replace(/const\s+|let\s+|var\s+/, '')` */
  function VariableName(t: string): (r: string)
    ensures r == t || |r| < |t|
  {
    DeleteFirstMatch(t, VariablePrefix)
  }

  // ---------------------------------------------------------------------
  // The shape of a match and the names derived from it
  // ---------------------------------------------------------------------

  /** `t` is `kw`, then `w >= 1` `\s` characters, then at least one `\w`
      character up to its end. */
  ghost predicate Shaped(t: string, kw: string, w: nat) {
    1 <= w && |kw| + w < |t| && t[..|kw|] == kw &&
    (forall j :: |kw| <= j < |kw| + w ==> IsSpace(t[j])) &&
    (forall j :: |kw| + w <= j < |t| ==> IsWordChar(t[j]))
  }

  /** A match of one alternative `kw\s+\w+` is `kw`, a run of `w >= 1` `\s`
      characters and a run of `\w` characters up to its end. */
  lemma KeywordShape(s: string, i: nat, kw: string, n: nat) returns (w: nat)
    requires i <= |s| && KeywordMatchLen(s, i, kw, true) == Some(n)
    ensures StartsWithAt(s, i, kw) && 1 <= w && |kw| + w < n && i + n <= |s|
    ensures forall j :: i + |kw| <= j < i + |kw| + w ==> IsSpace(s[j])
    ensures forall j :: i + |kw| + w <= j < i + n ==> IsWordChar(s[j])
  {
    w := SpaceRun(s, i + |kw|);
    var d := WordRun(s, i + |kw| + w);
    SpaceRunSpec(s, i + |kw|, w);
    WordRunSpec(s, i + |kw| + w, d);
  }

  /** The slice that such a match covers is `Shaped`. */
  lemma SliceShaped(s: string, i: nat, n: nat, kw: string, w: nat)
    requires StartsWithAt(s, i, kw) && 1 <= w && |kw| + w < n && i + n <= |s|
    requires forall j :: i + |kw| <= j < i + |kw| + w ==> IsSpace(s[j])
    requires forall j :: i + |kw| + w <= j < i + n ==> IsWordChar(s[j])
    ensures Shaped(s[i..i + n], kw, w)
  {
    var t := s[i..i + n];
    assert t[..|kw|] == s[i..i + |kw|];
    forall j | |kw| <= j < |kw| + w ensures IsSpace(t[j]) {
      assert t[j] == s[i + j];
    }
    forall j | |kw| + w <= j < |t| ensures IsWordChar(t[j]) {
      assert t[j] == s[i + j];
    }
  }

  /** A match of a scanning pattern has the shape of one of its alternatives. */
  lemma MatchShape(s: string, i: nat, p: Pattern, n: nat, t: string) returns (kw: string, w: nat)
    requires p.withName && i <= |s| && MatchLen(s, i, p) == Some(n) && t == s[i..i + n]
    ensures kw in p.keywords
    ensures Shaped(t, kw, w)
  {
    var k := AltMatchLenFirst(s, i, p.keywords, true);
    kw := p.keywords[k];
    w := KeywordShape(s, i, kw, n);
    SliceShaped(s, i, n, kw, w);
  }

  /** Every text the scan of a pattern reports has the shape of one of the
      pattern's alternatives. */
  lemma MatchIsShaped(s: string, p: Pattern, k: nat) returns (kw: string, w: nat)
    requires p.withName && k < |AllMatches(s, p)|
    ensures kw in p.keywords && Shaped(AllMatches(s, p)[k], kw, w)
  {
    MatcherBounded(s, p);
    var m := MatcherOf(s, p);
    ScanSound(s, 0, m, k);
    var f := ScanWith(s, 0, m)[k];
    assert AllMatches(s, p)[k] == f.text;
    assert MatchLen(s, f.start, p) == Some(|f.text|);
    kw, w := MatchShape(s, f.start, p, |f.text|, AllMatches(s, p)[k]);
  }

  /** The `\w+` run of a match of `kw\s+\w+` is greedy: no `\w` character
      follows the match. */
  lemma KeywordMatchEnds(s: string, i: nat, kw: string, n: nat)
    requires i <= |s| && KeywordMatchLen(s, i, kw, true) == Some(n)
    ensures i + n == |s| || !IsWordChar(s[i + n])
  {
    var w := SpaceRun(s, i + |kw|);
    var d := WordRun(s, i + |kw| + w);
    WordRunSpec(s, i + |kw| + w, d);
  }

  /** The same holds for a match of a scanning pattern. */
  lemma MatchLenEnds(s: string, i: nat, p: Pattern, n: nat)
    requires p.withName && i <= |s| && MatchLen(s, i, p) == Some(n)
    ensures i + n == |s| || !IsWordChar(s[i + n])
  {
    var a := AltMatchLenFirst(s, i, p.keywords, true);
    KeywordMatchEnds(s, i, p.keywords[a], n);
  }

  /** Every reported match ends where its identifier ends in the text: the
      character after it, if any, is not a `\w` character. */
  lemma MatchEndsIdentifier(s: string, p: Pattern, k: nat)
    requires p.withName && k < |Scan(s, 0, p)|
    ensures var f := Scan(s, 0, p)[k];
      End(f) <= |s| && (End(f) == |s| || !IsWordChar(s[End(f)]))
  {
    MatcherBounded(s, p);
    var m := MatcherOf(s, p);
    ScanSound(s, 0, m, k);
    var f := ScanWith(s, 0, m)[k];
    assert MatchLen(s, f.start, p) == Some(|f.text|);
    assert Scan(s, 0, p)[k] == f && End(f) == f.start + |f.text|;
    MatchLenEnds(s, f.start, p, |f.text|);
  }

  /** Conversely, `kw`, a run of `w >= 1` `\s` characters and a `\w`
      character is a match of the alternative `kw\s+\w+`. */
  lemma KeywordMatchesAt(s: string, i: nat, kw: string, w: nat)
    requires StartsWithAt(s, i, kw) && 1 <= w && i + |kw| + w < |s|
    requires forall j :: i + |kw| <= j < i + |kw| + w ==> IsSpace(s[j])
    requires IsWordChar(s[i + |kw| + w])
    ensures KeywordMatchLen(s, i, kw, true).Some?
  {
    SpaceRunIs(s, i + |kw|, w);
  }

  /** An alternation matches wherever one of its alternatives does. */
  lemma {:induction false} AltMatchLenAny(s: string, i: nat, kws: seq<string>, withName: bool, k: nat)
    requires i <= |s| && k < |kws| && KeywordMatchLen(s, i, kws[k], withName).Some?
    ensures AltMatchLen(s, i, kws, withName).Some?
  {
    if k > 0 && KeywordMatchLen(s, i, kws[0], withName).None? {
      assert kws[1..][k - 1] == kws[k];
      AltMatchLenAny(s, i, kws[1..], withName, k - 1);
    }
  }

  /** The scan misses no declaration: wherever one of the pattern's keywords
      is followed by `\s` characters and a `\w` character, that position lies
      inside a reported match, whose index is returned. */
  lemma ScanFindsDeclaration(s: string, p: Pattern, i: nat, kw: string, w: nat) returns (k: nat)
    requires p.withName && kw in p.keywords
    requires StartsWithAt(s, i, kw) && 1 <= w && i + |kw| + w < |s|
    requires forall j :: i + |kw| <= j < i + |kw| + w ==> IsSpace(s[j])
    requires IsWordChar(s[i + |kw| + w])
    ensures k < |Scan(s, 0, p)| && Scan(s, 0, p)[k].start <= i < End(Scan(s, 0, p)[k])
  {
    KeywordMatchesAt(s, i, kw, w);
    var a :| 0 <= a < |p.keywords| && p.keywords[a] == kw;
    AltMatchLenAny(s, i, p.keywords, true, a);
    MatcherBounded(s, p);
    var m := MatcherOf(s, p);
    assert m(i).Some?;
    k := ScanCovers(s, 0, m, i);
  }

  /** Deleting the literal `kw + " "` from a match of `kw\s+\w+` removes the
      keyword and one space when the first `\s` character is a space, and
      changes nothing otherwise (a tab, a newline, ...): no other position of
      the match can hold `kw + " "`. */
  lemma {:induction false} LiteralPrefixReplace(t: string, kw: string, w: nat)
    requires Shaped(t, kw, w) && |kw| >= 1 && !IsSpace(kw[|kw| - 1])
    ensures ReplaceFirst(t, kw + " ", "") == if t[|kw|] == ' ' then t[|kw| + 1..] else t
  {
    var lit := kw + " ";
    if t[|kw|] == ' ' {
      assert t[..|lit|] == lit;
      assert StartsWithAt(t, 0, lit);
    } else {
      forall j: nat ensures !StartsWithAt(t, j, lit) {
        if j + |lit| > |t| {
        } else if 1 <= j < w {
          assert IsSpace(t[j + |kw| - 1]);
          assert t[j..j + |lit|][|kw| - 1] != lit[|kw| - 1];
        } else {
          assert t[j + |kw|] != ' ';
          assert t[j..j + |lit|][|kw|] != lit[|kw|];
        }
      }
      assert IndexOfFrom(t, lit, 0).None?;
    }
  }

  /** The longest suffix of `t` made of `\w` characters. */
  ghost predicate IsIdentifierOf(name: string, t: string) {
    1 <= |name| < |t| && t[|t| - |name|..] == name &&
    (forall j :: 0 <= j < |name| ==> IsWordChar(name[j])) &&
    !IsWordChar(t[|t| - |name| - 1])
  }

  lemma ShapedIdentifier(t: string, kw: string, w: nat)
    requires Shaped(t, kw, w)
    ensures IsIdentifierOf(t[|kw| + w..], t)
  {
    var name := t[|kw| + w..];
    assert t[|t| - |name| - 1] == t[|kw| + w - 1];
    assert IsSpace(t[|kw| + w - 1]);
    forall j | 0 <= j < |name| ensures IsWordChar(name[j]) {
      assert name[j] == t[|kw| + w + j];
    }
  }

  lemma FunctionNameOfShaped(t: string, w: nat)
    requires Shaped(t, "function", w)
    ensures FunctionName(t) == (if t[8] == ' ' then t[9..] else t)
  {
    LiteralPrefixReplace(t, "function", w);
    assert "function" + " " == "function ";
  }

  lemma ClassNameOfShaped(t: string, w: nat)
    requires Shaped(t, "class", w)
    ensures ClassName(t) == (if t[5] == ' ' then t[6..] else t)
  {
    LiteralPrefixReplace(t, "class", w);
    assert "class" + " " == "class ";
  }

  /** Every function match is `function`, whitespace and an identifier; its
      name is the match without `function ` when the whitespace starts with a
      space, and the whole match otherwise. */
  lemma FunctionNameOfMatch(s: string, k: nat)
    requires k < |AllMatches(s, FunctionPattern)|
    ensures var t := AllMatches(s, FunctionPattern)[k];
      |t| > 9 && t[..8] == "function" && IsSpace(t[8]) &&
      FunctionName(t) == (if t[8] == ' ' then t[9..] else t)
  {
    var t := AllMatches(s, FunctionPattern)[k];
    var kw, w := MatchIsShaped(s, FunctionPattern, k);
    assert kw == "function" && IsSpace(t[8]);
    FunctionNameOfShaped(t, w);
  }

  /** Every class match is `class`, whitespace and an identifier; its name is
      the match without `class ` when the whitespace starts with a space, and
      the whole match otherwise. */
  lemma ClassNameOfMatch(s: string, k: nat)
    requires k < |AllMatches(s, ClassPattern)|
    ensures var t := AllMatches(s, ClassPattern)[k];
      |t| > 6 && t[..5] == "class" && IsSpace(t[5]) &&
      ClassName(t) == (if t[5] == ' ' then t[6..] else t)
  {
    var t := AllMatches(s, ClassPattern)[k];
    var kw, w := MatchIsShaped(s, ClassPattern, k);
    assert kw == "class" && IsSpace(t[5]);
    ClassNameOfShaped(t, w);
  }

  /** With a single space after the keyword, the function name is exactly the
      identifier. */
  lemma FunctionNameSingleSpace(s: string, k: nat)
    requires k < |AllMatches(s, FunctionPattern)|
    requires var t := AllMatches(s, FunctionPattern)[k]; |t| > 9 && t[8] == ' ' && !IsSpace(t[9])
    ensures IsIdentifierOf(FunctionName(AllMatches(s, FunctionPattern)[k]), AllMatches(s, FunctionPattern)[k])
  {
    var t := AllMatches(s, FunctionPattern)[k];
    var kw, w := MatchIsShaped(s, FunctionPattern, k);
    assert kw == "function";
    FunctionNameOfShaped(t, w);
    assert w == 1;
    ShapedIdentifier(t, kw, w);
  }

  /** Deleting the leftmost `const\s+|let\s+|var\s+` from a variable match
      leaves exactly its identifier. */
  lemma {:induction false} VariableNameOfShaped(t: string, kw: string, w: nat)
    requires Shaped(t, kw, w) && kw in VariablePattern.keywords
    ensures VariableName(t) == t[|kw| + w..]
  {
    assert StartsWithAt(t, 0, kw) by { assert t[0..|kw|] == t[..|kw|]; }
    var others := VariablePrefix.keywords;
    assert SpaceRun(t, |kw|) == w by {
      assert |kw| + w < |t| ==> !IsSpace(t[|kw| + w]);
      SpaceRunIs(t, |kw|, w);
    }
    assert KeywordMatchLen(t, 0, kw, false) == Some(|kw| + w);
    if kw == "const" {
      assert AltMatchLen(t, 0, others, false) == Some(|kw| + w);
    } else if kw == "let" {
      assert !StartsWithAt(t, 0, "const") by { assert t[0] == 'l'; }
      assert AltMatchLen(t, 0, others[1..], false) == Some(|kw| + w);
      assert AltMatchLen(t, 0, others, false) == Some(|kw| + w);
    } else {
      assert !StartsWithAt(t, 0, "const") && !StartsWithAt(t, 0, "let") by { assert t[0] == 'v'; }
      assert AltMatchLen(t, 0, others[2..], false) == Some(|kw| + w);
      assert others[1..][1..] == others[2..];
      assert AltMatchLen(t, 0, others[1..], false) == Some(|kw| + w);
      assert AltMatchLen(t, 0, others, false) == Some(|kw| + w);
    }
    MatcherBounded(t, VariablePrefix);
    assert MatcherOf(t, VariablePrefix)(0) == Some(|kw| + w);
    assert FirstMatch(t, 0, MatcherOf(t, VariablePrefix)) == Some(Found(0, t[0..|kw| + w]));
  }

  /** A run of `\s` characters that ends where a non-`\s` character (or the
      text) begins is the longest one. */
  lemma {:induction false} SpaceRunIs(s: string, i: nat, n: nat)
    requires i + n <= |s|
    requires forall j :: i <= j < i + n ==> IsSpace(s[j])
    requires i + n < |s| ==> !IsSpace(s[i + n])
    ensures SpaceRun(s, i) == n
    decreases n
  {
    if n > 0 {
      SpaceRunIs(s, i + 1, n - 1);
    }
  }

  /** Every variable match's name is exactly its identifier: the keyword and
      all the whitespace after it are gone. */
  lemma VariableNameOfMatch(s: string, k: nat)
    requires k < |AllMatches(s, VariablePattern)|
    ensures IsIdentifierOf(VariableName(AllMatches(s, VariablePattern)[k]), AllMatches(s, VariablePattern)[k])
  {
    var t := AllMatches(s, VariablePattern)[k];
    var kw, w := MatchIsShaped(s, VariablePattern, k);
    VariableNameOfShaped(t, kw, w);
    ShapedIdentifier(t, kw, w);
  }

  // ---------------------------------------------------------------------
  // The atoms
  // ---------------------------------------------------------------------

  datatype TruthValue = TruthValue(strength: real, confidence: real)

  datatype NodeType = FileNode | FunctionNode | ClassNode | VariableNode {
    /** The `type` string of the atom. */
    function Name(): string {
      match this
      case FileNode => "FileNode"
      case FunctionNode => "FunctionNode"
      case ClassNode => "ClassNode"
      case VariableNode => "VariableNode"
    }

    /** Position of the node's group in the output. */
    function Rank(): nat {
      match this
      case FileNode => 0
      case FunctionNode => 1
      case ClassNode => 2
      case VariableNode => 3
    }
  }

  datatype CodeAtom = CodeAtom(nodeType: NodeType, name: string, truthValue: TruthValue, outgoing: seq<string>)

  /** The fixed truth value each kind of node is given. */
  function TruthOf(t: NodeType): (r: TruthValue)
    ensures 0.0 < r.confidence <= r.strength <= 1.0
    ensures r.strength == 1.0 <==> t == FileNode
  {
    match t
    case FileNode => TruthValue(1.0, 1.0)
    case FunctionNode => TruthValue(0.9, 0.8)
    case ClassNode => TruthValue(0.95, 0.9)
    case VariableNode => TruthValue(0.7, 0.6)
  }

  /** The name a match of the given kind's pattern is turned into. */
  function NameOf(t: NodeType, m: string): string {
    match t
    case FileNode => m
    case FunctionNode => FunctionName(m)
    case ClassNode => ClassName(m)
    case VariableNode => VariableName(m)
  }

  /** The atom pushed for a node of the given kind and name. */
  function Node(t: NodeType, name: string): CodeAtom {
    CodeAtom(t, name, TruthOf(t), [])
  }

  /** The names of a list of matches of the given kind's pattern. */
  function Names(t: NodeType, ms: seq<string>): (r: seq<string>)
    ensures |r| == |ms|
  {
    if ms == [] then [] else [NameOf(t, ms[0])] + Names(t, ms[1..])
  }

  lemma {:induction false} NamesAt(t: NodeType, ms: seq<string>, k: nat)
    requires k < |ms|
    ensures Names(t, ms)[k] == NameOf(t, ms[k])
    decreases k
  {
    if k > 0 {
      NamesAt(t, ms[1..], k - 1);
    }
  }

  lemma {:induction false} NamesSnoc(t: NodeType, ms: seq<string>, m: string)
    ensures Names(t, ms + [m]) == Names(t, ms) + [NameOf(t, m)]
    decreases |ms|
  {
    if ms == [] {
      assert ms + [m] == [m];
    } else {
      assert (ms + [m])[1..] == ms[1..] + [m];
      NamesSnoc(t, ms[1..], m);
    }
  }

  /** One atom per name, in the order of the names. */
  function NodesOf(t: NodeType, names: seq<string>): (r: seq<CodeAtom>)
    ensures |r| == |names|
    ensures forall k :: 0 <= k < |names| ==> r[k] == Node(t, names[k])
  {
    if names == [] then [] else [Node(t, names[0])] + NodesOf(t, names[1..])
  }

  lemma NodesOfSnoc(t: NodeType, names: seq<string>, name: string)
    ensures NodesOf(t, names + [name]) == NodesOf(t, names) + [Node(t, name)]
  {
  }

  /** The atoms built from the file uri and the names of the three groups. */
  function Assemble(fileUri: string, fs: seq<string>, cs: seq<string>, vs: seq<string>): (r: seq<CodeAtom>)
    ensures |r| == 1 + |fs| + |cs| + |vs| && r[0] == Node(FileNode, fileUri)
  {
    [Node(FileNode, fileUri)] + NodesOf(FunctionNode, fs) + NodesOf(ClassNode, cs) + NodesOf(VariableNode, vs)
  }

  /** What `extractCodeAtoms(content, fileUri)` returns. */
  function CodeAtomsOf(content: string, fileUri: string): (r: seq<CodeAtom>)
    ensures |r| >= 1 && r[0] == CodeAtom(FileNode, fileUri, TruthValue(1.0, 1.0), [])
  {
    Assemble(fileUri,
             Names(FunctionNode, AllMatches(content, FunctionPattern)),
             Names(ClassNode, AllMatches(content, ClassPattern)),
             Names(VariableNode, AllMatches(content, VariablePattern)))
  }

  /** The file node comes first, then one function node per function name,
      one class node per class name and one variable node per variable
      name, each group in its own order, each node with its kind's fixed
      truth value and no outgoing links. */
  lemma AssembleLayout(fileUri: string, fs: seq<string>, cs: seq<string>, vs: seq<string>)
    ensures var atoms := Assemble(fileUri, fs, cs, vs);
      && |atoms| == 1 + |fs| + |cs| + |vs|
      && atoms[0] == CodeAtom(FileNode, fileUri, TruthValue(1.0, 1.0), [])
      && (forall k :: 0 <= k < |fs| ==> atoms[1 + k] == CodeAtom(FunctionNode, fs[k], TruthValue(0.9, 0.8), []))
      && (forall k :: 0 <= k < |cs| ==> atoms[1 + |fs| + k] == CodeAtom(ClassNode, cs[k], TruthValue(0.95, 0.9), []))
      && (forall k :: 0 <= k < |vs| ==>
            atoms[1 + |fs| + |cs| + k] == CodeAtom(VariableNode, vs[k], TruthValue(0.7, 0.6), []))
  {
  }

  /** The atoms of a file: as many as the matches plus one, the file node
      first. */
  lemma CodeAtomsCount(content: string, fileUri: string)
    ensures var atoms := CodeAtomsOf(content, fileUri);
      |atoms| == 1 + |AllMatches(content, FunctionPattern)| + |AllMatches(content, ClassPattern)| +
                 |AllMatches(content, VariablePattern)| &&
      atoms[0] == CodeAtom(FileNode, fileUri, TruthValue(1.0, 1.0), [])
  {
    AssembleLayout(fileUri, Names(FunctionNode, AllMatches(content, FunctionPattern)),
                   Names(ClassNode, AllMatches(content, ClassPattern)),
                   Names(VariableNode, AllMatches(content, VariablePattern)));
  }

  /** The `k`-th function match gives atom `1 + k`. */
  lemma CodeAtomsFunction(content: string, fileUri: string, k: nat)
    requires k < |AllMatches(content, FunctionPattern)|
    ensures CodeAtomsOf(content, fileUri)[1 + k] ==
      CodeAtom(FunctionNode, FunctionName(AllMatches(content, FunctionPattern)[k]), TruthValue(0.9, 0.8), [])
  {
    var fs := Names(FunctionNode, AllMatches(content, FunctionPattern));
    AssembleLayout(fileUri, fs, Names(ClassNode, AllMatches(content, ClassPattern)),
                   Names(VariableNode, AllMatches(content, VariablePattern)));
    NamesAt(FunctionNode, AllMatches(content, FunctionPattern), k);
  }

  /** The `k`-th class match gives the atom `k` places after the function
      nodes. */
  lemma CodeAtomsClass(content: string, fileUri: string, k: nat)
    requires k < |AllMatches(content, ClassPattern)|
    ensures var f := |AllMatches(content, FunctionPattern)|;
      CodeAtomsOf(content, fileUri)[1 + f + k] ==
      CodeAtom(ClassNode, ClassName(AllMatches(content, ClassPattern)[k]), TruthValue(0.95, 0.9), [])
  {
    var cs := Names(ClassNode, AllMatches(content, ClassPattern));
    AssembleLayout(fileUri, Names(FunctionNode, AllMatches(content, FunctionPattern)), cs,
                   Names(VariableNode, AllMatches(content, VariablePattern)));
    NamesAt(ClassNode, AllMatches(content, ClassPattern), k);
  }

  /** The `k`-th variable match gives the atom `k` places after the class
      nodes. */
  lemma CodeAtomsVariable(content: string, fileUri: string, k: nat)
    requires k < |AllMatches(content, VariablePattern)|
    ensures var f := |AllMatches(content, FunctionPattern)|;
      var c := |AllMatches(content, ClassPattern)|;
      CodeAtomsOf(content, fileUri)[1 + f + c + k] ==
      CodeAtom(VariableNode, VariableName(AllMatches(content, VariablePattern)[k]), TruthValue(0.7, 0.6), [])
  {
    var vs := Names(VariableNode, AllMatches(content, VariablePattern));
    AssembleLayout(fileUri, Names(FunctionNode, AllMatches(content, FunctionPattern)),
                   Names(ClassNode, AllMatches(content, ClassPattern)), vs);
    NamesAt(VariableNode, AllMatches(content, VariablePattern), k);
  }

  /** Only the file node has the `type` string `FileNode`. */
  lemma FileNodeName(t: NodeType)
    ensures t.Name() == "FileNode" <==> t == FileNode
  {
    assert "FunctionNode"[1] != "FileNode"[1] && "ClassNode"[0] != "FileNode"[0] && "VariableNode"[0] != "FileNode"[0];
  }

  /** Only the first atom is a file node, the kinds never go back to an
      earlier group, and every atom has its kind's truth value and no
      outgoing links. */
  lemma AssembleOrder(fileUri: string, fs: seq<string>, cs: seq<string>, vs: seq<string>)
    ensures var atoms := Assemble(fileUri, fs, cs, vs);
      && atoms[0].nodeType == FileNode
      && (forall i :: 1 <= i < |atoms| ==> atoms[i].nodeType != FileNode)
      && (forall i, j :: 0 <= i < j < |atoms| ==> atoms[i].nodeType.Rank() <= atoms[j].nodeType.Rank())
      && (forall i :: 0 <= i < |atoms| ==> atoms[i].truthValue == TruthOf(atoms[i].nodeType) && atoms[i].outgoing == [])
  {
  }

  /** Only the first atom has the `type` string `FileNode`. */
  lemma AssembleTypeNames(fileUri: string, fs: seq<string>, cs: seq<string>, vs: seq<string>)
    ensures var atoms := Assemble(fileUri, fs, cs, vs);
      atoms[0].nodeType.Name() == "FileNode" &&
      forall i :: 1 <= i < |atoms| ==> atoms[i].nodeType.Name() != "FileNode"
  {
    var atoms := Assemble(fileUri, fs, cs, vs);
    AssembleOrder(fileUri, fs, cs, vs);
    FileNodeName(atoms[0].nodeType);
    forall i | 1 <= i < |atoms| ensures atoms[i].nodeType.Name() != "FileNode" {
      FileNodeName(atoms[i].nodeType);
    }
  }

  /** Content with no match of any of the three patterns gives the file node
      alone. */
  lemma NoMatchesOnlyFileNode(content: string, fileUri: string)
    requires forall j :: 0 <= j < |content| ==>
      MatchLen(content, j, FunctionPattern).None? && MatchLen(content, j, ClassPattern).None? &&
      MatchLen(content, j, VariablePattern).None?
    ensures CodeAtomsOf(content, fileUri) == [CodeAtom(FileNode, fileUri, TruthValue(1.0, 1.0), [])]
  {
    ScanEmptyIff(content, FunctionPattern);
    ScanEmptyIff(content, ClassPattern);
    ScanEmptyIff(content, VariablePattern);
  }

  /** One `for…of` loop of `extractCodeAtoms`: a node of kind `t` is pushed for
      every match, in order. */
  method PushNodes(atoms: seq<CodeAtom>, t: NodeType, matches: seq<string>) returns (r: seq<CodeAtom>)
    ensures r == atoms + NodesOf(t, Names(t, matches))
  {
    r := atoms;
    for k := 0 to |matches|
      invariant r == atoms + NodesOf(t, Names(t, matches[..k]))
    {
      PushStep(atoms, t, matches, k);
      r := r + [Node(t, NameOf(t, matches[k]))];
    }
    assert matches[..|matches|] == matches;
  }

  lemma PushStep(atoms: seq<CodeAtom>, t: NodeType, ms: seq<string>, k: nat)
    requires k < |ms|
    ensures atoms + NodesOf(t, Names(t, ms[..k])) + [Node(t, NameOf(t, ms[k]))] ==
            atoms + NodesOf(t, Names(t, ms[..k + 1]))
  {
    assert ms[..k + 1] == ms[..k] + [ms[k]];
    NamesSnoc(t, ms[..k], ms[k]);
    NodesOfSnoc(t, Names(t, ms[..k]), NameOf(t, ms[k]));
  }

  /** `extractCodeAtoms`: the file node, then one loop per pattern over its
      matches. */
  method ExtractCodeAtoms(content: string, fileUri: string) returns (atoms: seq<CodeAtom>)
    ensures atoms == CodeAtomsOf(content, fileUri)
  {
    atoms := [Node(FileNode, fileUri)];
    atoms := PushNodes(atoms, FunctionNode, AllMatches(content, FunctionPattern));
    atoms := PushNodes(atoms, ClassNode, AllMatches(content, ClassPattern));
    atoms := PushNodes(atoms, VariableNode, AllMatches(content, VariablePattern));
  }

  // ---------------------------------------------------------------------
  // Examples of the quirks
  // ---------------------------------------------------------------------

  /** The patterns have no word boundary: a keyword is found inside a longer
      word (`myfunction foo`, `outlet x`). */
  lemma NoWordBoundary()
    ensures MatchLen("myfunction foo", 2, FunctionPattern) == Some(12)
    ensures MatchLen("outlet x", 3, VariablePattern) == Some(5)
  {
    assert StartsWithAt("myfunction foo", 2, "function") by {
      assert "myfunction foo"[2..10] == "function";
    }
    SpaceRunIs("myfunction foo", 10, 1);
    assert !StartsWithAt("outlet x", 3, "const") by {
      assert "outlet x"[3] == 'l';
    }
    assert StartsWithAt("outlet x", 3, "let") by {
      assert "outlet x"[3..6] == "let";
    }
    SpaceRunIs("outlet x", 6, 1);
  }

  /** A tab after `function` is not the literal `function `: nothing is
      removed. */
  lemma FunctionNameKeepsTab()
    ensures FunctionName("function\tfoo") == "function\tfoo"
  {
    var t := "function\tfoo";
    assert t[..8] == "function";
    FunctionNameOfShaped(t, 1);
  }

  /** Only one of two spaces is removed with `function `. */
  lemma FunctionNameDoubleSpace()
    ensures FunctionName("function  foo") == " foo"
  {
    var t := "function  foo";
    assert t[..8] == "function";
    FunctionNameOfShaped(t, 2);
  }

  /** A newline after `class` is not the literal `class `: nothing is
      removed. */
  lemma ClassNameKeepsNewline()
    ensures ClassName("class\nFoo") == "class\nFoo"
  {
    var t := "class\nFoo";
    assert t[..5] == "class";
    ClassNameOfShaped(t, 1);
  }

  /** The variable prefix takes all the whitespace with it. */
  lemma VariableNameDropsAllSpace()
    ensures VariableName("let \t x") == "x"
  {
    var t := "let \t x";
    assert t[..3] == "let";
    VariableNameOfShaped(t, "let", 3);
  }
}
