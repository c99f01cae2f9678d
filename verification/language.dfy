/**
  `CodeAnalysisAgent.detectLanguage`: the text after the last `.` of a file
  uri, lower-cased, is looked up in a six-entry object literal, and a missing
  entry gives `unknown`.
*/
module LanguageDetection {

  // ---------------------------------------------------------------------
  // `split('.')` and `pop()`
  // ---------------------------------------------------------------------

  /** `s.split(sep)` with a one-character separator: the pieces between the
      separators, in order; an empty text gives one empty piece. */
  function Split(s: string, sep: char): (r: seq<string>)
    ensures |r| >= 1
  {
    if s == [] then [""]
    else
      var parts := Split(s[..|s| - 1], sep);
      var c := s[|s| - 1];
      if c == sep then parts + [""]
      else parts[..|parts| - 1] + [parts[|parts| - 1] + [c]]
  }

  /** The pieces joined back with the separator between them. */
  function Join(parts: seq<string>, sep: char): string
    requires |parts| >= 1
  {
    if |parts| == 1 then parts[0] else Join(parts[..|parts| - 1], sep) + [sep] + parts[|parts| - 1]
  }

  /** A new, empty last piece adds one separator to the joined text. */
  lemma JoinAddEmpty(parts: seq<string>, sep: char)
    requires |parts| >= 1
    ensures Join(parts + [""], sep) == Join(parts, sep) + [sep]
  {
    assert (parts + [""])[..|parts|] == parts;
  }

  /** A character added to the last piece is added to the joined text. */
  lemma JoinExtendLast(parts: seq<string>, c: char, sep: char)
    requires |parts| >= 1
    ensures Join(parts[..|parts| - 1] + [parts[|parts| - 1] + [c]], sep) == Join(parts, sep) + [c]
  {
    var r := parts[..|parts| - 1] + [parts[|parts| - 1] + [c]];
    if |parts| > 1 {
      assert r[..|r| - 1] == parts[..|parts| - 1];
      var front := Join(parts[..|parts| - 1], sep);
      var last := parts[|parts| - 1];
      assert front + [sep] + (last + [c]) == (front + [sep] + last) + [c];
    }
  }

  /** Splitting loses nothing: joining the pieces gives the text back. */
  lemma {:induction false} SplitJoin(s: string, sep: char)
    ensures Join(Split(s, sep), sep) == s
  {
    if s != [] {
      var init := s[..|s| - 1];
      var c := s[|s| - 1];
      var parts := Split(init, sep);
      assert s == init + [c];
      SplitJoin(init, sep);
      if c == sep {
        assert Split(s, sep) == parts + [""];
        JoinAddEmpty(parts, sep);
        assert Join(Split(s, sep), sep) == init + [c];
      } else {
        assert Split(s, sep) == parts[..|parts| - 1] + [parts[|parts| - 1] + [c]];
        JoinExtendLast(parts, c, sep);
        assert Join(Split(s, sep), sep) == init + [c];
      }
    }
  }

  /** No piece of a split holds the separator. */
  lemma {:induction false} SplitPiecesFree(s: string, sep: char)
    ensures forall k :: 0 <= k < |Split(s, sep)| ==> sep !in Split(s, sep)[k]
  {
    if s != [] {
      var init := s[..|s| - 1];
      var c := s[|s| - 1];
      var parts := Split(init, sep);
      SplitPiecesFree(init, sep);
      var r := Split(s, sep);
      if c != sep {
        forall k | 0 <= k < |r| ensures sep !in r[k] {
          if k < |r| - 1 {
            assert r[k] == parts[k];
          } else {
            assert r[k] == parts[|parts| - 1] + [c];
          }
        }
      }
    }
  }

  /** `fileUri.split('.').pop()`: the last piece. */
  function Extension(uri: string): (r: string)
    ensures '.' !in r
  {
    SplitPiecesFree(uri, '.');
    var parts := Split(uri, '.');
    parts[|parts| - 1]
  }

  /** The extension is the longest suffix without a `.`: it holds no `.`, it
      ends the uri, and it is either the whole uri or preceded by a `.`. */
  lemma {:induction false} ExtensionIsLastSegment(uri: string)
    ensures var e := Extension(uri);
      '.' !in e && |e| <= |uri| && uri[|uri| - |e|..] == e &&
      (|e| < |uri| ==> uri[|uri| - |e| - 1] == '.')
  {
    if uri != [] {
      var init := uri[..|uri| - 1];
      ExtensionIsLastSegment(init);
      var e := Extension(uri);
      var c := uri[|uri| - 1];
      if c != '.' {
        var e0 := Extension(init);
        assert e == e0 + [c];
        assert uri[|uri| - |e|..] == init[|init| - |e0|..] + [c];
        if |e| < |uri| {
          assert uri[|uri| - |e| - 1] == init[|init| - |e0| - 1];
        }
      }
    }
  }

  /** A character other than `.` lengthens the extension. */
  lemma ExtensionSnoc(s: string, c: char)
    requires c != '.'
    ensures Extension(s + [c]) == Extension(s) + [c]
  {
    assert (s + [c])[..|s|] == s;
  }

  /** A `.` starts a new, empty extension. */
  lemma ExtensionDot(s: string)
    ensures Extension(s + ".") == ""
  {
    assert (s + ".")[..|s|] == s;
  }

  /** The extension of `p + "." + e`, for an `e` without `.`, is `e`. */
  lemma {:induction false} ExtensionOfDotted(p: string, e: string)
    requires '.' !in e
    ensures Extension(p + "." + e) == e
  {
    if e == [] {
      assert p + "." + e == p + ".";
      ExtensionDot(p);
    } else {
      var e0 := e[..|e| - 1];
      var c := e[|e| - 1];
      assert e == e0 + [c];
      assert c in e;
      ExtensionOfDotted(p, e0);
      assert p + "." + e == (p + "." + e0) + [c];
      ExtensionSnoc(p + "." + e0, c);
    }
  }

  /** A uri without `.` is its own extension. */
  lemma {:induction false} ExtensionNoDot(uri: string)
    requires '.' !in uri
    ensures Extension(uri) == uri
  {
    if uri != [] {
      var init := uri[..|uri| - 1];
      var c := uri[|uri| - 1];
      assert uri == init + [c];
      assert c in uri;
      ExtensionNoDot(init);
      ExtensionSnoc(init, c);
    }
  }

  // ---------------------------------------------------------------------
  // `toLowerCase()`
  // ---------------------------------------------------------------------

  function LowerChar(c: char): char {
    if 'A' <= c <= 'Z' then (c as int + 32) as char else c
  }

  /** `s.toLowerCase()` on the ASCII letters. */
  function ToLower(s: string): (r: string)
    ensures |r| == |s|
    ensures forall k :: 0 <= k < |s| ==> r[k] == LowerChar(s[k])
  {
    if s == [] then [] else [LowerChar(s[0])] + ToLower(s[1..])
  }

  /** Lower-casing keeps every `.` where it is and makes no new one, so it
      commutes with splitting on `.`. */
  lemma {:induction false} ExtensionOfLower(uri: string)
    ensures Extension(ToLower(uri)) == ToLower(Extension(uri))
  {
    if uri != [] {
      var init := uri[..|uri| - 1];
      var c := uri[|uri| - 1];
      ExtensionOfLower(init);
      var lu := ToLower(uri);
      assert lu[..|lu| - 1] == ToLower(init);
      assert lu[|lu| - 1] == LowerChar(c);
      if c != '.' {
        assert ToLower(Extension(init) + [c]) == ToLower(Extension(init)) + [LowerChar(c)];
      }
    }
  }

  // ---------------------------------------------------------------------
  // The lookup
  // ---------------------------------------------------------------------

  /** The object literal `languageMap`. */
  const LanguageMap: map<string, string> :=
    map["ts" := "typescript", "js" := "javascript", "py" := "python",
        "java" := "java", "cpp" := "cpp", "c" := "c"]

  /** The keys `Object.prototype` gives every object literal that are
      lower-case, and so can be reached after `toLowerCase()`. */
  const PrototypeKeys: set<string> := {"constructor", "__proto__"}

  /** What `languageMap[extension || ''] || 'unknown'` yields: a language
      name, or for an inherited key the (truthy) prototype member itself,
      which is not a string. */
  datatype Detected = Language(name: string) | PrototypeMember(key: string)

  function Lookup(ext: string): (r: Detected)
    ensures r.Language? ==> r.name == "unknown" || r.name in LanguageMap.Values
    ensures r.PrototypeMember? ==> r.key in PrototypeKeys
  {
    if ext in LanguageMap then Language(LanguageMap[ext])
    else if ext in PrototypeKeys then PrototypeMember(ext)
    else Language("unknown")
  }

  /** `detectLanguage(fileUri)`. */
  function DetectLanguage(uri: string): (r: Detected)
    ensures r.Language? ==> r.name == "unknown" || r.name in LanguageMap.Values
    ensures r.PrototypeMember? ==> r.key in PrototypeKeys
  {
    Lookup(ToLower(Extension(uri)))
  }

  // ---------------------------------------------------------------------
  // Properties
  // ---------------------------------------------------------------------

  /** The language of `p + "." + e`, for an `e` without `.`, is the lookup of
      `e` lower-cased: nothing before the last `.` matters. */
  lemma DetectDotted(p: string, e: string)
    requires '.' !in e
    ensures DetectLanguage(p + "." + e) == Lookup(ToLower(e))
  {
    ExtensionOfDotted(p, e);
  }

  /** Without a `.`, the whole uri is the extension. */
  lemma DetectNoDot(uri: string)
    requires '.' !in uri
    ensures DetectLanguage(uri) == Lookup(ToLower(uri))
  {
    ExtensionNoDot(uri);
  }

  /** A uri that ends in `.` has the empty extension, which is `unknown`. */
  lemma DetectTrailingDot(p: string)
    ensures DetectLanguage(p + ".") == Language("unknown")
  {
    assert p + "." == p + "." + "";
    ExtensionOfDotted(p, "");
  }

  /** Only the lower-cased uri matters: two uris that lower-case alike get
      the same answer. */
  lemma DetectCaseInsensitive(a: string, b: string)
    requires ToLower(a) == ToLower(b)
    ensures DetectLanguage(a) == DetectLanguage(b)
  {
    ExtensionOfLower(a);
    ExtensionOfLower(b);
  }

  /** The answer is `unknown` exactly when the lower-cased extension is
      neither a key of the table nor an inherited key; otherwise a table key
      gives its language. */
  lemma DetectUnknownIff(uri: string)
    ensures var ext := ToLower(Extension(uri));
      (DetectLanguage(uri) == Language("unknown") <==> ext !in LanguageMap && ext !in PrototypeKeys) &&
      (ext in LanguageMap ==> DetectLanguage(uri) == Language(LanguageMap[ext]))
  {
  }

  /** An extension the table holds, in any case, gives its language. */
  lemma DetectTable(p: string, e: string)
    requires '.' !in e && ToLower(e) in LanguageMap
    ensures DetectLanguage(p + "." + e) == Language(LanguageMap[ToLower(e)])
  {
    DetectDotted(p, e);
  }

  /** Proof helper for `DetectUpperCase`: lower-casing `TS` and `ts`. */
  lemma LowerTs()
    ensures ToLower("TS") == "ts" && ToLower("ts") == "ts"
  {
    assert ToLower("TS") == [LowerChar('T')] + ToLower("S");
    assert ToLower("ts") == ['t'] + ToLower("s");
  }

  /** Proof helper for `DetectUpperCase`: the two uris split at their dot. */
  lemma DottedTs()
    ensures "A.TS" == "A" + "." + "TS" && "a.ts" == "a" + "." + "ts"
  {
  }

  /** `A.TS` and `a.ts` agree. */
  lemma DetectUpperCase()
    ensures DetectLanguage("A.TS") == DetectLanguage("a.ts") == Language("typescript")
  {
    DottedTs();
    LowerTs();
    DetectDotted("A", "TS");
    DetectDotted("a", "ts");
  }

  /** An extension the table does not hold is `unknown`. */
  lemma DetectTsx(p: string)
    ensures DetectLanguage(p + ".tsx") == Language("unknown")
  {
    assert p + ".tsx" == p + "." + "tsx";
    DetectDotted(p, "tsx");
    assert ToLower("tsx") == "tsx";
  }

  /** No inherited key is a key of the table. */
  lemma PrototypeKeysOutsideTable()
    ensures forall x :: x in PrototypeKeys ==> x !in LanguageMap
  {
    assert |"constructor"| == 11 && |"__proto__"| == 9;
    assert forall x :: x in LanguageMap ==> |x| <= 4;
  }

  /** An extension naming an inherited member of the object literal, in any
      case, yields that member, not a language name. */
  lemma DetectPrototype(p: string, e: string)
    requires '.' !in e && ToLower(e) in PrototypeKeys
    ensures DetectLanguage(p + "." + e) == PrototypeMember(ToLower(e))
  {
    DetectDotted(p, e);
    PrototypeKeysOutsideTable();
  }
}
