# Atom store, code-atom extraction and language detection of `ai-opencog`

This project is a Dafny model of three small, deterministic pieces of the
`ai-opencog` package, with proofs of what each one promises.

- **`AtomSpaceService`** (`atom_space.dfy`, module `AtomSpace`). This is the
  in-memory atom store of the OpenCog feature demo.
  - It holds a JavaScript `Map` from generated ids `atom_<n>` to atoms, plus
    a counter `nextId`.
  - `addAtom` stores a copy of the atom with its `id` field set to a fresh id.
  - `getAtom` looks an atom up by id.
  - `queryAtoms` returns, in insertion order, every stored atom whose fields
    equal all fields of a pattern. `_matchesPattern` decides that equality.
  - The store is a class with the fields `atoms` and `nextId`. The `Map` is a
    sequence of entries in insertion order, because a JavaScript `Map`
    iterates in that order. `Map.set` and `Map.get` are the functions
    `MapSet` and `MapGet`.
  - The invariant `Valid` says entry `i` has key `atom_<i+1>` and `id` field
    `atom_<i+1>`. From it the proofs get that ids are fresh, that an insert
    never overwrites, and that every stored atom is distinct.
  - The demo scenario `testAtomSpace` is the method `TestAtomSpace`.
- **`CodeAnalysisAgent.extractCodeAtoms`** (`code_atoms.dfy`, module
  `CodeAtoms`).
  - It scans source text with the global regular expressions
    `/function\s+(\w+)/g`, `/class\s+(\w+)/g` and
    `/const\s+(\w+)|let\s+(\w+)|var\s+(\w+)/g`.
  - It emits a `FileNode`, then one node per match, group by group, with a
    fixed truth value per kind.
  - Each expression is described by the datatype `Pattern`. `MatchLen` gives
    the length of the match at a position.
  - `ScanWith` and `Scan` give the leftmost, non-overlapping scan that
    `String.prototype.match` performs with the `g` flag.
  - `ReplaceFirst` models `String.prototype.replace` with a string argument.
    `DeleteFirstMatch` models `replace` with a non-global regular expression.
  - `ExtractCodeAtoms` is the imperative builder. It starts from the file
    node and calls `PushNodes` once per pattern. `PushNodes` is a `for` loop
    that appends one node per match to a sequence. `ExtractCodeAtoms` is
    proved equal to the specification function `CodeAtomsOf`,
    and the layout, count, name and order properties are proved about
    `CodeAtomsOf`.
- **`CodeAnalysisAgent.detectLanguage`** (`language.dfy`, module
  `LanguageDetection`). It models `fileUri.split('.').pop()?.toLowerCase()`
  and the lookup in a six-entry object literal, which defaults to `unknown`.

`wrappers.dfy` holds the `Option` datatype that `AtomSpace` and `CodeAtoms` use.

## Model

| member | source | states |
|---|---|---|
| AtomSpace.NatToString | packages/ai-opencog/test-opencog-features.js:63 | The template literal renders the counter as a non-empty string of decimal digits. |
| AtomSpace.IdOf | packages/ai-opencog/test-opencog-features.js:63 | Every issued id starts with `atom_`, followed by at least one character. |
| AtomSpace.ParseNatToString | packages/ai-opencog/test-opencog-features.js:63 | The decimal text of the counter reads back as the counter. |
| AtomSpace.IdOfInjective | packages/ai-opencog/test-opencog-features.js:63 | Two different counter values never give the same id `atom_<n>`. |
| AtomSpace.MapGet | packages/ai-opencog/test-opencog-features.js:69 | `Map.get` returns only an atom stored under the requested key. |
| AtomSpace.MapGetAbsent | packages/ai-opencog/test-opencog-features.js:69 | A key that no entry holds reads as nothing (`undefined`). |
| AtomSpace.MapGetFirst | packages/ai-opencog/test-opencog-features.js:69 | A key reads as the atom of the entry that holds it. |
| AtomSpace.MapSet | packages/ai-opencog/test-opencog-features.js:64 | `Map.set` keeps every existing key at its place. It adds at most one entry, and afterwards the map holds the entry set. |
| AtomSpace.MapSetFresh | packages/ai-opencog/test-opencog-features.js:64 | `Map.set` with a new key appends one entry at the end and leaves all earlier entries in place. |
| AtomSpace.MapGetSetSame | packages/ai-opencog/test-opencog-features.js:64-69 | Reading a key just set yields the atom that was set. |
| AtomSpace.MapGetSetOther | packages/ai-opencog/test-opencog-features.js:64-69 | Setting one key does not change what any other key reads. |
| AtomSpace.WithId | packages/ai-opencog/test-opencog-features.js:64 | `{ ...atom, id }` has `id` equal to the new id, overriding any earlier `id`. Every other field is the atom's own, and no field is added or lost. |
| AtomSpace.Atoms | packages/ai-opencog/test-opencog-features.js:74 | `this.atoms.values()` yields one atom per entry, each entry's atom at the entry's place, so in insertion order. |
| AtomSpace.Query | packages/ai-opencog/test-opencog-features.js:72-80 | The specification of a query: the matching stored atoms in insertion order, never more of them than there are entries. |
| AtomSpace.QueryAppend | packages/ai-opencog/test-opencog-features.js:72-80 | A query over two stretches of entries is the first stretch's result followed by the second's, so insertion order is kept. |
| AtomSpace.QueryMembers | packages/ai-opencog/test-opencog-features.js:72-80 | An atom is in a query's result exactly when it is stored and matches the pattern. |
| AtomSpace.QueryEmptyPattern | packages/ai-opencog/test-opencog-features.js:82-90 | The empty pattern matches every atom, so its query returns every stored atom in order. |
| AtomSpace.QueryDistinct | packages/ai-opencog/test-opencog-features.js:72-80 | When the stored atoms are pairwise distinct, no atom appears twice in a query's result. |
| AtomSpace.AtomSpaceService.constructor | packages/ai-opencog/test-opencog-features.js:56-60 | A new store is empty, its counter is 1, and the store invariant holds. |
| AtomSpace.AtomSpaceService.AddAtom | packages/ai-opencog/test-opencog-features.js:62-66 | Returns `atom_` followed by the counter before the call. The counter rises by exactly one. The store gains exactly one entry, at its end: the atom with its `id` set. All earlier entries are unchanged, and the invariant is kept. |
| AtomSpace.AtomSpaceService.GetAtom | packages/ai-opencog/test-opencog-features.js:68-70 | Leaves the store unchanged. Finds an atom exactly when the id is one already issued, and then returns the atom that call stored. Any other id yields nothing. |
| AtomSpace.AtomSpaceService.MatchesPattern | packages/ai-opencog/test-opencog-features.js:82-90 | The loop over the pattern's keys, stopping at the first mismatch, returns true exactly when every pattern key is present in the atom with an equal value. |
| AtomSpace.AtomSpaceService.QueryAtoms | packages/ai-opencog/test-opencog-features.js:72-80 | Leaves the store unchanged. Returns exactly the stored atoms that match, in insertion order, and no atom twice. |
| AtomSpace.MatchesTypeIs | packages/ai-opencog/test-opencog-features.js:338-344 | The pattern `{ type: t }` matches exactly the atoms whose `type` is `t`. |
| AtomSpace.QueryOneOfThree | packages/ai-opencog/test-opencog-features.js:338-345 | Given three atoms of pairwise different types, a query by one atom's type returns that atom alone. |
| AtomSpace.DemoFields | packages/ai-opencog/test-opencog-features.js:315-333 | The three atoms the scenario stores have the types, names, outgoing list and ids `atom_1`, `atom_2`, `atom_3` it gives them. |
| AtomSpace.DemoQueries | packages/ai-opencog/test-opencog-features.js:338-345 | Each by-type query of the scenario's store returns exactly the one atom of that type. |
| AtomSpace.TestAtomSpace | packages/ai-opencog/test-opencog-features.js:310-347 | On a fresh store, the three additions return `atom_1`, `atom_2` and `atom_3`. Each by-type query then returns exactly one atom, with the expected name (or outgoing list) and id. |
| CodeAtoms.IsSpace | packages/ai-opencog/src/browser/code-analysis-agent.ts:317 | A `\s` character is never a `\w` character, so the whitespace run and the name that follows it cannot overlap. |
| CodeAtoms.IsWordChar | packages/ai-opencog/src/browser/code-analysis-agent.ts:317 | `\w` holds only ASCII characters, as in an expression without the `u` flag. |
| CodeAtoms.SpaceRunSpec | packages/ai-opencog/src/browser/code-analysis-agent.ts:317 | The greedy `\s` run at a position is all whitespace and is followed by a non-whitespace character or the end. It is the only run with that property. |
| CodeAtoms.WordRunSpec | packages/ai-opencog/src/browser/code-analysis-agent.ts:317 | The greedy `\w` run has the same characterisation, for word characters. |
| CodeAtoms.KeywordMatchLen | packages/ai-opencog/src/browser/code-analysis-agent.ts:317 | A match of one alternative `kw\s+(\w+)` at a position is longer than the keyword and ends within the text. |
| CodeAtoms.AltMatchLen | packages/ai-opencog/src/browser/code-analysis-agent.ts:341 | A match of an alternation of keyword expressions, such as the variable expression's three, is non-empty and ends within the text. |
| CodeAtoms.MatchLen | packages/ai-opencog/src/browser/code-analysis-agent.ts:317 | A match at a position is non-empty and ends within the text. |
| CodeAtoms.KeywordShape | packages/ai-opencog/src/browser/code-analysis-agent.ts:317 | A match of `kw\s+\w+` is the keyword, then a run of at least one whitespace character, then word characters up to its end. |
| CodeAtoms.KeywordMatchEnds | packages/ai-opencog/src/browser/code-analysis-agent.ts:317 | The `\w+` run is greedy: the character after a match of `kw\s+\w+`, if any, is not a word character. |
| CodeAtoms.MatchLenEnds | packages/ai-opencog/src/browser/code-analysis-agent.ts:317 | The same holds for a match of any of the three scanning expressions. |
| CodeAtoms.KeywordMatchesAt | packages/ai-opencog/src/browser/code-analysis-agent.ts:317 | Conversely, the keyword, at least one whitespace character and then a word character always make a match of `kw\s+\w+` at that position. |
| CodeAtoms.AltMatchLenAny | packages/ai-opencog/src/browser/code-analysis-agent.ts:341 | An alternation matches wherever one of its alternatives matches. |
| CodeAtoms.AltMatchLenFirst | packages/ai-opencog/src/browser/code-analysis-agent.ts:341 | An alternation matches as its first matching alternative does, and no earlier alternative matches there. |
| CodeAtoms.ScanWith | packages/ai-opencog/src/browser/code-analysis-agent.ts:317 | The global scan from a position reports at most as many matches as there are characters left, since every match is non-empty. |
| CodeAtoms.Scan | packages/ai-opencog/src/browser/code-analysis-agent.ts:317 | The same bound holds for the scan of a pattern. |
| CodeAtoms.ScanSound | packages/ai-opencog/src/browser/code-analysis-agent.ts:317 | Every match the global scan reports is a match of the expression at its start. It lies within the text and holds exactly the text it covers. |
| CodeAtoms.ScanOrdered | packages/ai-opencog/src/browser/code-analysis-agent.ts:317 | The reported matches are left to right and do not overlap: each ends at or before the next one starts. |
| CodeAtoms.ScanCovers | packages/ai-opencog/src/browser/code-analysis-agent.ts:317 | The scan misses no match: every position where the expression matches lies inside some reported match. |
| CodeAtoms.ScanEmptyIff | packages/ai-opencog/src/browser/code-analysis-agent.ts:317 | The scan is empty (`match` gives `null`, which the `[]` default replaces) exactly when the expression matches nowhere. |
| CodeAtoms.MatchIsShaped | packages/ai-opencog/src/browser/code-analysis-agent.ts:317 | Each match text is one of the keywords, then at least one whitespace character, then word characters up to its end. |
| CodeAtoms.MatchEndsIdentifier | packages/ai-opencog/src/browser/code-analysis-agent.ts:317 | Every reported match ends where its identifier ends in the content: no word character follows it. |
| CodeAtoms.ScanFindsDeclaration | packages/ai-opencog/src/browser/code-analysis-agent.ts:317 | The scan misses no declaration: wherever a keyword is followed by whitespace and a word character, that position lies inside a reported match. |
| CodeAtoms.AllMatches | packages/ai-opencog/src/browser/code-analysis-agent.ts:317 | `content.match(re)`, with its empty-array default, has one text per match of the scan, no more than the content has characters. It is empty exactly when the expression matches at no position, which is when the default applies. |
| CodeAtoms.IndexOfFrom | packages/ai-opencog/src/browser/code-analysis-agent.ts:319 | `indexOf` returns the first position where the substring occurs; no earlier position holds it. |
| CodeAtoms.ReplaceFirst | packages/ai-opencog/src/browser/code-analysis-agent.ts:319 | `replace` with a string replaces the first occurrence and only that one, and returns a text without an occurrence unchanged. |
| CodeAtoms.DeleteFirstMatch | packages/ai-opencog/src/browser/code-analysis-agent.ts:343 | Deleting the first match of a non-global expression either changes nothing or shortens the text. |
| CodeAtoms.FunctionName | packages/ai-opencog/src/browser/code-analysis-agent.ts:319 | A function name is its match, or the match shortened by the nine characters of `function `. |
| CodeAtoms.ClassName | packages/ai-opencog/src/browser/code-analysis-agent.ts:331 | A class name is its match, or the match shortened by the six characters of `class `. |
| CodeAtoms.VariableName | packages/ai-opencog/src/browser/code-analysis-agent.ts:343 | A variable name is its match, or a shorter text. |
| CodeAtoms.LiteralPrefixReplace | packages/ai-opencog/src/browser/code-analysis-agent.ts:319 | On a match, replacing the first literal `kw + " "` deletes the keyword and one space when a space follows the keyword. Otherwise it changes nothing. |
| CodeAtoms.FunctionNameOfShaped | packages/ai-opencog/src/browser/code-analysis-agent.ts:319 | A function name is the match text with `function ` removed if the keyword is followed by a space, and the whole text otherwise. |
| CodeAtoms.ClassNameOfShaped | packages/ai-opencog/src/browser/code-analysis-agent.ts:331 | A class name follows the same rule with `class `. |
| CodeAtoms.FunctionNameOfMatch | packages/ai-opencog/src/browser/code-analysis-agent.ts:317-319 | Every match of the function expression starts with `function` and a whitespace character. Its name is that match with the first literal `function ` removed. |
| CodeAtoms.ClassNameOfMatch | packages/ai-opencog/src/browser/code-analysis-agent.ts:329-331 | Every match of the class expression starts with `class` and a whitespace character. Its name is that match with the first literal `class ` removed. |
| CodeAtoms.FunctionNameSingleSpace | packages/ai-opencog/src/browser/code-analysis-agent.ts:317-319 | When exactly one space separates the keyword from the name, the function name is exactly the identifier ending the match. |
| CodeAtoms.FirstMatch | packages/ai-opencog/src/browser/code-analysis-agent.ts:343 | The search of the non-global variable-keyword expression finds a match only at or after where it starts, ending within the text. |
| CodeAtoms.FirstMatchIsFirstOfScan | packages/ai-opencog/src/browser/code-analysis-agent.ts:343 | A non-global search finds nothing exactly when the global scan is empty. Otherwise it finds the scan's first match. |
| CodeAtoms.VariableNameOfShaped | packages/ai-opencog/src/browser/code-analysis-agent.ts:343 | Deleting the first match of the non-global const/let/var prefix expression from a variable match leaves what follows the keyword and all of its whitespace. |
| CodeAtoms.VariableNameOfMatch | packages/ai-opencog/src/browser/code-analysis-agent.ts:341-343 | Every variable name is exactly the identifier ending its match: a non-empty run of word characters that ends the match text. |
| CodeAtoms.TruthOf | packages/ai-opencog/src/browser/code-analysis-agent.ts:312-348 | Every fixed truth value has a confidence above zero, no higher than its strength, and a strength of at most 1. Only the file node has strength 1. |
| CodeAtoms.Assemble | packages/ai-opencog/src/browser/code-analysis-agent.ts:306-350 | The `atoms` array holds one atom more than there are names, and its first atom is the file node for the uri. |
| CodeAtoms.CodeAtomsOf | packages/ai-opencog/src/browser/code-analysis-agent.ts:306-314 | The specification of the result: it is never empty, and it starts with the FileNode for the uri, with truth 1.0/1.0 and no outgoing links. |
| CodeAtoms.AssembleLayout | packages/ai-opencog/src/browser/code-analysis-agent.ts:308-350 | Output length is 1 plus the names of the three groups. The first atom is the FileNode (name the uri, truth 1.0/1.0, no outgoing). Then come the function, class and variable nodes at their offsets, with truth 0.9/0.8, 0.95/0.9 and 0.7/0.6 and no outgoing. |
| CodeAtoms.CodeAtomsCount | packages/ai-opencog/src/browser/code-analysis-agent.ts:317-341 | The output has one atom more than the three patterns have matches together, and its first atom is the FileNode for the uri. |
| CodeAtoms.CodeAtomsFunction | packages/ai-opencog/src/browser/code-analysis-agent.ts:316-326 | The `k`-th function match gives the atom at `1 + k`: a FunctionNode named by the `function ` deletion, with truth 0.9/0.8. |
| CodeAtoms.CodeAtomsClass | packages/ai-opencog/src/browser/code-analysis-agent.ts:328-338 | The `k`-th class match gives the atom right after all function nodes plus `k`: a ClassNode named by the `class ` deletion, with truth 0.95/0.9. |
| CodeAtoms.CodeAtomsVariable | packages/ai-opencog/src/browser/code-analysis-agent.ts:340-350 | The `k`-th variable match gives the atom right after the function and class nodes plus `k`: a VariableNode named by the prefix deletion, with truth 0.7/0.6. |
| CodeAtoms.AssembleOrder | packages/ai-opencog/src/browser/code-analysis-agent.ts:308-350 | Only the first atom is a FileNode. Kinds never decrease along the output (file, function, class, variable). Every atom has its kind's truth value and an empty outgoing list. |
| CodeAtoms.FileNodeName | packages/ai-opencog/src/browser/code-analysis-agent.ts:310 | Of the four kinds of node, only the file node has the `type` string `FileNode`. |
| CodeAtoms.AssembleTypeNames | packages/ai-opencog/src/browser/code-analysis-agent.ts:308-350 | In the output, only the first atom has the `type` string `FileNode`. |
| CodeAtoms.NoMatchesOnlyFileNode | packages/ai-opencog/src/browser/code-analysis-agent.ts:306-352 | Content where none of the three expressions matches yields only the FileNode. |
| CodeAtoms.PushNodes | packages/ai-opencog/src/browser/code-analysis-agent.ts:318-326 | The `for…of` loop appends one node per match, in match order, named by the group's naming rule. |
| CodeAtoms.ExtractCodeAtoms | packages/ai-opencog/src/browser/code-analysis-agent.ts:304-353 | The imperative extraction returns exactly `CodeAtomsOf`, to which the layout, count, naming and order lemmas above apply. |
| CodeAtoms.NoWordBoundary | packages/ai-opencog/src/browser/code-analysis-agent.ts:317-341 | The expressions have no word boundary: `function foo` matches inside `myfunction foo`, and `let x` matches inside `outlet x`. |
| CodeAtoms.FunctionNameKeepsTab | packages/ai-opencog/src/browser/code-analysis-agent.ts:319 | For the match `function<TAB>foo`, the name is the whole match. |
| CodeAtoms.FunctionNameDoubleSpace | packages/ai-opencog/src/browser/code-analysis-agent.ts:319 | For `function  foo`, the name keeps the second space. |
| CodeAtoms.ClassNameKeepsNewline | packages/ai-opencog/src/browser/code-analysis-agent.ts:331 | For `class<LF>Foo`, the name is the whole match. |
| CodeAtoms.VariableNameDropsAllSpace | packages/ai-opencog/src/browser/code-analysis-agent.ts:343 | For variables the regular-expression deletion removes all the whitespace, so `let \t x` gives `x`. |
| LanguageDetection.Split | packages/ai-opencog/src/browser/code-analysis-agent.ts:356 | `split('.')` always yields at least one piece, so `pop()` always has a piece to return. |
| LanguageDetection.SplitJoin | packages/ai-opencog/src/browser/code-analysis-agent.ts:356 | `split('.')` loses nothing: joining the pieces with `.` gives the uri back. |
| LanguageDetection.SplitPiecesFree | packages/ai-opencog/src/browser/code-analysis-agent.ts:356 | No piece of the split contains a `.`. |
| LanguageDetection.Extension | packages/ai-opencog/src/browser/code-analysis-agent.ts:356 | The extension never contains a `.`. |
| LanguageDetection.ExtensionIsLastSegment | packages/ai-opencog/src/browser/code-analysis-agent.ts:356 | `pop()` returns the text after the last `.`. It has no `.`, ends the uri, and is either the whole uri or preceded by a `.`. |
| LanguageDetection.ExtensionOfDotted | packages/ai-opencog/src/browser/code-analysis-agent.ts:356 | The extension of `p.e`, when `e` has no `.`, is `e`, whatever `p` is. |
| LanguageDetection.ExtensionNoDot | packages/ai-opencog/src/browser/code-analysis-agent.ts:356 | A uri without `.` is its own extension. |
| LanguageDetection.ToLower | packages/ai-opencog/src/browser/code-analysis-agent.ts:356 | Lower-casing keeps the length and lowers each letter in place. |
| LanguageDetection.ExtensionOfLower | packages/ai-opencog/src/browser/code-analysis-agent.ts:356 | Lower-casing commutes with taking the extension. |
| LanguageDetection.Lookup | packages/ai-opencog/src/browser/code-analysis-agent.ts:357-365 | The lookup yields one of the table's languages, or `unknown`, or an inherited member whose key is one of the lower-case prototype keys. |
| LanguageDetection.DetectLanguage | packages/ai-opencog/src/browser/code-analysis-agent.ts:355-366 | `detectLanguage` yields one of the six languages of the table, or `unknown`, or an inherited prototype member. |
| LanguageDetection.DetectDotted | packages/ai-opencog/src/browser/code-analysis-agent.ts:355-366 | The language of `p.e` depends only on `e` lower-cased. |
| LanguageDetection.DetectNoDot | packages/ai-opencog/src/browser/code-analysis-agent.ts:355-366 | Without a `.`, the whole uri, lower-cased, is looked up. |
| LanguageDetection.DetectTrailingDot | packages/ai-opencog/src/browser/code-analysis-agent.ts:365 | A uri ending in `.` gives `unknown`. |
| LanguageDetection.DetectCaseInsensitive | packages/ai-opencog/src/browser/code-analysis-agent.ts:356 | Two uris that lower-case alike get the same answer. |
| LanguageDetection.DetectUnknownIff | packages/ai-opencog/src/browser/code-analysis-agent.ts:357-365 | The answer is `unknown` exactly when the lower-cased extension is neither a table key nor an inherited key. A table key gives its language. |
| LanguageDetection.DetectTable | packages/ai-opencog/src/browser/code-analysis-agent.ts:357-365 | An extension in the table, in any case, gives the table's language. |
| LanguageDetection.DetectUpperCase | packages/ai-opencog/src/browser/code-analysis-agent.ts:356-358 | `A.TS` and `a.ts` both give `typescript`. |
| LanguageDetection.DetectTsx | packages/ai-opencog/src/browser/code-analysis-agent.ts:357-365 | An extension not in the table (`tsx`) gives `unknown`. |
| LanguageDetection.PrototypeKeysOutsideTable | packages/ai-opencog/src/browser/code-analysis-agent.ts:357-364 | No inherited lower-case key of an object literal is one of the six table keys. |
| LanguageDetection.DetectPrototype | packages/ai-opencog/src/browser/code-analysis-agent.ts:365 | An extension that lower-cases to `constructor` or `__proto__` yields the inherited prototype member, not a language name. |

## Left out

- AtomSpace.AtomSpaceService.AddAtom, AtomSpace.AtomSpaceService.GetAtom, AtomSpace.AtomSpaceService.QueryAtoms and CodeAtoms.ExtractCodeAtoms: `async`/`Promise` is not modelled. They are synchronous methods here, since none of them awaits anything.
- Console output, including the constructor's log line and the scenario's messages.
- The other mocks of the feature demo:
  - the reasoning, learning and pattern-recognition mocks return fixed literals;
  - the reinforcement-learning update is floating-point arithmetic keyed by `JSON.stringify`;
  - the knowledge-management ids come from `Date.now()` and `Math.random()`.
- The rest of `CodeAnalysisAgent`. It delegates to injected services whose implementations are not part of this model, and it formats timestamps and floats.
- The Inversify frontend module wiring and the ES-module compliance script. They are framework bindings and file-system I/O.
- AtomSpace.AtomSpaceService.MatchesPattern:
  - Pattern values are restricted to strings, numbers, booleans and `null`, because `!==` compares objects and arrays by reference.
  - A pattern is taken as its own fields only; `for…in` would also visit inherited enumerable keys.
  - A missing field is read as "absent" rather than `undefined`, so a pattern field whose value is `undefined` is not modelled.
- AtomSpace.Value: numbers are reals, so `NaN` (which is `!==` to itself) and the precision limits of doubles are not modelled. The counter is unbounded, where JavaScript would lose precision past 2^53.
- AtomSpace.AtomSpaceService.QueryAtoms, AtomSpace.AtomSpaceService.GetAtom and AtomSpace.AtomSpaceService.AddAtom: atoms are values, not objects, so aliasing is not modelled.
  - `getAtom` and `queryAtoms` return the stored objects themselves, so a caller can change the store through them.
  - `{ ...atom, id }` is a shallow copy, so the nested `truthValue` and `outgoing` values stay shared with the caller's object.
- CodeAtoms.ReplaceFirst: the `$` patterns that `replace` interprets in its replacement string are not modelled. The source only replaces with the empty string, which has none.
- Characters are modelled as code points, while JavaScript strings are UTF-16 code units. A text with surrogate pairs is read as its code points.
- CodeAtoms.IsWordChar: `\w` is the ASCII class, as in JavaScript without the `u` flag. `\s` is modelled as the full ECMAScript whitespace and line-terminator set.
- LanguageDetection.ToLower: lowers only ASCII letters, where `toLowerCase` follows Unicode. The only non-ASCII characters that lower-case into ASCII letters are U+212A (to `k`) and U+0130 (to `i` plus a combining dot). No table key and no reachable prototype key contains `k` or `i`, so the answer of `detectLanguage` is the same either way.
- LanguageDetection.Lookup: the prototype keys modelled are the inherited ones that are all lower case (`constructor`, `__proto__`). The other `Object.prototype` names contain capitals and cannot be reached after lower-casing. The member the lookup yields is represented by its key, not by the function object itself.
- `pop()?.`: the optional chaining is not modelled, because `split` always returns at least one piece (`Split` ensures this), so `pop()` never yields `undefined`.
