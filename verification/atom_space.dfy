/**
  The in-memory atom store `AtomSpaceService` of the OpenCog feature demo:
  a JavaScript `Map` from generated ids `atom_<n>` to atoms, and a counter
  `nextId` that `addAtom` post-increments.

  An atom is a plain JavaScript object, modelled as a finite map from field
  names to values. The `Map` keeps its entries in insertion order, so it is
  modelled as a sequence of entries, and `Map.prototype.set` / `get` as the
  functions `MapSet` / `MapGet` below.
*/
module AtomSpace {
  import opened Wrappers

  /** The JavaScript values an atom field can hold. */
  datatype Value =
    | Str(s: string)
    | Num(x: real)
    | Bool(b: bool)
    | Null
    | Arr(items: seq<Value>)
    | Obj(fields: map<string, Value>)
  {
    /** Values that `!==` compares by content rather than by reference. */
    predicate IsScalar() {
      Str? || Num? || Bool? || Null?
    }
  }

  /** A JavaScript object: its own enumerable fields. */
  type Atom = map<string, Value>

  /** One entry of the store's `Map`, in insertion order. */
  datatype Entry = Entry(key: string, atom: Atom)

  // ---------------------------------------------------------------------
  // Decimal rendering of the counter (the template literal `${n}`)
  // ---------------------------------------------------------------------

  function DigitChar(d: nat): (c: char)
    requires d < 10
    ensures '0' <= c <= '9'
  {
    ('0' as int + d) as char
  }

  function DigitValue(c: char): nat {
    if '0' <= c <= '9' then c as int - '0' as int else 0
  }

  /** Decimal digits of `n`, most significant first, without leading zeros. */
  function NatToString(n: nat): (s: string)
    ensures |s| >= 1
    ensures forall i :: 0 <= i < |s| ==> '0' <= s[i] <= '9'
  {
    if n < 10 then [DigitChar(n)] else NatToString(n / 10) + [DigitChar(n % 10)]
  }

  /** Reads a string of decimal digits back as a number. */
  function ParseDecimal(s: string): nat {
    if s == [] then 0 else ParseDecimal(s[..|s| - 1]) * 10 + DigitValue(s[|s| - 1])
  }

  lemma {:induction false} ParseNatToString(n: nat)
    ensures ParseDecimal(NatToString(n)) == n
  {
    var s := NatToString(n);
    if n < 10 {
      assert s[..|s| - 1] == [];
    } else {
      assert s[..|s| - 1] == NatToString(n / 10);
      ParseNatToString(n / 10);
    }
  }

  /** The id `addAtom` issues when the counter stands at `n`. */
  function IdOf(n: nat): (r: string)
    ensures |r| > 5 && r[..5] == "atom_"
  {
    "atom_" + NatToString(n)
  }

  /** Distinct counter values give distinct ids. */
  lemma IdOfInjective(m: nat, n: nat)
    ensures IdOf(m) == IdOf(n) ==> m == n
  {
    if IdOf(m) == IdOf(n) {
      assert NatToString(m) == IdOf(m)[5..];
      assert NatToString(n) == IdOf(n)[5..];
      ParseNatToString(m);
      ParseNatToString(n);
    }
  }

  // ---------------------------------------------------------------------
  // The store's `Map`
  // ---------------------------------------------------------------------

  /** `Map.prototype.get`: the atom of the first entry with key `k`, if any. */
  function MapGet(e: seq<Entry>, k: string): (r: Option<Atom>)
    ensures r.Some? ==> exists i :: 0 <= i < |e| && e[i].key == k && r.value == e[i].atom
  {
    if e == [] then None
    else if e[0].key == k then Some(e[0].atom)
    else
      var r := MapGet(e[1..], k);
      assert r.Some? ==> exists i :: 1 <= i < |e| && e[i].key == k && r.value == e[i].atom by {
        if r.Some? {
          var i :| 0 <= i < |e[1..]| && e[1..][i].key == k && r.value == e[1..][i].atom;
          assert e[i + 1] == e[1..][i];
        }
      }
      r
  }

  /** A key no entry holds reads as nothing. */
  lemma {:induction false} MapGetAbsent(e: seq<Entry>, k: string)
    requires forall i :: 0 <= i < |e| ==> e[i].key != k
    ensures MapGet(e, k) == None
  {
    if e != [] {
      assert forall i :: 0 <= i < |e[1..]| ==> e[1..][i] == e[i + 1];
      MapGetAbsent(e[1..], k);
    }
  }

  /** A key reads as the atom of the first entry that holds it. */
  lemma {:induction false} MapGetFirst(e: seq<Entry>, k: string, i: nat)
    requires i < |e| && e[i].key == k
    requires forall j :: 0 <= j < i ==> e[j].key != k
    ensures MapGet(e, k) == Some(e[i].atom)
  {
    if i > 0 {
      assert forall j :: 0 <= j < i - 1 ==> e[1..][j] == e[j + 1];
      MapGetFirst(e[1..], k, i - 1);
    }
  }

  /** `Map.prototype.set`: overwrites the entry with key `k` in place, or
      appends a new entry at the end when there is none. */
  function MapSet(e: seq<Entry>, k: string, a: Atom): (r: seq<Entry>)
    ensures |r| == |e| || |r| == |e| + 1
    ensures forall i :: 0 <= i < |e| ==> r[i].key == e[i].key
    ensures Entry(k, a) in r
  {
    if e == [] then [Entry(k, a)]
    else if e[0].key == k then [Entry(k, a)] + e[1..]
    else [e[0]] + MapSet(e[1..], k, a)
  }

  /** Setting a key that is not yet in the map appends one entry and leaves
      every earlier entry where it was. */
  lemma {:induction false} MapSetFresh(e: seq<Entry>, k: string, a: Atom)
    requires forall i :: 0 <= i < |e| ==> e[i].key != k
    ensures MapSet(e, k, a) == e + [Entry(k, a)]
  {
    if e != [] {
      MapSetFresh(e[1..], k, a);
      assert [e[0]] + (e[1..] + [Entry(k, a)]) == e + [Entry(k, a)];
    }
  }

  /** Reading back a key just set yields the atom set. */
  lemma {:induction false} MapGetSetSame(e: seq<Entry>, k: string, a: Atom)
    ensures MapGet(MapSet(e, k, a), k) == Some(a)
  {
    if e != [] && e[0].key != k {
      MapGetSetSame(e[1..], k, a);
      assert MapSet(e, k, a)[1..] == MapSet(e[1..], k, a);
    }
  }

  /** Setting one key does not change what any other key reads. */
  lemma {:induction false} MapGetSetOther(e: seq<Entry>, k: string, a: Atom, k': string)
    requires k' != k
    ensures MapGet(MapSet(e, k, a), k') == MapGet(e, k')
  {
    if e != [] && e[0].key != k && e[0].key != k' {
      MapGetSetOther(e[1..], k, a, k');
      assert MapSet(e, k, a)[1..] == MapSet(e[1..], k, a);
    } else if e != [] && e[0].key == k {
      assert MapSet(e, k, a)[1..] == e[1..];
    }
  }

  // ---------------------------------------------------------------------
  // Pattern matching and queries
  // ---------------------------------------------------------------------

  /** `{ ...atom, id }`: a copy of `atom` whose `id` field is `id`. */
  function WithId(atom: Atom, id: string): (r: Atom)
    ensures "id" in r && r["id"] == Str(id)
    ensures forall k :: k != "id" ==> (k in r <==> k in atom)
    ensures forall k :: k in atom && k != "id" ==> r[k] == atom[k]
  {
    atom["id" := Str(id)]
  }

  /** Patterns whose values `!==` compares by content. */
  ghost predicate ScalarPattern(pattern: Atom) {
    forall k :: k in pattern ==> pattern[k].IsScalar()
  }

  /** Every field of the pattern is present in the atom with the same value. */
  ghost predicate Matches(atom: Atom, pattern: Atom) {
    forall k :: k in pattern ==> k in atom && atom[k] == pattern[k]
  }

  /** The stored atoms, in insertion order (`atoms.values()`). */
  function Atoms(e: seq<Entry>): (r: seq<Atom>)
    ensures |r| == |e|
    ensures forall i :: 0 <= i < |e| ==> r[i] == e[i].atom
  {
    if e == [] then [] else Atoms(e[..|e| - 1]) + [e[|e| - 1].atom]
  }

  /** The atoms of `e` that match `pattern`, in insertion order. */
  ghost function Query(e: seq<Entry>, pattern: Atom): (r: seq<Atom>)
    ensures |r| <= |e|
  {
    if e == [] then []
    else Query(e[..|e| - 1], pattern) + (if Matches(e[|e| - 1].atom, pattern) then [e[|e| - 1].atom] else [])
  }

  /** A query over two stretches of entries is the query over the first
      followed by the query over the second: the order of insertion is kept. */
  lemma {:induction false} QueryAppend(a: seq<Entry>, b: seq<Entry>, pattern: Atom)
    ensures Query(a + b, pattern) == Query(a, pattern) + Query(b, pattern)
  {
    if b == [] {
      assert a + b == a;
    } else {
      var b' := b[..|b| - 1];
      assert (a + b)[..|a + b| - 1] == a + b';
      QueryAppend(a, b', pattern);
    }
  }

  /** An atom is in the query's result exactly when it is stored and matches. */
  lemma {:induction false} QueryMembers(e: seq<Entry>, pattern: Atom, x: Atom)
    ensures x in Query(e, pattern) <==> x in Atoms(e) && Matches(x, pattern)
  {
    if e != [] {
      var e' := e[..|e| - 1];
      QueryMembers(e', pattern, x);
      assert Atoms(e) == Atoms(e') + [e[|e| - 1].atom];
    }
  }

  /** The empty pattern matches every atom. */
  lemma {:induction false} QueryEmptyPattern(e: seq<Entry>)
    ensures Query(e, map[]) == Atoms(e)
  {
    if e != [] {
      QueryEmptyPattern(e[..|e| - 1]);
    }
  }

  /** A query lists each stored atom at most once when the stored atoms are
      pairwise distinct. */
  lemma {:induction false} QueryDistinct(e: seq<Entry>, pattern: Atom)
    requires forall i, j :: 0 <= i < j < |e| ==> e[i].atom != e[j].atom
    ensures forall i, j :: 0 <= i < j < |Query(e, pattern)| ==> Query(e, pattern)[i] != Query(e, pattern)[j]
  {
    if e != [] {
      var e' := e[..|e| - 1];
      var last := e[|e| - 1].atom;
      QueryDistinct(e', pattern);
      assert last !in Atoms(e') by {
        forall i | 0 <= i < |e'| ensures Atoms(e')[i] != last {
          assert e'[i] == e[i];
        }
      }
      QueryMembers(e', pattern, last);
    }
  }

  // ---------------------------------------------------------------------
  // The store
  // ---------------------------------------------------------------------

  /** Entry `i` is the one the `(i+1)`-th call of `addAtom` made. */
  ghost predicate IssuedAt(e: seq<Entry>, i: nat)
    requires i < |e|
  {
    e[i].key == IdOf(i + 1) && "id" in e[i].atom && e[i].atom["id"] == Str(IdOf(i + 1))
  }

  class AtomSpaceService {
    var atoms: seq<Entry>
    var nextId: nat

    /** Entries are exactly the ids `atom_1` .. `atom_<nextId-1>`, in order. */
    ghost predicate Valid()
      reads this
    {
      1 <= nextId && |atoms| == nextId - 1 &&
      forall i :: 0 <= i < |atoms| ==> IssuedAt(atoms, i)
    }

    constructor ()
      ensures Valid()
      ensures atoms == [] && nextId == 1
    {
      atoms := [];
      nextId := 1;
    }

    /** Stores a copy of `atom` whose `id` is a freshly issued id, and returns
        that id. The store grows by exactly one entry at its end. */
    method AddAtom(atom: Atom) returns (id: string)
      requires Valid()
      modifies this
      ensures Valid()
      ensures id == IdOf(old(nextId)) && nextId == old(nextId) + 1
      ensures atoms == old(atoms) + [Entry(id, WithId(atom, id))]
    {
      id := IdOf(nextId);
      forall i | 0 <= i < |atoms| ensures atoms[i].key != id {
        assert IssuedAt(atoms, i);
        IdOfInjective(i + 1, nextId);
      }
      MapSetFresh(atoms, id, WithId(atom, id));
      ghost var before := atoms;
      atoms := MapSet(atoms, id, WithId(atom, id));
      nextId := nextId + 1;
      forall i | 0 <= i < |atoms| ensures IssuedAt(atoms, i) {
        if i < |before| {
          assert atoms[i] == before[i] && IssuedAt(before, i);
        }
      }
    }

    /** Looks an atom up by id: found exactly for the ids issued so far. */
    method GetAtom(id: string) returns (r: Option<Atom>)
      requires Valid()
      ensures r == MapGet(atoms, id)
      ensures r.Some? <==> exists n :: 1 <= n < nextId && id == IdOf(n)
      ensures forall n :: 1 <= n < nextId && id == IdOf(n) ==> r == Some(atoms[n - 1].atom)
    {
      r := MapGet(atoms, id);
      forall n | 1 <= n < nextId && id == IdOf(n)
        ensures r == Some(atoms[n - 1].atom)
      {
        assert IssuedAt(atoms, n - 1);
        forall j | 0 <= j < n - 1 ensures atoms[j].key != id {
          assert IssuedAt(atoms, j);
          IdOfInjective(j + 1, n);
        }
        MapGetFirst(atoms, id, n - 1);
      }
      if r.Some? {
        var i :| 0 <= i < |atoms| && atoms[i].key == id && r.value == atoms[i].atom;
        assert IssuedAt(atoms, i);
        assert 1 <= i + 1 < nextId && id == IdOf(i + 1);
      }
    }

    /** Whether every field of `pattern` equals the atom's field (a loop over
        the pattern's keys that stops at the first mismatch). */
    method MatchesPattern(atom: Atom, pattern: Atom) returns (b: bool)
      requires ScalarPattern(pattern)
      ensures b == Matches(atom, pattern)
    {
      var keys := pattern.Keys;
      while keys != {}
        invariant keys <= pattern.Keys
        invariant forall k :: k in pattern && k !in keys ==> k in atom && atom[k] == pattern[k]
        decreases keys
      {
        var key :| key in keys;
        if !(key in atom && atom[key] == pattern[key]) {
          return false;
        }
        keys := keys - {key};
      }
      return true;
    }

    /** The stored atoms that match `pattern`, in insertion order, each once. */
    method QueryAtoms(pattern: Atom) returns (results: seq<Atom>)
      requires Valid() && ScalarPattern(pattern)
      ensures results == Query(atoms, pattern)
      ensures forall i, j :: 0 <= i < j < |results| ==> results[i] != results[j]
    {
      results := [];
      var i := 0;
      while i < |atoms|
        invariant 0 <= i <= |atoms|
        invariant results == Query(atoms[..i], pattern)
      {
        var m := MatchesPattern(atoms[i].atom, pattern);
        assert atoms[..i + 1][..i] == atoms[..i];
        if m {
          results := results + [atoms[i].atom];
        }
        i := i + 1;
      }
      assert atoms[..i] == atoms;
      forall i, j | 0 <= i < j < |atoms| ensures atoms[i].atom != atoms[j].atom {
        assert IssuedAt(atoms, i) && IssuedAt(atoms, j);
        IdOfInjective(i + 1, j + 1);
      }
      QueryDistinct(atoms, pattern);
    }
  }

  // ---------------------------------------------------------------------
  // The demo scenario `testAtomSpace`
  // ---------------------------------------------------------------------

  /** The pattern `{ type: t }`. */
  function TypeIs(t: string): (r: Atom)
    ensures ScalarPattern(r)
  {
    map["type" := Str(t)]
  }

  lemma MatchesTypeIs(atom: Atom, t: string)
    ensures Matches(atom, TypeIs(t)) <==> "type" in atom && atom["type"] == Str(t)
  {
    assert "type" in TypeIs(t);
  }

  /** Of three stored atoms whose types are pairwise different, the query by
      the `k`-th one's type returns that atom alone. */
  lemma {:induction false} QueryOneOfThree(es: seq<Entry>, t: string, k: nat)
    requires |es| == 3 && k < 3
    requires forall i :: 0 <= i < 3 ==> "type" in es[i].atom && (es[i].atom["type"] == Str(t) <==> i == k)
    ensures Query(es, TypeIs(t)) == [es[k].atom]
  {
    MatchesTypeIs(es[0].atom, t);
    MatchesTypeIs(es[1].atom, t);
    MatchesTypeIs(es[2].atom, t);
    assert es[..2][..1] == es[..1] && es[..1][..0] == [];
    assert Query(es[..1], TypeIs(t)) == (if k == 0 then [es[0].atom] else []);
    assert Query(es[..2], TypeIs(t)) == Query(es[..1], TypeIs(t)) + (if k == 1 then [es[1].atom] else []);
    assert es[..3] == es;
  }

  /** Proof helper for `DemoFields` and `TestAtomSpace`: the first three ids. */
  lemma FirstIds()
    ensures IdOf(1) == "atom_1" && IdOf(2) == "atom_2" && IdOf(3) == "atom_3"
  {
  }

  /** The three atoms the scenario adds. */
  function ConceptAtom(): Atom {
    map["type" := Str("ConceptNode"), "name" := Str("Theia"),
        "truthValue" := Obj(map["strength" := Num(0.9), "confidence" := Num(0.8)])]
  }

  function PredicateAtom(): Atom {
    map["type" := Str("PredicateNode"), "name" := Str("is_ide"),
        "truthValue" := Obj(map["strength" := Num(1.0), "confidence" := Num(0.9)])]
  }

  function LinkAtom(predicateId: string, conceptId: string): Atom {
    map["type" := Str("EvaluationLink"), "outgoing" := Arr([Str(predicateId), Str(conceptId)]),
        "truthValue" := Obj(map["strength" := Num(0.95), "confidence" := Num(0.85)])]
  }

  /** The store after the three additions. */
  function DemoStore(): seq<Entry> {
    [Entry(IdOf(1), WithId(ConceptAtom(), IdOf(1))),
     Entry(IdOf(2), WithId(PredicateAtom(), IdOf(2))),
     Entry(IdOf(3), WithId(LinkAtom(IdOf(2), IdOf(1)), IdOf(3)))]
  }

  /** The fields of the stored atoms that the scenario looks at. */
  lemma DemoFields()
    ensures var es := DemoStore();
      && "type" in es[0].atom && es[0].atom["type"] == Str("ConceptNode")
      && "type" in es[1].atom && es[1].atom["type"] == Str("PredicateNode")
      && "type" in es[2].atom && es[2].atom["type"] == Str("EvaluationLink")
      && "name" in es[0].atom && es[0].atom["name"] == Str("Theia")
      && "name" in es[1].atom && es[1].atom["name"] == Str("is_ide")
      && "outgoing" in es[2].atom && es[2].atom["outgoing"] == Arr([Str("atom_2"), Str("atom_1")])
      && es[0].atom["id"] == Str("atom_1") && es[1].atom["id"] == Str("atom_2") && es[2].atom["id"] == Str("atom_3")
  {
    FirstIds();
    assert "type" in ConceptAtom() && "name" in ConceptAtom();
    assert "type" in PredicateAtom() && "name" in PredicateAtom();
    assert "type" in LinkAtom(IdOf(2), IdOf(1)) && "outgoing" in LinkAtom(IdOf(2), IdOf(1));
  }

  /** Each by-type query of the scenario finds exactly the atom of that type. */
  lemma DemoQueries()
    ensures Query(DemoStore(), TypeIs("ConceptNode")) == [DemoStore()[0].atom]
    ensures Query(DemoStore(), TypeIs("PredicateNode")) == [DemoStore()[1].atom]
    ensures Query(DemoStore(), TypeIs("EvaluationLink")) == [DemoStore()[2].atom]
  {
    DemoFields();
    var es := DemoStore();
    assert |"ConceptNode"| == 11 && |"PredicateNode"| == 13 && |"EvaluationLink"| == 14;
    QueryOneOfThree(es, "ConceptNode", 0);
    QueryOneOfThree(es, "PredicateNode", 1);
    QueryOneOfThree(es, "EvaluationLink", 2);
  }

  /** Adds a ConceptNode, a PredicateNode and an EvaluationLink to a fresh
      store and queries each type. */
  method TestAtomSpace() returns (conceptId: string, predicateId: string, linkId: string,
                                  concepts: seq<Atom>, predicates: seq<Atom>, links: seq<Atom>)
    ensures conceptId == "atom_1" && predicateId == "atom_2" && linkId == "atom_3"
    ensures |concepts| == 1 && "name" in concepts[0] && concepts[0]["name"] == Str("Theia")
    ensures "id" in concepts[0] && concepts[0]["id"] == Str("atom_1")
    ensures |predicates| == 1 && "name" in predicates[0] && predicates[0]["name"] == Str("is_ide")
    ensures "id" in predicates[0] && predicates[0]["id"] == Str("atom_2")
    ensures |links| == 1 && "outgoing" in links[0] && links[0]["outgoing"] == Arr([Str("atom_2"), Str("atom_1")])
    ensures "id" in links[0] && links[0]["id"] == Str("atom_3")
  {
    FirstIds();
    var store := new AtomSpaceService();
    conceptId := store.AddAtom(ConceptAtom());
    predicateId := store.AddAtom(PredicateAtom());
    linkId := store.AddAtom(LinkAtom(predicateId, conceptId));
    assert store.atoms == DemoStore();
    DemoFields();
    DemoQueries();

    concepts := store.QueryAtoms(TypeIs("ConceptNode"));
    predicates := store.QueryAtoms(TypeIs("PredicateNode"));
    links := store.QueryAtoms(TypeIs("EvaluationLink"));
  }
}
