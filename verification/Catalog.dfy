/** The dependency catalog (internal/deps/catalog.go): a two-level index over the hand-written and
    the imported entries, and the lookup that a scan makes for every dependency. */
module Catalog {
  import opened Text
  import opened Versions

  datatype CatalogEntry = CatalogEntry(
    ecosystem: string, name: string, affectedVersions: string, ruleID: string,
    severity: string, reason: string, remediation: string, reference: string)

  datatype IndexedEntry = IndexedEntry(entry: CatalogEntry, constraints: seq<Constraint>)

  // ----- The linear scan that the index stands for ---------------------------

  /** Whether one catalog entry applies to a dependency, decided on its own: the ecosystem and the name
      agree up to case, its constraint text parses, and it admits the version. A dependency
      without a version is only reported for entries without constraints. */
  predicate Applies(e: CatalogEntry, ecosystem: string, name: string, version: string, lower: string -> string) {
    && lower(e.ecosystem) == lower(ecosystem)
    && lower(e.name) == lower(name)
    && match ConstraintsOf(e.affectedVersions)
       case None => false
       case Some(cs) => if version == "" then cs == [] else Satisfies(cs, VersionOf(version))
  }

  /** The entries of a catalog that apply, in catalog order. */
  function Scan(entries: seq<CatalogEntry>, ecosystem: string, name: string, version: string,
                lower: string -> string): seq<CatalogEntry>
  {
    if entries == [] then []
    else
      var last := entries[|entries| - 1];
      Scan(entries[..|entries| - 1], ecosystem, name, version, lower) +
      (if Applies(last, ecosystem, name, version, lower) then [last] else [])
  }

  // ----- What the index holds ---------------------------------------------------

  predicate Filed(e: CatalogEntry, eco: string, key: string, lower: string -> string) {
    lower(e.ecosystem) == eco && lower(e.name) == key && ConstraintsOf(e.affectedVersions).Some?
  }

  /** The bucket of the index for folded ecosystem and name. */
  function Bucket(entries: seq<CatalogEntry>, eco: string, key: string, lower: string -> string): seq<IndexedEntry> {
    if entries == [] then []
    else
      var last := entries[|entries| - 1];
      Bucket(entries[..|entries| - 1], eco, key, lower) +
      (if Filed(last, eco, key, lower) then [IndexedEntry(last, ConstraintsOf(last.affectedVersions).value)] else [])
  }

  type Index = map<string, map<string, seq<IndexedEntry>>>

  function At(index: Index, eco: string, key: string): seq<IndexedEntry> {
    if eco in index && key in index[eco] then index[eco][key] else []
  }

  /** The index files exactly the given entries. */
  ghost predicate Indexes(index: Index, entries: seq<CatalogEntry>, lower: string -> string) {
    forall eco, key :: At(index, eco, key) == Bucket(entries, eco, key, lower)
  }

  /** An entry goes to the end of its one bucket, unless its constraint text is malformed. */
  function Addition(e: CatalogEntry, eco: string, key: string, lower: string -> string): seq<IndexedEntry> {
    if Filed(e, eco, key, lower) then [IndexedEntry(e, ConstraintsOf(e.affectedVersions).value)] else []
  }

  lemma IndexesOneMore(was: Index, now: Index, entries: seq<CatalogEntry>, e: CatalogEntry, lower: string -> string)
    requires Indexes(was, entries, lower)
    requires forall eco, key :: At(now, eco, key) == At(was, eco, key) + Addition(e, eco, key, lower)
    ensures Indexes(now, entries + [e], lower)
  {
    assert (entries + [e])[..|entries|] == entries;
    forall eco, key ensures At(now, eco, key) == Bucket(entries + [e], eco, key, lower) {
      assert At(was, eco, key) == Bucket(entries, eco, key, lower);
    }
  }

  /** Filing a parsed entry in its bucket indexes one more entry. */
  lemma FiledInBucket(
    index: Index, entries: seq<CatalogEntry>, e: CatalogEntry, cs: seq<Constraint>, lower: string -> string)
    requires Indexes(index, entries, lower)
    requires ConstraintsOf(e.affectedVersions) == Some(cs)
    requires lower(e.ecosystem) in index
    ensures var eco, key := lower(e.ecosystem), lower(e.name);
            Indexes(index[eco := index[eco][key := At(index, eco, key) + [IndexedEntry(e, cs)]]], entries + [e], lower)
  {
    var eco, key := lower(e.ecosystem), lower(e.name);
    var now := index[eco := index[eco][key := At(index, eco, key) + [IndexedEntry(e, cs)]]];
    forall c, k ensures At(now, c, k) == At(index, c, k) + Addition(e, c, k, lower) {
      assert Addition(e, c, k, lower) == if c == eco && k == key then [IndexedEntry(e, cs)] else [];
    }
    IndexesOneMore(index, now, entries, e, lower);
  }

  /** A malformed entry is skipped, and so is an empty ecosystem created for it. */
  lemma SkippedEntry(was: Index, now: Index, entries: seq<CatalogEntry>, e: CatalogEntry, lower: string -> string)
    requires Indexes(was, entries, lower)
    requires forall c, k :: At(now, c, k) == At(was, c, k)
    requires ConstraintsOf(e.affectedVersions).None?
    ensures Indexes(now, entries + [e], lower)
  {
    IndexesOneMore(was, now, entries, e, lower);
  }

  /** The entries of a bucket that a lookup keeps. */
  function Keep(bucket: seq<IndexedEntry>, version: string): seq<CatalogEntry> {
    if bucket == [] then []
    else
      var last := bucket[|bucket| - 1];
      Keep(bucket[..|bucket| - 1], version) +
      (if (if version == "" then last.constraints == [] else Satisfies(last.constraints, VersionOf(version)))
       then [last.entry] else [])
  }

  /** Filtering the right bucket is the linear scan. */
  lemma {:induction false} KeepIsScan(entries: seq<CatalogEntry>, ecosystem: string, name: string, version: string,
                                      lower: string -> string)
    ensures Keep(Bucket(entries, lower(ecosystem), lower(name), lower), version)
            == Scan(entries, ecosystem, name, version, lower)
  {
    if entries != [] {
      var init, last := entries[..|entries| - 1], entries[|entries| - 1];
      var eco, key := lower(ecosystem), lower(name);
      KeepIsScan(init, ecosystem, name, version, lower);
      var bucket := Bucket(entries, eco, key, lower);
      if Filed(last, eco, key, lower) {
        assert bucket[..|bucket| - 1] == Bucket(init, eco, key, lower);
      } else {
        assert bucket == Bucket(init, eco, key, lower);
      }
    }
  }

  class CatalogIndex {
    var index: Index
    ghost var filed: seq<CatalogEntry>
    const lower: string -> string

    ghost predicate Valid()
      reads this
    {
      Indexes(index, filed, lower)
    }

    /** The package initialiser: the hand-written catalog, then the imported one. */
    constructor (catalog: seq<CatalogEntry>, osvCatalog: seq<CatalogEntry>, lower: string -> string)
      ensures Valid() && filed == catalog + osvCatalog && this.lower == lower
    {
      index := map[];
      filed := [];
      this.lower := lower;
      new;
      IndexEntries(catalog);
      IndexEntries(osvCatalog);
      assert [] + catalog + osvCatalog == catalog + osvCatalog;
    }

    method IndexEntries(src: seq<CatalogEntry>)
      requires Valid()
      modifies this
      ensures Valid() && filed == old(filed) + src
    {
      hide ConstraintsOf, Bucket, Addition;
      for i := 0 to |src|
        invariant Valid() && filed == old(filed) + src[..i]
      {
        var e := src[i];
        ghost var was := index;
        assert old(filed) + src[..i + 1] == filed + [e];
        var eco := lower(e.ecosystem);
        if eco !in index {
          index := index[eco := map[]];
        }
        assert forall c, k :: At(index, c, k) == At(was, c, k);
        var cs := ParseConstraints(e.affectedVersions);
        if cs.None? {
          SkippedEntry(was, index, filed, e, lower);
          filed := filed + [e];
          continue;
        }
        var key := lower(e.name);
        var bucket := if key in index[eco] then index[eco][key] else [];
        FiledInBucket(index, filed, e, cs.value, lower);
        index := index[eco := index[eco][key := bucket + [IndexedEntry(e, cs.value)]]];
        filed := filed + [e];
      }
      assert src[..|src|] == src;
    }

    /** The lookup through the index is the linear scan of everything that was filed. */
    method Lookup(ecosystem: string, name: string, version: string) returns (out: seq<CatalogEntry>)
      requires Valid()
      ensures out == Scan(filed, ecosystem, name, version, lower)
    {
      KeepIsScan(filed, ecosystem, name, version, lower);
      var eco, key := lower(ecosystem), lower(name);
      assert At(index, eco, key) == Bucket(filed, eco, key, lower);
      out := [];
      if eco !in index {
        return;
      }
      if key !in index[eco] {
        return;
      }
      var entries := index[eco][key];
      if version == "" {
        for i := 0 to |entries|
          invariant out == Keep(entries[..i], version)
        {
          assert entries[..i + 1][..i] == entries[..i];
          if |entries[i].constraints| == 0 {
            out := out + [entries[i].entry];
          }
        }
        assert entries[..|entries|] == entries;
        return;
      }
      var v := ParseVersion(version);
      for i := 0 to |entries|
        invariant out == Keep(entries[..i], version)
      {
        assert entries[..i + 1][..i] == entries[..i];
        var ok := MatchAll(entries[i].constraints, v);
        if ok {
          out := out + [entries[i].entry];
        }
      }
      assert entries[..|entries|] == entries;
    }
  }

  // ----- Laws of the scan -----------------------------------------------------------

  /** Hand-written and imported entries compose: the results of the one precede the results of the other. */
  lemma {:induction false} ScanConcat(a: seq<CatalogEntry>, b: seq<CatalogEntry>, ecosystem: string, name: string,
                                      version: string, lower: string -> string)
    ensures Scan(a + b, ecosystem, name, version, lower)
            == Scan(a, ecosystem, name, version, lower) + Scan(b, ecosystem, name, version, lower)
  {
    if b == [] {
      assert a + b == a;
    } else {
      assert (a + b)[..|a + b| - 1] == a + b[..|b| - 1];
      ScanConcat(a, b[..|b| - 1], ecosystem, name, version, lower);
    }
  }

  /** Membership, with multiplicity: the scan keeps every occurrence of an applicable entry and no other. */
  lemma {:induction false} ScanMembers(entries: seq<CatalogEntry>, ecosystem: string, name: string, version: string,
                                       lower: string -> string, e: CatalogEntry)
    ensures multiset(Scan(entries, ecosystem, name, version, lower))[e]
            == if Applies(e, ecosystem, name, version, lower) then multiset(entries)[e] else 0
  {
    if entries != [] {
      var init, last := entries[..|entries| - 1], entries[|entries| - 1];
      assert entries == init + [last];
      ScanMembers(init, ecosystem, name, version, lower, e);
    }
  }

  /** Case never matters to a lookup, provided folding is idempotent. */
  lemma {:induction false} ScanIgnoresCase(entries: seq<CatalogEntry>, ecosystem: string, name: string, version: string,
                                           lower: string -> string)
    requires forall s :: lower(lower(s)) == lower(s)
    ensures Scan(entries, lower(ecosystem), lower(name), version, lower)
            == Scan(entries, ecosystem, name, version, lower)
  {
    if entries != [] {
      ScanIgnoresCase(entries[..|entries| - 1], ecosystem, name, version, lower);
    }
  }

  /** A catalog that splits a package at version c, one entry below and one from c on, reports every
      pinned version exactly once. */
  lemma SplitEntriesReportOnce(
    below: CatalogEntry, above: CatalogEntry, c: Version, version: string, lower: string -> string)
    requires lower(below.ecosystem) == lower(above.ecosystem) && lower(below.name) == lower(above.name)
    requires ConstraintsOf(below.affectedVersions) == Some([Constraint(OpLT, c)])
    requires ConstraintsOf(above.affectedVersions) == Some([Constraint(OpGE, c)])
    ensures |Scan([below, above], below.ecosystem, below.name, version, lower)| == if version == "" then 0 else 1
  {
    var es := [below, above];
    var eco, name := below.ecosystem, below.name;
    assert es[..1] == [below] && es[..1][..0] == [];
    assert Scan([below], eco, name, version, lower) ==
           if Applies(below, eco, name, version, lower) then [below] else [];
    if version != "" {
      var v := VersionOf(version);
      SingleClause(Constraint(OpLT, c), v);
      SingleClause(Constraint(OpGE, c), v);
    }
  }

  lemma SingleClause(c: Constraint, v: Version)
    ensures Satisfies([c], v) <==> c.Matches(v)
  {
    assert [c][0] == c;
  }

  /** To a dependency without a version only entries without constraints apply. */
  lemma AppliesUnpinned(e: CatalogEntry, ecosystem: string, name: string, lower: string -> string)
    ensures Applies(e, ecosystem, name, "", lower) <==>
            && lower(e.ecosystem) == lower(ecosystem) && lower(e.name) == lower(name)
            && TrimSpace(e.affectedVersions) == ""
  {
    hide TrimSpace, MapAll;
    var s := TrimSpace(e.affectedVersions);
    if s != "" {
      SomeClause(Split(s, ','));
    }
  }

  lemma SomeClause(parts: seq<string>)
    requires parts != []
    ensures MapAll(parts, PartClause) != Some([])
  {}
}
