/** Constraint features (data/convert.py:154-185): every distinct constraint
    string is parsed once into an interval, the interval is probed for the
    kinds of upgrade it admits, and the resulting record is joined back onto
    every dependency row with that constraint. */
module Features {
  import opened Options
  import opened Seqs
  import opened Versions
  import opened Intervals
  import opened Dependencies

  /** `i_empty`, `i_major`, `i_minor`, `i_patch`, `i_dev`. */
  datatype Flags = Flags(empty: bool, major: bool, minor: bool, patch: bool, dev: bool)

  /** One entry of the per-constraint table: the interval and its flags. */
  datatype FeatureRecord = FeatureRecord(interval: Interval, flags: Flags)

  /** `Version(inf, 0, 0)`: above every finite major. */
  const MajorProbe: Version := Version(Inf, Fin(0), Fin(0))

  /** `Version(1, 0, 0)`: the first stable version. */
  const FirstStable: Version := Version(Fin(1), Fin(0), Fin(0))

  /** `Version(base.major, inf, 0)`: above every minor of the lower bound's major. */
  function MinorProbe(base: Version): Version {
    Version(base.major, Inf, Fin(0))
  }

  /** `Version(base.major, base.minor, inf)`: above every patch of the lower
      bound's major and minor. */
  function PatchProbe(base: Version): Version {
    Version(base.major, base.minor, Inf)
  }

  /** Lines 159-171: the record of one parsed constraint. An empty interval
      has `i_empty` set and every other flag clear. */
  function Derive(i: Interval): (f: FeatureRecord)
    ensures f.interval == i
    ensures f.flags.empty <==> IsEmpty(i)
    ensures IsEmpty(i) ==> !f.flags.major && !f.flags.minor && !f.flags.patch && !f.flags.dev
  {
    if IsEmpty(i) then FeatureRecord(i, Flags(true, false, false, false, false))
    else
      var base := i.lower;
      FeatureRecord(i, Flags(
        false,
        Contains(i, MajorProbe),
        Contains(i, MinorProbe(base)),
        Contains(i, PatchProbe(base)),
        LiesBelow(i, FirstStable)))
  }

  /** `i_major` means the interval admits every release from its lower bound
      on, whatever its major. */
  lemma MajorFlagMeaning(i: Interval, t: Triple)
    requires Derive(i).flags.major
    requires AboveLower(i, FromTriple(t))
    ensures Contains(i, FromTriple(t))
  {
    VersionLessStrictTotal(FromTriple(t), MajorProbe, i.upper);
  }

  /** `i_minor` means the interval admits every release from its lower bound
      on that keeps the lower bound's major. */
  lemma MinorFlagMeaning(i: Interval, t: Triple)
    requires Derive(i).flags.minor
    requires Fin(t.major) == i.lower.major
    requires AboveLower(i, FromTriple(t))
    ensures Contains(i, FromTriple(t))
  {
    VersionLessStrictTotal(FromTriple(t), MinorProbe(i.lower), i.upper);
  }

  /** `i_patch` means the interval admits every release from its lower bound
      on that keeps the lower bound's major and minor. */
  lemma PatchFlagMeaning(i: Interval, t: Triple)
    requires Derive(i).flags.patch
    requires Fin(t.major) == i.lower.major && Fin(t.minor) == i.lower.minor
    requires AboveLower(i, FromTriple(t))
    ensures Contains(i, FromTriple(t))
  {
    VersionLessStrictTotal(FromTriple(t), PatchProbe(i.lower), i.upper);
  }

  /** `i_dev` means every version the interval admits has major 0. */
  lemma DevFlagMeaning(i: Interval, v: Version)
    requires Derive(i).flags.dev
    requires Contains(i, v)
    ensures v.major == Fin(0)
  {
    LiesBelowBoundsMembers(i, FirstStable, v);
  }

  /** With a finite lower bound the flags are nested: admitting a new major
      implies admitting a new minor, which implies admitting a new patch; and
      a dev interval never admits a new major. */
  lemma FlagsNested(i: Interval)
    requires i.Range? ==> IsFinite(i.lower)
    ensures Derive(i).flags.major ==> Derive(i).flags.minor
    ensures Derive(i).flags.minor ==> Derive(i).flags.patch
    ensures Derive(i).flags.dev ==> !Derive(i).flags.major
  {
    if !IsEmpty(i) {
      var base := i.lower;
      VersionLessStrictTotal(base, MinorProbe(base), MajorProbe);
      VersionLessStrictTotal(MinorProbe(base), MajorProbe, i.upper);
      VersionLessStrictTotal(base, PatchProbe(base), MinorProbe(base));
      VersionLessStrictTotal(PatchProbe(base), MinorProbe(base), i.upper);
      if Derive(i).flags.dev && Derive(i).flags.major {
        DevFlagMeaning(i, MajorProbe);
      }
    }
  }

  /** The constraint column of the linked dependency rows. */
  function ConstraintOf(d: RankedDependency): string {
    d.constraint
  }

  /** The constraint strings the rows use. */
  function ConstraintsOf(deps: seq<RankedDependency>): set<string> {
    set d | d in deps :: d.constraint
  }

  /** One item of the `intervals` dict: a constraint string and its record. */
  datatype Entry = Entry(constraint: string, record: FeatureRecord)

  function EntryKey(e: Entry): string {
    e.constraint
  }

  /** The keys of the feature table. */
  function KeysOf(table: seq<Entry>): set<string> {
    set e | e in table :: e.constraint
  }

  /** Lines 155-173: parse each distinct constraint once and record its
      features. The dict is kept as its items in insertion order, the order
      `DataFrame.from_dict(orient='index')` turns them into rows. It has one
      item per distinct constraint of the rows, each item is what direct
      parsing gives, and the parser runs once per item. */
  method BuildFeatureTable(deps: seq<RankedDependency>, parse: string -> Interval)
    returns (table: seq<Entry>, parses: nat)
    ensures KeysOf(table) == ConstraintsOf(deps)
    ensures NoDuplicates(Map(EntryKey, table))
    ensures forall e | e in table :: e.record == Derive(parse(e.constraint))
    ensures parses == |table|
  {
    var distinct := Distinct(Map(ConstraintOf, deps));
    table := [];
    parses := 0;
    var k := 0;
    while k < |distinct|
      invariant k <= |distinct|
      invariant |table| == k == parses
      invariant forall j :: 0 <= j < k ==> table[j] == Entry(distinct[j], Derive(parse(distinct[j])))
    {
      var c := distinct[k];
      table := table + [Entry(c, Derive(parse(c)))];
      parses := parses + 1;
      k := k + 1;
    }
    assert Map(EntryKey, table) == distinct;
    DistinctConstraints(deps, table);
  }

  /** The distinct constraint strings are exactly the constraint column's
      values, so a table keyed by the former is keyed by the latter. */
  lemma DistinctConstraints(deps: seq<RankedDependency>, table: seq<Entry>)
    requires Map(EntryKey, table) == Distinct(Map(ConstraintOf, deps))
    ensures KeysOf(table) == ConstraintsOf(deps)
  {
    var column := Map(ConstraintOf, deps);
    var keys := Map(EntryKey, table);
    var stored := KeysOf(table);
    var used := ConstraintsOf(deps);
    forall c | c in stored ensures c in used {
      var e :| e in table && e.constraint == c;
      var i :| 0 <= i < |table| && table[i] == e;
      assert keys[i] == c && c in keys && c in column;
      var j :| 0 <= j < |deps| && column[j] == c;
      assert deps[j] in deps;
    }
    forall c | c in used ensures c in stored {
      var d :| d in deps && d.constraint == c;
      var j :| 0 <= j < |deps| && deps[j] == d;
      assert column[j] == c && c in column && c in keys;
      var i :| 0 <= i < |table| && keys[i] == c;
      assert table[i] in table;
    }
  }

  /** The record stored under `c`, if any: the first item with that key. */
  function Lookup(table: seq<Entry>, c: string): (r: Option<FeatureRecord>)
    ensures r.None? <==> forall e :: e in table ==> e.constraint != c
    ensures r.Some? ==> Entry(c, r.value) in table
  {
    if |table| == 0 then None
    else if table[0].constraint == c then Some(table[0].record)
    else Lookup(table[1..], c)
  }

  /** The records of every item whose key is `c`, in table order: the
      right-hand rows an equality join on `c` pairs with. */
  function Matches(table: seq<Entry>, c: string): (r: seq<FeatureRecord>)
    ensures forall f :: f in r <==> Entry(c, f) in table
  {
    if |table| == 0 then []
    else (if table[0].constraint == c then [table[0].record] else []) + Matches(table[1..], c)
  }

  /** A dependency row with the features of its constraint; `None` stands for
      the missing cells a left merge leaves when the constraint has no entry. */
  datatype AnnotatedDependency = AnnotatedDependency(dep: RankedDependency, features: Option<FeatureRecord>)

  /** The rows a left merge emits for one left row: one per matching item, or
      a single row with missing cells when nothing matches. */
  function MergeRow(d: RankedDependency, table: seq<Entry>): (r: seq<AnnotatedDependency>)
    ensures |r| >= 1
    ensures forall x :: x in r ==> x.dep == d
    ensures forall x :: x in r && x.features.Some? ==> Entry(d.constraint, x.features.value) in table
    ensures (exists e :: e in table && e.constraint == d.constraint) ==> forall x :: x in r ==> x.features.Some?
    ensures (forall e :: e in table ==> e.constraint != d.constraint) ==> r == [AnnotatedDependency(d, None)]
    ensures |Matches(table, d.constraint)| > 0 ==>
      (|r| == |Matches(table, d.constraint)|
       && forall i :: 0 <= i < |r| ==> r[i].features == Some(Matches(table, d.constraint)[i]))
  {
    var m := Matches(table, d.constraint);
    if |m| == 0 then [AnnotatedDependency(d, None)]
    else
      assert m[0] in m && Entry(d.constraint, m[0]) in table;
      seq(|m|, i requires 0 <= i < |m| => AnnotatedDependency(d, Some(m[i])))
  }

  /** Lines 177-186: `merge(how='left', left_on='constraint', right_index=True)`
      against the rows of the feature table. Every left row is kept, in order,
      with at least one output row; an output row only ever carries an item
      of its own constraint. */
  function Annotate(deps: seq<RankedDependency>, table: seq<Entry>): (r: seq<AnnotatedDependency>)
    ensures |r| >= |deps|
    ensures forall x :: x in r ==> x.dep in deps
    ensures forall x :: x in r && x.features.Some? ==> Entry(x.dep.constraint, x.features.value) in table
    ensures forall d :: d in deps ==> exists x :: x in r && x.dep == d
  {
    if |deps| == 0 then []
    else
      var m := MergeRow(deps[0], table);
      assert m[0] in m + Annotate(deps[1..], table);
      assert forall d :: d in deps ==> d == deps[0] || d in deps[1..];
      m + Annotate(deps[1..], table)
  }

  /** With unique keys, a constraint matches at most one item: the one
      `Lookup` finds. */
  lemma {:induction false} UniqueKeyMatchesLookup(table: seq<Entry>, c: string)
    requires NoDuplicates(Map(EntryKey, table))
    ensures Matches(table, c) == if Lookup(table, c).Some? then [Lookup(table, c).value] else []
  {
    if |table| > 0 {
      var tail := table[1..];
      assert NoDuplicates(Map(EntryKey, tail)) by {
        forall i, j | 0 <= i < j < |tail| ensures Map(EntryKey, tail)[i] != Map(EntryKey, tail)[j] {
          assert Map(EntryKey, tail)[i] == Map(EntryKey, table)[i + 1];
          assert Map(EntryKey, tail)[j] == Map(EntryKey, table)[j + 1];
        }
      }
      UniqueKeyMatchesLookup(tail, c);
      if table[0].constraint == c {
        forall e | e in tail ensures e.constraint != c {
          var j :| 0 <= j < |tail| && tail[j] == e;
          assert Map(EntryKey, table)[0] != Map(EntryKey, table)[j + 1];
        }
        assert Lookup(tail, c).None?;
      }
    }
  }

  /** With unique keys, a left row yields exactly one output row. */
  lemma MergeRowWithUniqueKeys(d: RankedDependency, table: seq<Entry>)
    requires NoDuplicates(Map(EntryKey, table))
    ensures MergeRow(d, table) == [AnnotatedDependency(d, Lookup(table, d.constraint))]
  {
    UniqueKeyMatchesLookup(table, d.constraint);
  }

  /** When the feature table has one item per key, as a dict does, the left
      merge emits exactly one row per dependency, in place, carrying the item
      stored under its constraint, or missing cells when there is none. */
  lemma {:induction false} AnnotateWithUniqueKeys(deps: seq<RankedDependency>, table: seq<Entry>)
    requires NoDuplicates(Map(EntryKey, table))
    ensures |Annotate(deps, table)| == |deps|
    ensures forall i :: 0 <= i < |deps| ==>
      Annotate(deps, table)[i] == AnnotatedDependency(deps[i], Lookup(table, deps[i].constraint))
  {
    if |deps| > 0 {
      AnnotateWithUniqueKeys(deps[1..], table);
      MergeRowWithUniqueKeys(deps[0], table);
      PrependLookedUp(deps, table, Annotate(deps[1..], table));
      assert Annotate(deps, table) ==
        [AnnotatedDependency(deps[0], Lookup(table, deps[0].constraint))] + Annotate(deps[1..], table);
    }
  }

  /** The looked-up row of the first dependency in front of those of the
      rest gives the looked-up rows of all of them. */
  lemma PrependLookedUp(deps: seq<RankedDependency>, table: seq<Entry>, tail: seq<AnnotatedDependency>)
    requires |deps| > 0 && |tail| == |deps| - 1
    requires forall i :: 0 <= i < |tail| ==>
      tail[i] == AnnotatedDependency(deps[1..][i], Lookup(table, deps[1..][i].constraint))
    ensures forall i :: 0 <= i < |deps| ==>
      ([AnnotatedDependency(deps[0], Lookup(table, deps[0].constraint))] + tail)[i]
        == AnnotatedDependency(deps[i], Lookup(table, deps[i].constraint))
  {
    var r := [AnnotatedDependency(deps[0], Lookup(table, deps[0].constraint))] + tail;
    forall i | 0 < i < |deps| ensures r[i] == AnnotatedDependency(deps[i], Lookup(table, deps[i].constraint)) {
      assert r[i] == tail[i - 1] && deps[i] == deps[1..][i - 1];
    }
  }

  /** Joining the memoised table gives every row exactly the record that
      parsing its own constraint directly would give. */
  lemma AnnotationIsDirectDerivation(deps: seq<RankedDependency>, table: seq<Entry>,
                                     parse: string -> Interval, i: int)
    requires KeysOf(table) == ConstraintsOf(deps)
    requires NoDuplicates(Map(EntryKey, table))
    requires forall e | e in table :: e.record == Derive(parse(e.constraint))
    requires 0 <= i < |deps|
    ensures |Annotate(deps, table)| == |deps|
    ensures Annotate(deps, table)[i] == AnnotatedDependency(deps[i], Some(Derive(parse(deps[i].constraint))))
  {
    LookupFindsDerivation(deps, table, parse, i);
    AnnotateWithUniqueKeys(deps, table);
  }

  /** The constraint of any row is found in a table keyed by the constraint
      column, with its derivation. */
  lemma LookupFindsDerivation(deps: seq<RankedDependency>, table: seq<Entry>,
                              parse: string -> Interval, i: int)
    requires KeysOf(table) == ConstraintsOf(deps)
    requires forall e | e in table :: e.record == Derive(parse(e.constraint))
    requires 0 <= i < |deps|
    ensures Lookup(table, deps[i].constraint) == Some(Derive(parse(deps[i].constraint)))
  {
    var c := deps[i].constraint;
    assert deps[i] in deps;
    assert c in ConstraintsOf(deps);
    assert c in KeysOf(table);
    var e :| e in table && e.constraint == c;
    assert Lookup(table, c).Some?;
  }

  /** Rows with the same constraint string receive the same features. */
  lemma SameConstraintSameFeatures(deps: seq<RankedDependency>, table: seq<Entry>, i: int, j: int)
    requires NoDuplicates(Map(EntryKey, table))
    requires 0 <= i < |deps| && 0 <= j < |deps|
    requires deps[i].constraint == deps[j].constraint
    ensures |Annotate(deps, table)| == |deps|
    ensures Annotate(deps, table)[i].features == Annotate(deps, table)[j].features
  {
    AnnotateWithUniqueKeys(deps, table);
  }

  /** The flags of common constraints. Parsing is a parameter of this model,
      so the intervals are written out with their standard semver meanings:
      the caret `^1.2.3` is `[1.2.3, 2.0.0)`, the caret `^0.4.2` is
      `[0.4.2, 0.5.0)`, the tilde `~1.2.3` is `[1.2.3, 1.3.0)`, the pin `1.2.3`
      is `[1.2.3, 1.2.3]`, and an unparseable constraint is empty. */
  lemma CaretTildePinExamples()
    ensures Derive(Range(Version(Fin(1), Fin(2), Fin(3)), true, Version(Fin(2), Fin(0), Fin(0)), false)).flags
      == Flags(false, false, true, true, false)
    ensures Derive(Range(Version(Fin(0), Fin(4), Fin(2)), true, Version(Fin(0), Fin(5), Fin(0)), false)).flags
      == Flags(false, false, false, true, true)
    ensures Derive(Range(Version(Fin(1), Fin(2), Fin(3)), true, Version(Fin(1), Fin(3), Fin(0)), false)).flags
      == Flags(false, false, false, true, false)
    ensures Derive(Range(Version(Fin(1), Fin(2), Fin(3)), true, Version(Fin(1), Fin(2), Fin(3)), true)).flags
      == Flags(false, false, false, false, false)
    ensures Derive(Empty).flags == Flags(true, false, false, false, false)
  {
  }
}
