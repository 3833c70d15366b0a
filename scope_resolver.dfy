/**
 * Scope resolution of the converter's parser (`PanoramaParser`).
 *
 * Every `parse_*` method scans an ordered list of scope paths and builds a
 * catalog of named objects. The matches of one path are given here as a
 * sequence of abstract entries, in document order, and the paths as a
 * sequence of those sequences, in the order the method lists them (overlap
 * between paths, such as a `.//address/entry` path that also matches the
 * device-group and shared entries, is simply present in the input twice).
 *
 * Two strategies exist:
 *  - first-seen-wins (tags, regions, rules, zones, profiles, ...): the first
 *    entry with a given name is kept, later ones are ignored;
 *  - content-overrides (address objects and groups, services and service
 *    groups): reference-only stubs are dropped, an entry that carries
 *    content overwrites any earlier record for its name, any other entry is
 *    stored only when its name is new; output keeps first-insertion order.
 *
 * An empty name stands for both a missing and an empty `name` attribute:
 * the source skips both alike.
 */
module ScopeResolver {
  import opened Wrappers

  /** The matches of every scope path, concatenated in path order. */
  function Concat<E(==)>(scopes: seq<seq<E>>): seq<E>
  {
    if scopes == [] then [] else Concat(scopes[..|scopes| - 1]) + scopes[|scopes| - 1]
  }

  /** The set of names carried by the entries of `es`. */
  function NamesOf<E(==)>(es: seq<E>, nameOf: E -> string): set<string>
  {
    set e | e in es :: nameOf(e)
  }

  /** The names of the entries of `es`, in order. */
  function NameSeq<E(==)>(es: seq<E>, nameOf: E -> string): seq<string>
  {
    seq(|es|, i requires 0 <= i < |es| => nameOf(es[i]))
  }

  lemma NamesOfAppend<E>(es: seq<E>, e: E, nameOf: E -> string)
    ensures NamesOf(es + [e], nameOf) == NamesOf(es, nameOf) + {nameOf(e)}
  {
    var l, r := NamesOf(es + [e], nameOf), NamesOf(es, nameOf) + {nameOf(e)};
    forall n | n in l ensures n in r {
      var x :| x in es + [e] && nameOf(x) == n;
      if x != e { assert x in es; }
    }
    forall n | n in r ensures n in l {
      if n != nameOf(e) {
        var x :| x in es && nameOf(x) == n;
        assert x in es + [e];
      } else {
        assert e in es + [e];
      }
    }
  }

  // ---------------------------------------------------------------------
  // First-seen-wins
  // ---------------------------------------------------------------------

  /**
   * The catalog a first-seen-wins resolver builds from the entries `es`,
   * taken one by one: an entry is appended when it has a name and no entry
   * with that name has been appended before.
   */
  function FirstSeen<E(==)>(es: seq<E>, nameOf: E -> string): seq<E>
  {
    if es == [] then []
    else
      var kept := FirstSeen(es[..|es| - 1], nameOf);
      var e := es[|es| - 1];
      if nameOf(e) == "" || nameOf(e) in NamesOf(kept, nameOf) then kept else kept + [e]
  }

  /** The index of the first entry of `es` named `n`, or `|es|` when there is none. */
  function FirstIndex<E(==)>(es: seq<E>, nameOf: E -> string, n: string): (i: nat)
    ensures i <= |es|
    ensures i < |es| ==> nameOf(es[i]) == n
    ensures forall j :: 0 <= j < i ==> nameOf(es[j]) != n
  {
    if es == [] then 0
    else
      var i := FirstIndex(es[..|es| - 1], nameOf, n);
      if i < |es| - 1 then i
      else if nameOf(es[|es| - 1]) == n then |es| - 1
      else |es|
  }

  lemma FirstIndexFound<E>(es: seq<E>, nameOf: E -> string, n: string)
    ensures FirstIndex(es, nameOf, n) < |es| <==> n in NamesOf(es, nameOf)
  {
    var i := FirstIndex(es, nameOf, n);
    if i < |es| {
      assert es[i] in es;
    }
  }

  /** The catalog holds exactly the non-empty names of its input. */
  lemma {:induction false} FirstSeenNames<E>(es: seq<E>, nameOf: E -> string)
    ensures NamesOf(FirstSeen(es, nameOf), nameOf) == NamesOf(es, nameOf) - {""}
  {
    if es != [] {
      var init, e := es[..|es| - 1], es[|es| - 1];
      FirstSeenNames(init, nameOf);
      assert es == init + [e];
      NamesOfAppend(init, e, nameOf);
      NamesOfAppend(FirstSeen(init, nameOf), e, nameOf);
    }
  }

  /** Every entry of `r` has a non-empty name, and no name occurs twice. */
  ghost predicate DistinctNames<E>(r: seq<E>, nameOf: E -> string)
  {
    && (forall k :: 0 <= k < |r| ==> nameOf(r[k]) != "")
    && (forall k, l :: 0 <= k < l < |r| ==> nameOf(r[k]) != nameOf(r[l]))
  }

  /** No name occurs twice in a first-seen catalog. */
  lemma {:induction false} FirstSeenDistinct<E>(es: seq<E>, nameOf: E -> string)
    ensures DistinctNames(FirstSeen(es, nameOf), nameOf)
  {
    if es != [] {
      var init, e := es[..|es| - 1], es[|es| - 1];
      FirstSeenDistinct(init, nameOf);
      var kept := FirstSeen(init, nameOf);
      if nameOf(e) != "" && nameOf(e) !in NamesOf(kept, nameOf) {
        var r := kept + [e];
        assert FirstSeen(es, nameOf) == r;
        forall k | 0 <= k < |kept| ensures nameOf(r[k]) != nameOf(e) {
          assert r[k] == kept[k] && kept[k] in kept;
        }
      } else {
        assert FirstSeen(es, nameOf) == kept;
      }
    }
  }

  /**
   * Each catalog entry is the first entry of the input with its name, and
   * the catalog lists them in the order those names were first discovered.
   */
  lemma {:induction false} FirstSeenFirstOccurrences<E>(es: seq<E>, nameOf: E -> string)
    ensures var r := FirstSeen(es, nameOf);
      && (forall k :: 0 <= k < |r| ==>
            FirstIndex(es, nameOf, nameOf(r[k])) < |es| && r[k] == es[FirstIndex(es, nameOf, nameOf(r[k]))])
      && (forall k, l :: 0 <= k < l < |r| ==>
            FirstIndex(es, nameOf, nameOf(r[k])) < FirstIndex(es, nameOf, nameOf(r[l])))
  {
    if es != [] {
      var init, e := es[..|es| - 1], es[|es| - 1];
      FirstSeenFirstOccurrences(init, nameOf);
      FirstSeenNames(init, nameOf);
      var kept := FirstSeen(init, nameOf);
      forall k | 0 <= k < |kept|
        ensures FirstIndex(es, nameOf, nameOf(kept[k])) == FirstIndex(init, nameOf, nameOf(kept[k])) < |init|
      {
      }
      if nameOf(e) != "" && nameOf(e) !in NamesOf(kept, nameOf) {
        FirstIndexFound(init, nameOf, nameOf(e));
        assert FirstIndex(es, nameOf, nameOf(e)) == |init|;
      }
    }
  }

  /**
   * First-seen-wins resolution, as `parse_tags` and its siblings do it:
   * scan the paths in order, skip nameless entries and names already seen,
   * append the rest.
   */
  method ResolveFirstSeen<E(==)>(scopes: seq<seq<E>>, nameOf: E -> string) returns (catalog: seq<E>)
    ensures catalog == FirstSeen(Concat(scopes), nameOf)
  {
    catalog := [];
    var seen: set<string> := {};
    for p := 0 to |scopes|
      invariant catalog == FirstSeen(Concat(scopes[..p]), nameOf)
      invariant seen == NamesOf(catalog, nameOf)
    {
      ghost var before := Concat(scopes[..p]);
      assert before + scopes[p][..0] == before;
      for j := 0 to |scopes[p]|
        invariant catalog == FirstSeen(before + scopes[p][..j], nameOf)
        invariant seen == NamesOf(catalog, nameOf)
      {
        var entry := scopes[p][j];
        var name := nameOf(entry);
        ghost var done := before + scopes[p][..j];
        assert before + scopes[p][..j + 1] == done + [entry];
        assert (done + [entry])[..|done|] == done;
        if name == "" || name in seen {
          continue;
        }
        NamesOfAppend(catalog, entry, nameOf);
        seen := seen + {name};
        catalog := catalog + [entry];
      }
      assert scopes[..p + 1][..p] == scopes[..p];
      assert scopes[p][..|scopes[p]|] == scopes[p];
    }
    assert scopes[..|scopes|] == scopes;
  }

  // ---------------------------------------------------------------------
  // Content-overrides
  // ---------------------------------------------------------------------

  /**
   * What a content-overrides resolver needs to know of an entry type: its
   * name, whether it is a reference-only stub, and whether it carries
   * content (for address objects: a value).
   */
  datatype Policy<!E> = Policy(nameOf: E -> string, isStub: E -> bool, hasContent: E -> bool)

  /** An entry that may enter the catalog: named and not a stub. */
  predicate Admitted<E(==)>(p: Policy<E>, e: E)
  {
    p.nameOf(e) != "" && !p.isStub(e)
  }

  /** An admitted entry that carries content, and so overwrites. */
  predicate Overriding<E(==)>(p: Policy<E>, e: E)
  {
    Admitted(p, e) && p.hasContent(e)
  }

  /** A dictionary keyed by name that remembers first-insertion order. */
  datatype Catalog<E> = Catalog(order: seq<string>, entries: map<string, E>)

  ghost predicate WellFormed<E>(c: Catalog<E>)
  {
    && (forall i, j :: 0 <= i < j < |c.order| ==> c.order[i] != c.order[j])
    && (forall n :: n in c.entries <==> n in c.order)
  }

  /** `c[n] = e`: a new key goes to the end, an existing one keeps its place. */
  function Store<E(==)>(c: Catalog<E>, n: string, e: E): Catalog<E>
  {
    Catalog(if n in c.entries then c.order else c.order + [n], c.entries[n := e])
  }

  lemma StoreWellFormed<E>(c: Catalog<E>, n: string, e: E)
    requires WellFormed(c)
    ensures WellFormed(Store(c, n, e))
  {
  }

  /** The value a catalog holds for `n`, if any. */
  function Lookup<E(==)>(c: Catalog<E>, n: string): Option<E>
  {
    if n in c.entries then Some(c.entries[n]) else None
  }

  /**
   * The catalog a content-overrides resolver builds from `es`, taken one by
   * one: stubs and nameless entries are dropped; an entry with content is
   * stored whatever was there; any other entry only when its name is new.
   */
  function Overrides<E(==)>(es: seq<E>, p: Policy<E>): Catalog<E>
  {
    if es == [] then Catalog([], map[]) else Absorb(Overrides(es[..|es| - 1], p), p, es[|es| - 1])
  }

  /** One step of `Overrides`: what entry `e` does to the catalog `c`. */
  function Absorb<E(==)>(c: Catalog<E>, p: Policy<E>, e: E): Catalog<E>
  {
    if Admitted(p, e) && (p.hasContent(e) || p.nameOf(e) !in c.entries) then Store(c, p.nameOf(e), e) else c
  }

  /** The admitted entries of `es`, in order. */
  function Admit<E(==)>(es: seq<E>, p: Policy<E>): seq<E>
  {
    if es == [] then []
    else Admit(es[..|es| - 1], p) + if Admitted(p, es[|es| - 1]) then [es[|es| - 1]] else []
  }

  /** The first admitted entry named `n`. */
  function FirstAdmitted<E(==)>(es: seq<E>, p: Policy<E>, n: string): (r: Option<E>)
    ensures r.Some? ==> r.value in es && Admitted(p, r.value) && p.nameOf(r.value) == n
  {
    if es == [] then None
    else
      var f := FirstAdmitted(es[..|es| - 1], p, n);
      if f.Some? then f
      else if Admitted(p, es[|es| - 1]) && p.nameOf(es[|es| - 1]) == n then Some(es[|es| - 1])
      else None
  }

  /** The last admitted entry named `n` that carries content. */
  function LastOverriding<E(==)>(es: seq<E>, p: Policy<E>, n: string): (r: Option<E>)
    ensures r.Some? ==> r.value in es && Overriding(p, r.value) && p.nameOf(r.value) == n
  {
    if es == [] then None
    else if Overriding(p, es[|es| - 1]) && p.nameOf(es[|es| - 1]) == n then Some(es[|es| - 1])
    else LastOverriding(es[..|es| - 1], p, n)
  }

  /**
   * The record that should end up under `n`: the last content-bearing
   * definition if there is one, otherwise the first admitted one.
   */
  function Winner<E(==)>(es: seq<E>, p: Policy<E>, n: string): Option<E>
  {
    var last := LastOverriding(es, p, n);
    if last.Some? then last else FirstAdmitted(es, p, n)
  }

  lemma {:induction false} OverridingIsAdmitted<E>(es: seq<E>, p: Policy<E>, n: string)
    ensures LastOverriding(es, p, n).Some? ==> FirstAdmitted(es, p, n).Some?
  {
    if es != [] {
      OverridingIsAdmitted(es[..|es| - 1], p, n);
    }
  }

  /**
   * The catalog maps every name to its winner: a name is present exactly
   * when some admitted entry carries it (so a stub never enters), a
   * content-bearing entry beats every earlier record for its name, and a
   * valueless entry is kept only if no content-bearing one exists and it
   * is the first.
   */
  lemma {:induction false} OverridesWinner<E>(es: seq<E>, p: Policy<E>)
    ensures forall n :: Lookup(Overrides(es, p), n) == Winner(es, p, n)
  {
    if es != [] {
      var init, e := es[..|es| - 1], es[|es| - 1];
      OverridesWinner(init, p);
      forall n ensures Lookup(Overrides(es, p), n) == Winner(es, p, n) {
        assert Lookup(Overrides(init, p), n) == Winner(init, p, n);
        OverridingIsAdmitted(init, p, n);
      }
    }
  }

  /** The catalog's keys are the names of the admitted entries. */
  lemma {:induction false} OverridesKeys<E>(es: seq<E>, p: Policy<E>)
    ensures WellFormed(Overrides(es, p))
    ensures Overrides(es, p).entries.Keys == NamesOf(Admit(es, p), p.nameOf)
  {
    if es != [] {
      var init, e := es[..|es| - 1], es[|es| - 1];
      OverridesKeys(init, p);
      var c := Overrides(init, p);
      if Admitted(p, e) {
        NamesOfAppend(Admit(init, p), e, p.nameOf);
        StoreWellFormed(c, p.nameOf(e), e);
      }
    }
  }

  /** Every stored record is an admitted entry of the input (never a stub), filed under its own name. */
  lemma OverridesEntriesAdmitted<E>(es: seq<E>, p: Policy<E>)
    ensures var c := Overrides(es, p);
      forall n :: n in c.entries ==> c.entries[n] in es && Admitted(p, c.entries[n]) && p.nameOf(c.entries[n]) == n
  {
    var c := Overrides(es, p);
    OverridesWinner(es, p);
    forall n | n in c.entries
      ensures c.entries[n] in es && Admitted(p, c.entries[n]) && p.nameOf(c.entries[n]) == n
    {
      assert Lookup(c, n) == Winner(es, p, n);
    }
  }

  /**
   * A full (non-stub, named) definition anywhere in the input guarantees a
   * record under its name, and that record is not a stub, whatever order the
   * stubs and definitions came in.
   */
  lemma FullDefinitionRetained<E>(es: seq<E>, p: Policy<E>, e: E)
    requires e in es && Admitted(p, e)
    ensures var c := Overrides(es, p);
      p.nameOf(e) in c.entries && !p.isStub(c.entries[p.nameOf(e)])
  {
    OverridesKeys(es, p);
    OverridesEntriesAdmitted(es, p);
    AdmitKeepsAdmitted(es, p, e);
  }

  lemma {:induction false} AdmitKeepsAdmitted<E>(es: seq<E>, p: Policy<E>, e: E)
    requires e in es && Admitted(p, e)
    ensures p.nameOf(e) in NamesOf(Admit(es, p), p.nameOf)
  {
    var init, last := es[..|es| - 1], es[|es| - 1];
    NamesOfAppend(Admit(init, p), last, p.nameOf);
    if e != last {
      assert e in init by {
        var k :| 0 <= k < |es| && es[k] == e;
        assert init[k] == e;
      }
      AdmitKeepsAdmitted(init, p, e);
    }
  }

  lemma {:induction false} LastOverridingFound<E>(es: seq<E>, p: Policy<E>, e: E)
    requires e in es && Overriding(p, e)
    ensures LastOverriding(es, p, p.nameOf(e)).Some?
  {
    var init, last := es[..|es| - 1], es[|es| - 1];
    if !(Overriding(p, last) && p.nameOf(last) == p.nameOf(e)) {
      assert e in init by {
        var k :| 0 <= k < |es| && es[k] == e;
        assert init[k] == e;
      }
      LastOverridingFound(init, p, e);
    }
  }

  /**
   * A stored record that carries content is the last content-bearing
   * definition of its name: a later valueless definition never displaces it.
   */
  lemma OverridesContentIsLast<E>(es: seq<E>, p: Policy<E>)
    ensures var c := Overrides(es, p);
      forall n :: n in c.entries && p.hasContent(c.entries[n]) ==> Some(c.entries[n]) == LastOverriding(es, p, n)
  {
    var c := Overrides(es, p);
    OverridesEntriesAdmitted(es, p);
    OverridesWinner(es, p);
    forall n | n in c.entries && p.hasContent(c.entries[n])
      ensures Some(c.entries[n]) == LastOverriding(es, p, n)
    {
      assert Lookup(c, n) == Winner(es, p, n);
      LastOverridingFound(es, p, c.entries[n]);
    }
  }

  lemma AdmittedNamesNonEmpty<E>(es: seq<E>, p: Policy<E>)
    ensures "" !in NamesOf(Admit(es, p), p.nameOf)
  {
    if es != [] {
      AdmittedNamesNonEmpty(es[..|es| - 1], p);
      if Admitted(p, es[|es| - 1]) {
        NamesOfAppend(Admit(es[..|es| - 1], p), es[|es| - 1], p.nameOf);
      }
    }
  }

  /**
   * Output order is first-insertion order: the order in which the names of
   * the admitted entries were first discovered.
   */
  lemma {:induction false} OverridesOrder<E>(es: seq<E>, p: Policy<E>)
    ensures Overrides(es, p).order == NameSeq(FirstSeen(Admit(es, p), p.nameOf), p.nameOf)
  {
    if es != [] {
      var init, e := es[..|es| - 1], es[|es| - 1];
      OverridesOrder(init, p);
      OverridesKeys(init, p);
      var adm := Admit(init, p);
      if Admitted(p, e) {
        assert Admit(es, p) == adm + [e];
        assert (adm + [e])[..|adm|] == adm;
        FirstSeenNames(adm, p.nameOf);
        AdmittedNamesNonEmpty(init, p);
        var kept := FirstSeen(adm, p.nameOf);
        assert NameSeq(kept + [e], p.nameOf) == NameSeq(kept, p.nameOf) + [p.nameOf(e)];
      } else {
        assert Admit(es, p) == adm;
      }
    }
  }

  /**
   * Content-overrides resolution, as `parse_address_objects` and its three
   * siblings do it; the result is the dictionary's values in insertion order.
   */
  method ResolveWithOverrides<E(==)>(scopes: seq<seq<E>>, p: Policy<E>) returns (catalog: seq<E>)
    ensures var c := Overrides(Concat(scopes), p);
      && |catalog| == |c.order|
      && forall i :: 0 <= i < |catalog| ==> c.order[i] in c.entries && catalog[i] == c.entries[c.order[i]]
  {
    var order: seq<string> := [];
    var entries: map<string, E> := map[];
    for q := 0 to |scopes|
      invariant Catalog(order, entries) == Overrides(Concat(scopes[..q]), p)
    {
      ghost var before := Concat(scopes[..q]);
      assert before + scopes[q][..0] == before;
      for j := 0 to |scopes[q]|
        invariant Catalog(order, entries) == Overrides(before + scopes[q][..j], p)
      {
        var entry := scopes[q][j];
        ghost var done := before + scopes[q][..j];
        assert before + scopes[q][..j + 1] == done + [entry];
        assert (done + [entry])[..|done|] == done;
        ghost var absorbed := Absorb(Catalog(order, entries), p, entry);
        var name := p.nameOf(entry);
        if name == "" || p.isStub(entry) {
          continue;
        }
        if p.hasContent(entry) || name !in entries {
          if name !in entries {
            order := order + [name];
          }
          entries := entries[name := entry];
        }
        assert Catalog(order, entries) == absorbed;
      }
      assert scopes[..q + 1][..q] == scopes[..q];
      assert scopes[q][..|scopes[q]|] == scopes[q];
    }
    assert scopes[..|scopes|] == scopes;
    OverridesKeys(Concat(scopes), p);
    catalog := seq(|order|, i requires 0 <= i < |order| => entries[order[i]]);
  }
}
