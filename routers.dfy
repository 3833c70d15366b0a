/**
 * Virtual and logical routers: `parse_virtual_routers` and
 * `parse_logical_routers` build one descriptor per router entry and keep
 * them in a dictionary keyed by the router's name and an interface
 * signature. A descriptor replaces the stored one only when it lists
 * strictly more interfaces, and template-scope routers are scanned before
 * device-level ones. Both parsers share this logic and differ only in the
 * router kind, so one parameterised model covers both.
 */
module Routers {
  import opened Wrappers
  import opened Text
  import opened ScopeResolver

  // ---------------------------------------------------------------------
  // Python's `sorted` on strings: code-point lexicographic order
  // ---------------------------------------------------------------------

  /** `a <= b` on Python strings. */
  predicate LexLe(a: string, b: string)
  {
    a == [] || (b != [] && (a[0] < b[0] || (a[0] == b[0] && LexLe(a[1..], b[1..]))))
  }

  lemma {:induction false} LexLeTotal(a: string, b: string)
    ensures LexLe(a, b) || LexLe(b, a)
  {
    if a != [] && b != [] && a[0] == b[0] {
      LexLeTotal(a[1..], b[1..]);
    }
  }

  lemma {:induction false} LexLeAntisymmetric(a: string, b: string)
    requires LexLe(a, b) && LexLe(b, a)
    ensures a == b
  {
    if a != [] && b != [] {
      LexLeAntisymmetric(a[1..], b[1..]);
      assert a == [a[0]] + a[1..] && b == [b[0]] + b[1..];
    }
  }

  lemma {:induction false} LexLeTransitive(a: string, b: string, c: string)
    requires LexLe(a, b) && LexLe(b, c)
    ensures LexLe(a, c)
  {
    if a != [] && b != [] && c != [] && a[0] == b[0] && b[0] == c[0] {
      LexLeTransitive(a[1..], b[1..], c[1..]);
    }
  }

  ghost predicate SortedStrings(s: seq<string>)
  {
    forall i, j :: 0 <= i < j < |s| ==> LexLe(s[i], s[j])
  }

  lemma {:induction false} LexLeReflexive(a: string)
    ensures LexLe(a, a)
  {
    if a != [] {
      LexLeReflexive(a[1..]);
    }
  }

  /** Insertion of `x` in front of the first element it does not exceed. */
  function Insert(x: string, s: seq<string>): seq<string>
  {
    if s == [] then [x]
    else if LexLe(x, s[0]) then [x] + s
    else [s[0]] + Insert(x, s[1..])
  }

  lemma {:induction false} InsertPermutes(x: string, s: seq<string>)
    ensures multiset(Insert(x, s)) == multiset(s) + multiset{x}
  {
    if s != [] && !LexLe(x, s[0]) {
      InsertPermutes(x, s[1..]);
      assert s == [s[0]] + s[1..];
    }
  }

  lemma {:induction false} InsertSorted(x: string, s: seq<string>)
    requires SortedStrings(s)
    ensures SortedStrings(Insert(x, s))
  {
    if s == [] {
    } else if LexLe(x, s[0]) {
      var r := [x] + s;
      forall i, j | 0 <= i < j < |r| ensures LexLe(r[i], r[j]) {
        if i == 0 && j > 1 {
          LexLeTransitive(x, s[0], s[j - 1]);
        }
      }
    } else {
      LexLeTotal(x, s[0]);
      assert SortedStrings(s[1..]);
      InsertSorted(x, s[1..]);
      InsertPermutes(x, s[1..]);
      var t := Insert(x, s[1..]);
      forall k | 0 <= k < |t| ensures LexLe(s[0], t[k]) {
        assert t[k] in multiset(t);
        if t[k] != x {
          assert t[k] in multiset(s[1..]);
          var m :| 0 <= m < |s[1..]| && s[1..][m] == t[k];
          assert s[m + 1] == t[k];
        }
      }
      var r := [s[0]] + t;
      assert Insert(x, s) == r;
      forall i, j | 0 <= i < j < |r| ensures LexLe(r[i], r[j]) {
        if i > 0 {
          assert r[i] == t[i - 1] && r[j] == t[j - 1];
        } else {
          assert r[j] == t[j - 1];
        }
      }
    }
  }

  /** `sorted(s)`, as insertion sort. */
  function Sort(s: seq<string>): seq<string>
  {
    if s == [] then [] else Insert(s[0], Sort(s[1..]))
  }

  /** `sorted(s)` is an ordered permutation of `s`. */
  lemma {:induction false} SortSpec(s: seq<string>)
    ensures multiset(Sort(s)) == multiset(s)
    ensures SortedStrings(Sort(s))
  {
    if s != [] {
      SortSpec(s[1..]);
      InsertPermutes(s[0], Sort(s[1..]));
      InsertSorted(s[0], Sort(s[1..]));
      assert s == [s[0]] + s[1..];
    }
  }

  /** The head of an ordered sequence is its least element. */
  lemma SortedHeadLeast(a: seq<string>, x: string)
    requires SortedStrings(a) && x in a
    ensures LexLe(a[0], x)
  {
    var i :| 0 <= i < |a| && a[i] == x;
    if i == 0 {
      LexLeReflexive(x);
    }
  }

  lemma SortedTail(a: seq<string>)
    requires SortedStrings(a) && a != []
    ensures SortedStrings(a[1..])
  {
    forall i, j | 0 <= i < j < |a[1..]| ensures LexLe(a[1..][i], a[1..][j]) {
      assert a[1..][i] == a[i + 1] && a[1..][j] == a[j + 1];
    }
  }

  lemma SameHeadSameTail(a: seq<string>, b: seq<string>)
    requires a != [] && b != [] && a[0] == b[0] && multiset(a) == multiset(b)
    ensures multiset(a[1..]) == multiset(b[1..])
  {
    assert a == [a[0]] + a[1..] && b == [b[0]] + b[1..];
    assert multiset(a[1..]) == multiset(a) - multiset{a[0]};
    assert multiset(b[1..]) == multiset(b) - multiset{b[0]};
  }

  /** There is only one ordered arrangement of a multiset of strings. */
  lemma {:induction false} SortedUnique(a: seq<string>, b: seq<string>)
    requires SortedStrings(a) && SortedStrings(b) && multiset(a) == multiset(b)
    ensures a == b
  {
    assert |a| == |multiset(a)| == |multiset(b)| == |b|;
    if a != [] {
      assert a[0] in multiset(b) && b[0] in multiset(a);
      SortedHeadLeast(b, a[0]);
      SortedHeadLeast(a, b[0]);
      LexLeAntisymmetric(a[0], b[0]);
      SameHeadSameTail(a, b);
      SortedTail(a);
      SortedTail(b);
      SortedUnique(a[1..], b[1..]);
      assert a == [a[0]] + a[1..] && b == [b[0]] + b[1..];
    }
  }

  // ---------------------------------------------------------------------
  // The dictionary key
  // ---------------------------------------------------------------------

  /** `','.join(xs)`. */
  function Join(xs: seq<string>): (r: string)
    ensures xs == [] ==> r == ""
    ensures |xs| == 1 ==> r == xs[0]
  {
    if xs == [] then ""
    else if |xs| == 1 then xs[0]
    else xs[0] + "," + Join(xs[1..])
  }

  /** Appending an element to a non-empty list appends a comma and that element. */
  lemma {:induction false} JoinAppend(xs: seq<string>, x: string)
    requires xs != []
    ensures Join(xs + [x]) == Join(xs) + "," + x
  {
    var ys := xs + [x];
    assert ys[0] == xs[0] && ys[1..] == xs[1..] + [x];
    if |xs| > 1 {
      JoinAppend(xs[1..], x);
    }
  }

  /** `xs[:5]`. */
  function FirstFive(xs: seq<string>): (r: seq<string>)
    ensures |r| == if |xs| <= 5 then |xs| else 5
    ensures r <= xs
  {
    if |xs| <= 5 then xs else xs[..5]
  }

  /**
   * `f"{name}_{','.join(sorted(interfaces[:5]))}"`: the first five
   * interfaces are taken first and only then sorted.
   */
  function RouterKey(name: string, interfaces: seq<string>): string
  {
    name + "_" + Join(Sort(FirstFive(interfaces)))
  }

  /** The key depends only on which first five interfaces there are, not on their order. */
  lemma KeyOrderInsensitive(name: string, a: seq<string>, b: seq<string>)
    requires multiset(FirstFive(a)) == multiset(FirstFive(b))
    ensures RouterKey(name, a) == RouterKey(name, b)
  {
    SortSpec(FirstFive(a));
    SortSpec(FirstFive(b));
    SortedUnique(Sort(FirstFive(a)), Sort(FirstFive(b)));
  }

  /** Interfaces after the fifth never change the key. */
  lemma KeyIgnoresLaterInterfaces(name: string, a: seq<string>, more: seq<string>)
    requires |a| >= 5
    ensures RouterKey(name, a + more) == RouterKey(name, a)
  {
    assert FirstFive(a + more) == FirstFive(a) by {
      assert (a + more)[..5] == a[..5];
    }
  }

  /** Adding a third interface gives a different key, so both definitions are kept. */
  lemma ExtraInterfaceNewKey()
    ensures RouterKey("VR1", ["e1", "e2"]) == "VR1_e1,e2"
    ensures RouterKey("VR1", ["e1", "e2", "e3"]) == "VR1_e1,e2,e3"
  {
    assert FirstFive(["e1", "e2", "e3"]) == ["e1", "e2", "e3"];
    assert Sort(["e3"]) == ["e3"];
    assert Sort(["e2", "e3"]) == ["e2", "e3"];
    assert Sort(["e1", "e2", "e3"]) == ["e1", "e2", "e3"];
    assert Join(["e1", "e2", "e3"]) == "e1,e2,e3";
  }

  /** The key is not injective: a `_` in the router name can mimic the separator. */
  lemma KeyCollision()
    ensures RouterKey("vr_e1", ["e2"]) == RouterKey("vr", ["e1_e2"]) == "vr_e1_e2"
  {
  }

  // ---------------------------------------------------------------------
  // Descriptors
  // ---------------------------------------------------------------------

  /** A static route: `_get_text` results, `None` for a missing child or a child without text. */
  datatype StaticRoute = StaticRoute(
    name: string, destination: Option<string>, nexthopIp: Option<string>,
    nexthopNext: Option<string>, metric: Option<string>)

  /** A router entry: its name, its `interface/member` texts and its static-route entries. */
  datatype RouterEntry = RouterEntry(name: string, interfaceMembers: seq<string>, routes: seq<StaticRoute>)

  /** One template and the router entries under it. */
  datatype TemplateScope = TemplateScope(name: Option<string>, routers: seq<RouterEntry>)

  /** A router descriptor as the parser stores it. */
  datatype Router = Router(
    name: string, template: Option<string>, logical: bool,
    interfaces: seq<string>, staticRoutes: seq<StaticRoute>)

  /** What the `template` field says for a device-level router. */
  const DeviceSpecific: string := "device-specific"

  /** The routes that have a name, in order. */
  function NamedRoutes(rs: seq<StaticRoute>): (r: seq<StaticRoute>)
    ensures forall i :: 0 <= i < |r| ==> r[i] in rs && r[i].name != ""
    ensures forall x :: x in rs && x.name != "" ==> x in r
  {
    if rs == [] then []
    else NamedRoutes(rs[..|rs| - 1]) + if rs[|rs| - 1].name != "" then [rs[|rs| - 1]] else []
  }

  /** One route appended: it is kept iff it has a name. */
  lemma NamedRoutesSnoc(rs: seq<StaticRoute>, x: StaticRoute)
    ensures NamedRoutes(rs + [x]) == NamedRoutes(rs) + if x.name != "" then [x] else []
  {
    assert (rs + [x])[..|rs|] == rs;
  }

  /** The named-route filter distributes over concatenation. */
  lemma {:induction false} NamedRoutesAppend(a: seq<StaticRoute>, b: seq<StaticRoute>)
    ensures NamedRoutes(a + b) == NamedRoutes(a) + NamedRoutes(b)
    decreases |b|
  {
    if b == [] {
      assert a + b == a;
    } else {
      var init, last := b[..|b| - 1], b[|b| - 1];
      var kept := if last.name != "" then [last] else [];
      assert NamedRoutes(a + b) == NamedRoutes(a + init) + kept by {
        assert a + b == (a + init) + [last];
        NamedRoutesSnoc(a + init, last);
      }
      assert NamedRoutes(b) == NamedRoutes(init) + kept by {
        assert b == init + [last];
        NamedRoutesSnoc(init, last);
      }
      NamedRoutesAppend(a, init);
      assert (NamedRoutes(a) + NamedRoutes(init)) + kept == NamedRoutes(a) + (NamedRoutes(init) + kept);
    }
  }

  /** The descriptor of a named router entry: its non-empty interface texts and its named routes. */
  function Describe(e: RouterEntry, template: Option<string>, logical: bool): Router
  {
    Router(e.name, template, logical, NonEmptyTexts(e.interfaceMembers), NamedRoutes(e.routes))
  }

  /** The descriptors of the named entries of one scope, in document order. */
  function Described(es: seq<RouterEntry>, template: Option<string>, logical: bool): seq<Router>
  {
    if es == [] then []
    else
      var e := es[|es| - 1];
      Described(es[..|es| - 1], template, logical) + if e.name != "" then [Describe(e, template, logical)] else []
  }

  /** The descriptors of all template scopes, template by template. */
  function TemplateDescriptors(ts: seq<TemplateScope>, logical: bool): seq<Router>
  {
    if ts == [] then []
    else
      var t := ts[|ts| - 1];
      TemplateDescriptors(ts[..|ts| - 1], logical) + Described(t.routers, t.name, logical)
  }

  /** Every descriptor in scan order: all template scopes, then the device-level routers. */
  function AllDescriptors(ts: seq<TemplateScope>, device: seq<RouterEntry>, logical: bool): seq<Router>
  {
    TemplateDescriptors(ts, logical) + Described(device, Some(DeviceSpecific), logical)
  }

  // ---------------------------------------------------------------------
  // Retention
  // ---------------------------------------------------------------------

  function Key(r: Router): string
  {
    RouterKey(r.name, r.interfaces)
  }

  /**
   * One dictionary update under the key function `key`: store the
   * descriptor if its key is new or it has strictly more interfaces than
   * the stored one; otherwise keep the stored one.
   */
  function Offer(c: Catalog<Router>, r: Router, key: Router -> string): Catalog<Router>
  {
    var k := key(r);
    if k !in c.entries || |r.interfaces| > |c.entries[k].interfaces| then Store(c, k, r) else c
  }

  /** The dictionary after offering every descriptor of `ds` in turn. */
  function Keep(ds: seq<Router>, key: Router -> string): Catalog<Router>
  {
    if ds == [] then Catalog([], map[]) else Offer(Keep(ds[..|ds| - 1], key), ds[|ds| - 1], key)
  }

  /** The dictionary is well formed and its keys are the keys of the descriptors offered. */
  lemma {:induction false} KeepKeys(ds: seq<Router>, key: Router -> string)
    ensures WellFormed(Keep(ds, key))
    ensures Keep(ds, key).entries.Keys == NamesOf(ds, key)
  {
    if ds != [] {
      var init, d := ds[..|ds| - 1], ds[|ds| - 1];
      KeepKeys(init, key);
      NamesOfAppend(init, d, key);
      StoreWellFormed(Keep(init, key), key(d), d);
    }
  }

  /** The dictionary's order is the order in which keys were first offered. */
  lemma {:induction false} KeepOrder(ds: seq<Router>, key: Router -> string)
    requires forall d :: d in ds ==> key(d) != ""
    ensures Keep(ds, key).order == NameSeq(FirstSeen(ds, key), key)
  {
    if ds != [] {
      var init, d := ds[..|ds| - 1], ds[|ds| - 1];
      assert ds == init + [d];
      KeepOrder(init, key);
      KeepKeys(init, key);
      FirstSeenNames(init, key);
      var kept := FirstSeen(init, key);
      assert NameSeq(kept + [d], key) == NameSeq(kept, key) + [key(d)];
    }
  }

  /**
   * Every offered key is present; the stored descriptor for a key is one of
   * the descriptors offered with that key, and none of them has more
   * interfaces.
   */
  lemma {:induction false} KeepStoresMaximal(ds: seq<Router>, key: Router -> string)
    ensures var c := Keep(ds, key);
      && (forall d :: d in ds ==> key(d) in c.entries)
      && forall k :: k in c.entries ==>
        && c.entries[k] in ds && key(c.entries[k]) == k
        && forall d :: d in ds && key(d) == k ==> |d.interfaces| <= |c.entries[k].interfaces|
  {
    if ds != [] {
      var init, last := ds[..|ds| - 1], ds[|ds| - 1];
      assert ds == init + [last];
      KeepStoresMaximal(init, key);
      var c0, c := Keep(init, key), Keep(ds, key);
      assert c == Offer(c0, last, key);
      forall d | d in ds ensures key(d) in c.entries {
        if d != last {
          assert d in init;
        }
      }
      forall k | k in c.entries
        ensures c.entries[k] in ds && key(c.entries[k]) == k
        ensures forall d :: d in ds && key(d) == k ==> |d.interfaces| <= |c.entries[k].interfaces|
      {
        forall d | d in ds && key(d) == k ensures |d.interfaces| <= |c.entries[k].interfaces| {
          if d != last {
            assert d in init;
          }
        }
      }
    }
  }

  /** Offering more descriptors never loses a key and never lowers a stored interface count. */
  lemma {:induction false} KeepMonotone(ds: seq<Router>, more: seq<Router>, key: Router -> string)
    ensures var before, after := Keep(ds, key), Keep(ds + more, key);
      forall k :: k in before.entries ==>
        k in after.entries && |before.entries[k].interfaces| <= |after.entries[k].interfaces|
  {
    if more == [] {
      assert ds + more == ds;
    } else {
      var init := more[..|more| - 1];
      KeepMonotone(ds, init, key);
      assert ds + more == (ds + init) + [more[|more| - 1]];
      assert (ds + more)[..|ds + more| - 1] == ds + init;
    }
  }

  /**
   * The first descriptor with the largest interface count for its key is
   * the one kept: earlier ones with that key have fewer interfaces and later
   * ones at most as many. With template scopes scanned first, a template
   * router wins a tie against a device-level one.
   */
  lemma {:induction false} FirstMaximalWins(pre: seq<Router>, d: Router, post: seq<Router>, key: Router -> string)
    requires forall e :: e in pre && key(e) == key(d) ==> |e.interfaces| < |d.interfaces|
    requires forall e :: e in post && key(e) == key(d) ==> |e.interfaces| <= |d.interfaces|
    ensures key(d) in Keep(pre + [d] + post, key).entries
    ensures Keep(pre + [d] + post, key).entries[key(d)] == d
  {
    if post == [] {
      KeepStoresMaximal(pre, key);
      assert pre + [d] + post == pre + [d];
      assert (pre + [d])[..|pre|] == pre;
      var c0 := Keep(pre, key);
      if key(d) in c0.entries {
        assert c0.entries[key(d)] in pre;
      }
    } else {
      var init, last := post[..|post| - 1], post[|post| - 1];
      FirstMaximalWins(pre, d, init, key);
      assert pre + [d] + post == (pre + [d] + init) + [last];
      assert (pre + [d] + post)[..|pre + [d] + post| - 1] == pre + [d] + init;
      assert last in post;
    }
  }

  /** The `if iface.text: interfaces.append(iface.text)` loop. */
  method CollectInterfaces(members: seq<string>) returns (interfaces: seq<string>)
    ensures interfaces == NonEmptyTexts(members)
  {
    interfaces := [];
    for i := 0 to |members|
      invariant interfaces == NonEmptyTexts(members[..i])
    {
      assert members[..i + 1][..i] == members[..i];
      if members[i] != "" {
        interfaces := interfaces + [members[i]];
      }
    }
    assert members[..|members|] == members;
  }

  /** The `if route_name: static_routes.append(...)` loop. */
  method CollectRoutes(routes: seq<StaticRoute>) returns (kept: seq<StaticRoute>)
    ensures kept == NamedRoutes(routes)
  {
    kept := [];
    for i := 0 to |routes|
      invariant kept == NamedRoutes(routes[..i])
    {
      assert routes[..i + 1][..i] == routes[..i];
      if routes[i].name != "" {
        kept := kept + [routes[i]];
      }
    }
    assert routes[..|routes|] == routes;
  }

  lemma DescribedStep(es: seq<RouterEntry>, j: nat, template: Option<string>, logical: bool)
    requires j < |es|
    ensures Described(es[..j + 1], template, logical)
      == Described(es[..j], template, logical) + if es[j].name != "" then [Describe(es[j], template, logical)] else []
  {
    assert es[..j + 1][..j] == es[..j];
  }

  lemma AppendLast<T>(a: seq<T>, b: seq<T>, x: T)
    ensures a + (b + [x]) == (a + b) + [x]
  {
  }

  lemma KeepStep(ds: seq<Router>, r: Router, key: Router -> string)
    ensures Keep(ds + [r], key) == Offer(Keep(ds, key), r, key)
  {
    assert (ds + [r])[..|ds|] == ds;
  }

  /** The `if unique_key not in d or len(...) > len(...)` update of the dictionary. */
  method OfferRouter(order0: seq<string>, entries0: map<string, Router>, r: Router)
    returns (order: seq<string>, entries: map<string, Router>)
    ensures Catalog(order, entries) == Offer(Catalog(order0, entries0), r, Key)
  {
    order, entries := order0, entries0;
    var key := RouterKey(r.name, r.interfaces);
    if key !in entries || |r.interfaces| > |entries[key].interfaces| {
      if key !in entries {
        order := order + [key];
      }
      entries := entries[key := r];
    }
  }

  /**
   * The loop over the router entries of one scope (a template, or the
   * device level), updating the dictionary held as `order` and `entries`.
   */
  method ScanScope(
    es: seq<RouterEntry>, template: Option<string>, logical: bool,
    order0: seq<string>, entries0: map<string, Router>, ghost before: seq<Router>)
    returns (order: seq<string>, entries: map<string, Router>)
    requires Catalog(order0, entries0) == Keep(before, Key)
    ensures Catalog(order, entries) == Keep(before + Described(es, template, logical), Key)
  {
    order, entries := order0, entries0;
    ghost var done := before;
    assert before + Described(es[..0], template, logical) == before;
    for j := 0 to |es|
      invariant done == before + Described(es[..j], template, logical)
      invariant Catalog(order, entries) == Keep(done, Key)
    {
      var e := es[j];
      DescribedStep(es, j, template, logical);
      if e.name == "" {
        assert before + Described(es[..j + 1], template, logical) == done + [];
        continue;
      }
      var interfaces := CollectInterfaces(e.interfaceMembers);
      var staticRoutes := CollectRoutes(e.routes);
      var r := Router(e.name, template, logical, interfaces, staticRoutes);
      assert r == Describe(e, template, logical);
      KeepStep(done, r, Key);
      order, entries := OfferRouter(order, entries, r);
      ghost var prior := Described(es[..j], template, logical);
      assert Described(es[..j + 1], template, logical) == prior + [r];
      AppendLast(before, prior, r);
      done := done + [r];
    }
    assert es[..|es|] == es;
  }

  /**
   * `parse_virtual_routers` (`logical` false) and `parse_logical_routers`
   * (`logical` true): the dictionary's values in insertion order.
   */
  method ParseRouters(templates: seq<TemplateScope>, device: seq<RouterEntry>, logical: bool)
    returns (routers: seq<Router>)
    ensures var c := Keep(AllDescriptors(templates, device, logical), Key);
      && |routers| == |c.order|
      && forall i :: 0 <= i < |routers| ==> c.order[i] in c.entries && routers[i] == c.entries[c.order[i]]
  {
    var order: seq<string> := [];
    var entries: map<string, Router> := map[];
    ghost var ds: seq<Router> := [];
    for q := 0 to |templates|
      invariant ds == TemplateDescriptors(templates[..q], logical)
      invariant Catalog(order, entries) == Keep(ds, Key)
    {
      var t := templates[q];
      assert templates[..q + 1][..q] == templates[..q];
      order, entries := ScanScope(t.routers, t.name, logical, order, entries, ds);
      ds := ds + Described(t.routers, t.name, logical);
    }
    assert templates[..|templates|] == templates;
    order, entries := ScanScope(device, Some(DeviceSpecific), logical, order, entries, ds);
    ds := ds + Described(device, Some(DeviceSpecific), logical);
    KeepKeys(ds, Key);
    routers := seq(|order|, i requires 0 <= i < |order| => entries[order[i]]);
  }
}
