/**
 * Flattening of a stage's configuration dependency chains: for every configuration
 * field, the walk along `dependsOn` pointers and the map from each controller met on
 * the walk to the values that trigger the link naming it.
 */
module DependsOnChain {
  import opened Wrappers

  /** A value of a controlling field that activates a dependent field. */
  type TriggerValue = string

  /**
   * A configuration field. `dependsOn` is `None` for Java's `null`; `dependsOnMap` is
   * the computed chain, `None` standing for the `null` marker of an empty chain.
   */
  datatype ConfigDefinition = ConfigDefinition(
    name: string,
    dependsOn: Option<string>,
    triggeredByValues: seq<TriggerValue>,
    dependsOnMap: Option<map<string, seq<TriggerValue>>>)

  /** The configuration fields of one stage, by field name. */
  type Fields = map<string, ConfigDefinition>

  /** One hop of a walk: the controller named and the values that trigger the link. */
  datatype Link = Link(controller: string, values: seq<TriggerValue>)

  /** The walk goes on from a field whose `dependsOn` is neither null nor empty. */
  predicate HasLink(c: ConfigDefinition)
  {
    c.dependsOn.Some? && c.dependsOn.value != ""
  }

  function LinkOf(c: ConfigDefinition): Link
    requires HasLink(c)
  {
    Link(c.dependsOn.value, c.triggeredByValues)
  }

  /** `Map.get`: the field under `name`, or null. */
  function Lookup(fields: Fields, name: string): Option<ConfigDefinition>
  {
    if name in fields then Some(fields[name]) else None
  }

  /**
   * The links the walk records from `temp` on, if it stops within `fuel` hops, and
   * `None` if it is still going after `fuel` hops.
   */
  function Walk(fields: Fields, temp: Option<ConfigDefinition>, fuel: nat): Option<seq<Link>>
    decreases fuel
  {
    if temp.None? || !HasLink(temp.value) then Some([])
    else if fuel == 0 then None
    else
      var d := temp.value.dependsOn.value;
      match Walk(fields, Lookup(fields, d), fuel - 1)
      case None => None
      case Some(rest) => Some([LinkOf(temp.value)] + rest)
  }

  /** The walk from `c` stops within one hop more than there are fields. */
  predicate Stops(fields: Fields, c: ConfigDefinition)
  {
    Walk(fields, Some(c), |fields| + 1).Some?
  }

  /** Every field's walk stops: the `dependsOn` pointers have no cycle. */
  predicate Acyclic(fields: Fields)
  {
    forall k :: k in fields ==> Stops(fields, fields[k])
  }

  function ChainOf(fields: Fields, c: ConfigDefinition): seq<Link>
    requires Stops(fields, c)
  {
    Walk(fields, Some(c), |fields| + 1).value
  }

  /** The puts into the walk's HashMap, in order, starting from `acc`. */
  function PutLinks(links: seq<Link>, acc: map<string, seq<TriggerValue>>): map<string, seq<TriggerValue>>
    decreases |links|
  {
    if links == [] then acc
    else PutLinks(links[1..], acc[links[0].controller := links[0].values])
  }

  /** What the walk stores into `c`: the filled map, or the null marker when it is empty. */
  function DependsOnMapOf(fields: Fields, c: ConfigDefinition): Option<map<string, seq<TriggerValue>>>
    requires Stops(fields, c)
  {
    var m := PutLinks(ChainOf(fields, c), map[]);
    if |m| == 0 then None else Some(m)
  }

  /** Every field with its computed `dependsOnMap`; nothing else of a field changes. */
  function ResolvedConfigs(fields: Fields): Fields
    requires Acyclic(fields)
  {
    map k | k in fields :: ResolvedField(fields, fields[k])
  }

  function ResolvedField(fields: Fields, c: ConfigDefinition): ConfigDefinition
    requires Stops(fields, c)
  {
    c.(dependsOnMap := DependsOnMapOf(fields, c))
  }

  function Controllers(links: seq<Link>): set<string>
  {
    set i | 0 <= i < |links| :: links[i].controller
  }

  predicate DistinctControllers(links: seq<Link>)
  {
    forall i, j :: 0 <= i < j < |links| ==> links[i].controller != links[j].controller
  }

  /** Same keys, and under each key the same `dependsOn` and `triggeredByValues`. */
  predicate SameLinks(f: Fields, g: Fields)
  {
    && f.Keys == g.Keys
    && forall k :: k in f ==> f[k].dependsOn == g[k].dependsOn && f[k].triggeredByValues == g[k].triggeredByValues
  }

  // ---------------------------------------------------------------------------
  // The walk

  /** A walk that stops records at most one link per hop of fuel. */
  lemma {:induction false} WalkLength(fields: Fields, temp: Option<ConfigDefinition>, fuel: nat)
    requires Walk(fields, temp, fuel).Some?
    ensures |Walk(fields, temp, fuel).value| <= fuel
    decreases fuel
  {
    if temp.Some? && HasLink(temp.value) {
      WalkLength(fields, Lookup(fields, temp.value.dependsOn.value), fuel - 1);
    }
  }

  /** A walk that stops with `p` stops with the same `p` given any fuel of at least `|p|`. */
  lemma {:induction false} WalkEnoughFuel(fields: Fields, temp: Option<ConfigDefinition>, fuel: nat, fuel': nat)
    requires Walk(fields, temp, fuel).Some?
    requires |Walk(fields, temp, fuel).value| <= fuel'
    ensures Walk(fields, temp, fuel') == Walk(fields, temp, fuel)
    decreases fuel
  {
    if temp.Some? && HasLink(temp.value) {
      WalkEnoughFuel(fields, Lookup(fields, temp.value.dependsOn.value), fuel - 1, fuel' - 1);
    }
  }

  /**
   * The i-th link of a stopped walk: either its controller is a field and the rest of
   * the walk starts from that field, or it is missing and the link is the last one.
   */
  lemma {:induction false} WalkStep(fields: Fields, temp: Option<ConfigDefinition>, fuel: nat, i: nat)
    requires Walk(fields, temp, fuel).Some?
    requires i < |Walk(fields, temp, fuel).value|
    ensures i < fuel
    ensures var p := Walk(fields, temp, fuel).value;
            if p[i].controller in fields
            then Walk(fields, Some(fields[p[i].controller]), fuel - i - 1) == Some(p[i + 1..])
            else i == |p| - 1
    decreases i
  {
    var p := Walk(fields, temp, fuel).value;
    var next := Lookup(fields, temp.value.dependsOn.value);
    var rest := Walk(fields, next, fuel - 1).value;
    assert p == [LinkOf(temp.value)] + rest;
    if i > 0 {
      WalkStep(fields, next, fuel - 1, i - 1);
      assert p[i] == rest[i - 1] && p[i + 1..] == rest[i..];
    }
  }

  /** A stopped walk never names the same controller twice. */
  lemma WalkDistinct(fields: Fields, temp: Option<ConfigDefinition>, fuel: nat)
    requires Walk(fields, temp, fuel).Some?
    ensures DistinctControllers(Walk(fields, temp, fuel).value)
  {
    var p := Walk(fields, temp, fuel).value;
    forall i, j | 0 <= i < j < |p|
      ensures p[i].controller != p[j].controller
    {
      if p[i].controller == p[j].controller {
        var d := p[i].controller;
        WalkStep(fields, temp, fuel, i);
        WalkStep(fields, temp, fuel, j);
        assert d in fields;
        var start := Some(fields[d]);
        WalkLength(fields, start, fuel - j - 1);
        WalkEnoughFuel(fields, start, fuel - j - 1, fuel - i - 1);
        assert false;
      }
    }
  }

  lemma {:induction false} DistinctCard(links: seq<Link>)
    requires DistinctControllers(links)
    ensures |Controllers(links)| == |links|
    decreases |links|
  {
    if links != [] {
      var tail := links[1..];
      DistinctCard(tail);
      assert Controllers(links) == {links[0].controller} + Controllers(tail) by {
        forall x | x in Controllers(links) ensures x in {links[0].controller} + Controllers(tail) {
          var i :| 0 <= i < |links| && links[i].controller == x;
          if i > 0 { assert tail[i - 1].controller == x; }
        }
        forall x | x in Controllers(tail) ensures x in Controllers(links) {
          var i :| 0 <= i < |tail| && tail[i].controller == x;
          assert links[i + 1].controller == x;
        }
      }
      assert links[0].controller !in Controllers(tail);
    }
  }

  /**
   * Any walk that stops at all stops within `|fields| + 1` hops: every link but the
   * last names a distinct field.
   */
  lemma StopsWithinFieldCount(fields: Fields, temp: Option<ConfigDefinition>, fuel: nat)
    requires Walk(fields, temp, fuel).Some?
    ensures Walk(fields, temp, |fields| + 1) == Walk(fields, temp, fuel)
  {
    var p := Walk(fields, temp, fuel).value;
    if |p| > 1 {
      var init := p[..|p| - 1];
      WalkDistinct(fields, temp, fuel);
      assert DistinctControllers(init);
      DistinctCard(init);
      forall x | x in Controllers(init) ensures x in fields.Keys {
        var i :| 0 <= i < |init| && init[i].controller == x;
        WalkStep(fields, temp, fuel, i);
      }
      SubsetCard(Controllers(init), fields.Keys);
    }
    WalkEnoughFuel(fields, temp, fuel, |fields| + 1);
  }

  lemma SubsetCard(a: set<string>, b: set<string>)
    requires a <= b
    ensures |a| <= |b|
  {
    assert b == a + (b - a);
  }

  /**
   * A cyclic chain: when the walk from `c` has not stopped after `|fields| + 1` hops it
   * never stops, whatever the number of hops. The source loops forever on such input.
   */
  lemma NeverStopsOnCycle(fields: Fields, c: ConfigDefinition, fuel: nat)
    requires !Stops(fields, c)
    ensures Walk(fields, Some(c), fuel).None?
  {
    if Walk(fields, Some(c), fuel).Some? {
      StopsWithinFieldCount(fields, Some(c), fuel);
    }
  }

  /**
   * The walk in declarative terms: it starts with `c`'s own link, every following link
   * is the link of the field the previous one names, and it stops at a controller that
   * is missing or that has no link itself.
   */
  lemma ChainIsWalk(fields: Fields, c: ConfigDefinition)
    requires Stops(fields, c)
    ensures var p := ChainOf(fields, c);
            && (p == [] <==> !HasLink(c))
            && (p != [] ==> p[0] == LinkOf(c))
            && (forall i :: 0 <= i < |p| - 1 ==>
                  p[i].controller in fields && HasLink(fields[p[i].controller]) &&
                  p[i + 1] == LinkOf(fields[p[i].controller]))
            && (p != [] ==> var last := p[|p| - 1].controller;
                            last !in fields || !HasLink(fields[last]))
            && DistinctControllers(p)
  {
    var fuel := |fields| + 1;
    var p := ChainOf(fields, c);
    WalkDistinct(fields, Some(c), fuel);
    forall i | 0 <= i < |p| - 1
      ensures p[i].controller in fields && HasLink(fields[p[i].controller])
      ensures p[i + 1] == LinkOf(fields[p[i].controller])
    {
      WalkStep(fields, Some(c), fuel, i);
      var f := fields[p[i].controller];
      assert Walk(fields, Some(f), fuel - i - 1) == Some(p[i + 1..]);
    }
    if p != [] {
      var last := p[|p| - 1].controller;
      WalkStep(fields, Some(c), fuel, |p| - 1);
      if last in fields {
        var f := fields[last];
        assert p[|p| - 1 + 1..] == [];
        assert Walk(fields, Some(f), fuel - (|p| - 1) - 1) == Some([]);
      }
    }
  }

  lemma {:induction false} PutLinksDistinct(links: seq<Link>, acc: map<string, seq<TriggerValue>>)
    requires DistinctControllers(links)
    ensures PutLinks(links, acc).Keys == acc.Keys + Controllers(links)
    ensures forall i :: 0 <= i < |links| ==> PutLinks(links, acc)[links[i].controller] == links[i].values
    ensures forall k :: k in acc && k !in Controllers(links) ==> PutLinks(links, acc)[k] == acc[k]
    decreases |links|
  {
    if links != [] {
      var tail := links[1..];
      var acc' := acc[links[0].controller := links[0].values];
      PutLinksDistinct(tail, acc');
      assert Controllers(links) == {links[0].controller} + Controllers(tail) by {
        forall x | x in Controllers(links) ensures x in {links[0].controller} + Controllers(tail) {
          var i :| 0 <= i < |links| && links[i].controller == x;
          if i > 0 { assert tail[i - 1].controller == x; }
        }
        forall x | x in Controllers(tail) ensures x in Controllers(links) {
          var i :| 0 <= i < |tail| && tail[i].controller == x;
          assert links[i + 1].controller == x;
        }
      }
      assert PutLinks(links, acc) == PutLinks(tail, acc');
      forall i | 0 <= i < |links|
        ensures PutLinks(links, acc)[links[i].controller] == links[i].values
      {
        if i > 0 {
          assert tail[i - 1] == links[i];
        } else {
          assert links[0].controller !in Controllers(tail);
        }
      }
    }
  }

  /**
   * The stored `dependsOnMap` holds exactly the controllers met on the walk, each mapped
   * to the trigger values of the field that names it; it is the null marker exactly when
   * the field itself has no (non-empty) `dependsOn`.
   */
  lemma DependsOnMapIsChain(fields: Fields, c: ConfigDefinition)
    requires Stops(fields, c)
    ensures DependsOnMapOf(fields, c).None? <==> !HasLink(c)
    ensures DependsOnMapOf(fields, c).Some? ==>
              var m := DependsOnMapOf(fields, c).value;
              var p := ChainOf(fields, c);
              && m.Keys == Controllers(p)
              && c.dependsOn.value in m && m[c.dependsOn.value] == c.triggeredByValues
              && forall i :: 0 <= i < |p| ==> m[p[i].controller] == p[i].values
  {
    var p := ChainOf(fields, c);
    ChainIsWalk(fields, c);
    PutLinksDistinct(p, map[]);
    if p != [] {
      assert p[0].controller in PutLinks(p, map[]);
    }
  }

  /**
   * Closure: if a controller in the stored map is itself a field with a link, that link
   * is in the map too, with the field's trigger values.
   */
  lemma DependsOnMapClosed(fields: Fields, c: ConfigDefinition, d: string)
    requires Stops(fields, c)
    requires DependsOnMapOf(fields, c).Some?
    requires d in DependsOnMapOf(fields, c).value && d in fields && HasLink(fields[d])
    ensures var m := DependsOnMapOf(fields, c).value;
            fields[d].dependsOn.value in m && m[fields[d].dependsOn.value] == fields[d].triggeredByValues
  {
    var p := ChainOf(fields, c);
    ChainIsWalk(fields, c);
    DependsOnMapIsChain(fields, c);
    var i :| 0 <= i < |p| && p[i].controller == d;
    assert i < |p| - 1;
    PutLinksDistinct(p, map[]);
    assert p[i + 1] == LinkOf(fields[d]);
  }

  /** The walk reads only `dependsOn` and `triggeredByValues`. */
  lemma {:induction false} WalkSameLinks(f: Fields, g: Fields, t: Option<ConfigDefinition>, u: Option<ConfigDefinition>, fuel: nat)
    requires SameLinks(f, g)
    requires t.None? <==> u.None?
    requires t.Some? ==> t.value.dependsOn == u.value.dependsOn && t.value.triggeredByValues == u.value.triggeredByValues
    ensures Walk(f, t, fuel) == Walk(g, u, fuel)
    decreases fuel
  {
    if t.Some? && HasLink(t.value) && fuel > 0 {
      var d := t.value.dependsOn.value;
      WalkSameLinks(f, g, Lookup(f, d), Lookup(g, d), fuel - 1);
    }
  }

  /** Resolution changes only `dependsOnMap`: names, pointers and trigger values stay. */
  lemma ResolveKeepsLinks(fields: Fields)
    requires Acyclic(fields)
    ensures SameLinks(ResolvedConfigs(fields), fields)
    ensures forall k :: k in fields ==> ResolvedConfigs(fields)[k].name == fields[k].name
  {
  }

  /** Every field walks the same in the resolved fields as in the original ones. */
  lemma ResolvedWalksAgree(fields: Fields)
    requires Acyclic(fields)
    ensures var r := ResolvedConfigs(fields);
            && r.Keys == fields.Keys
            && forall k :: k in r ==> Walk(r, Some(r[k]), |r| + 1) == Walk(fields, Some(fields[k]), |fields| + 1)
  {
    var r := ResolvedConfigs(fields);
    assert r.Keys == fields.Keys;
    assert |r| == |fields|;
    forall k | k in r
      ensures Walk(r, Some(r[k]), |r| + 1) == Walk(fields, Some(fields[k]), |fields| + 1)
    {
      WalkSameLinks(r, fields, Some(r[k]), Some(fields[k]), |r| + 1);
    }
  }

  /**
   * Resolving twice gives what resolving once gives: the result does not depend on
   * any `dependsOnMap` already present, nor on which fields were resolved first.
   */
  lemma ResolveIdempotent(fields: Fields)
    requires Acyclic(fields)
    ensures Acyclic(ResolvedConfigs(fields))
    ensures ResolvedConfigs(ResolvedConfigs(fields)) == ResolvedConfigs(fields)
  {
    var r := ResolvedConfigs(fields);
    ResolvedWalksAgree(fields);
    assert Acyclic(r);
    forall k | k in r
      ensures ResolvedField(r, r[k]) == r[k]
    {
      assert ChainOf(r, r[k]) == ChainOf(fields, fields[k]);
    }
  }

  /**
   * The worked example: C depends on B (triggered by "x"), B on A (triggered by "1"
   * and "2"); C resolves to {B: ["x"], A: ["1", "2"]} and A to the null marker.
   */
  lemma TwoHopExample()
    ensures var a := ConfigDefinition("A", None, [], None);
            var b := ConfigDefinition("B", Some("A"), ["1", "2"], None);
            var c := ConfigDefinition("C", Some("B"), ["x"], None);
            var fields := map["A" := a, "B" := b, "C" := c];
            && Acyclic(fields)
            && ResolvedConfigs(fields)["C"].dependsOnMap == Some(map["B" := ["x"], "A" := ["1", "2"]])
            && ResolvedConfigs(fields)["B"].dependsOnMap == Some(map["A" := ["1", "2"]])
            && ResolvedConfigs(fields)["A"].dependsOnMap == None
  {
    var a := ConfigDefinition("A", None, [], None);
    var b := ConfigDefinition("B", Some("A"), ["1", "2"], None);
    var c := ConfigDefinition("C", Some("B"), ["x"], None);
    var fields := map["A" := a, "B" := b, "C" := c];
    assert |fields| == 3;
    assert Lookup(fields, "A") == Some(a) && Lookup(fields, "B") == Some(b);
    assert Walk(fields, Some(a), 2) == Some([]);
    assert Walk(fields, Some(a), 3) == Some([]);
    assert Walk(fields, Some(a), 4) == Some([]);
    assert HasLink(b) && LinkOf(b) == Link("A", ["1", "2"]);
    assert HasLink(c) && LinkOf(c) == Link("B", ["x"]);
    assert Walk(fields, Lookup(fields, "A"), 2) == Some([]);
    assert Walk(fields, Some(b), 3) == Some([LinkOf(b)] + []);
    assert [LinkOf(b)] + [] == [Link("A", ["1", "2"])];
    assert Walk(fields, Some(b), 3) == Some([Link("A", ["1", "2"])]);
    assert Walk(fields, Some(b), 4) == Some([Link("A", ["1", "2"])]);
    assert Walk(fields, Some(c), 4) == Some([Link("B", ["x"])] + [Link("A", ["1", "2"])]);
    assert map["B" := ["x"], "A" := ["1", "2"]] == map[]["B" := ["x"]]["A" := ["1", "2"]];
  }

  // ---------------------------------------------------------------------------
  // The method

  /**
   * The inner loop of `computeDependsOnChain`: follow the pointers from `configDef`
   * through `fields`, putting each link met into a fresh map.
   */
  method FillDependsOnMap(fields: Fields, configDef: ConfigDefinition) returns (dependsOnMap: map<string, seq<TriggerValue>>)
    requires Stops(fields, configDef)
    ensures dependsOnMap == PutLinks(ChainOf(fields, configDef), map[])
  {
    var tempConfigDef: Option<ConfigDefinition> := Some(configDef);
    dependsOnMap := map[];
    ghost var fuel: nat := |fields| + 1;
    ghost var rest := ChainOf(fields, configDef);
    while tempConfigDef.Some? && tempConfigDef.value.dependsOn.Some? && tempConfigDef.value.dependsOn.value != ""
      invariant Walk(fields, tempConfigDef, fuel) == Some(rest)
      invariant PutLinks(rest, dependsOnMap) == PutLinks(ChainOf(fields, configDef), map[])
      decreases fuel
    {
      var d := tempConfigDef.value.dependsOn.value;
      dependsOnMap := dependsOnMap[d := tempConfigDef.value.triggeredByValues];
      tempConfigDef := if d in fields then Some(fields[d]) else None;
      rest := rest[1..];
      fuel := fuel - 1;
    }
  }

  /** Walking the partly updated map gives the chain of the original map. */
  lemma ResolveOneField(resolved: Fields, configs: Fields, name: string)
    requires Acyclic(configs) && SameLinks(resolved, configs)
    requires name in configs && resolved[name] == configs[name]
    ensures Stops(resolved, configs[name])
    ensures ChainOf(resolved, configs[name]) == ChainOf(configs, configs[name])
    ensures ResolvedField(configs, configs[name]).dependsOnMap == DependsOnMapOf(configs, configs[name])
  {
    assert |resolved| == |configs| by { assert resolved.Keys == configs.Keys; }
    WalkSameLinks(resolved, configs, Some(configs[name]), Some(configs[name]), |configs| + 1);
  }

  lemma UpdateKeepsLinks(resolved: Fields, configs: Fields, name: string, c: ConfigDefinition)
    requires SameLinks(resolved, configs) && name in configs
    requires c.dependsOn == configs[name].dependsOn && c.triggeredByValues == configs[name].triggeredByValues
    ensures SameLinks(resolved[name := c], configs)
  {
  }

  /** `f` and `g` hold the same fields under the names in `names`. */
  ghost predicate AgreeOn(f: Fields, g: Fields, names: set<string>)
  {
    forall k :: k in names ==> k in f && k in g && f[k] == g[k]
  }

  /** Under the names in `names`, `resolved` holds the resolved fields of `configs`. */
  ghost predicate ResolvedOn(resolved: Fields, configs: Fields, names: set<string>)
  {
    forall k :: k in names ==> k in resolved && k in configs && Stops(configs, configs[k]) &&
                               resolved[k] == ResolvedField(configs, configs[k])
  }

  lemma StepKeepsInvariant(resolved: Fields, configs: Fields, done: set<string>, todo: set<string>, name: string, c: ConfigDefinition)
    requires ResolvedOn(resolved, configs, done) && AgreeOn(resolved, configs, todo)
    requires name in todo && name in configs && Stops(configs, configs[name]) && c == ResolvedField(configs, configs[name])
    ensures ResolvedOn(resolved[name := c], configs, done + {name}) && AgreeOn(resolved[name := c], configs, todo - {name})
  {
  }

  lemma AllResolved(resolved: Fields, configs: Fields)
    requires Acyclic(configs)
    requires resolved.Keys == configs.Keys && ResolvedOn(resolved, configs, configs.Keys)
    ensures resolved == ResolvedConfigs(configs)
  {
  }

  /**
   * `computeDependsOnChain`: for each field, walk the chain through the (partly
   * updated) field map, fill a map with the links met, and store it, or the null
   * marker when it stayed empty. Fields are taken in an arbitrary order.
   */
  method ComputeDependsOnChain(configs: Fields) returns (resolved: Fields)
    requires Acyclic(configs)
    ensures resolved == ResolvedConfigs(configs)
  {
    resolved := configs;
    var todo := configs.Keys;
    while todo != {}
      invariant todo <= configs.Keys
      invariant SameLinks(resolved, configs)
      invariant ResolvedOn(resolved, configs, configs.Keys - todo)
      invariant AgreeOn(resolved, configs, todo)
      decreases todo
    {
      var name :| name in todo;
      var configDef := resolved[name];
      ResolveOneField(resolved, configs, name);
      var dependsOnMap := FillDependsOnMap(resolved, configDef);
      if |dependsOnMap| == 0 {
        configDef := configDef.(dependsOnMap := None);
      } else {
        configDef := configDef.(dependsOnMap := Some(dependsOnMap));
      }
      UpdateKeepsLinks(resolved, configs, name, configDef);
      StepKeepsInvariant(resolved, configs, configs.Keys - todo, todo, name, configDef);
      assert configs.Keys - todo + {name} == configs.Keys - (todo - {name});
      resolved := resolved[name := configDef];
      todo := todo - {name};
    }
    AllResolved(resolved, configs);
  }
}
