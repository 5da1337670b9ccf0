/** Vars extraction and document assembly in `generate_inventory`
    (yc_inventory.py, lines 143-190). */
module Inventory {
  import opened Wrappers
  import opened Labels
  import opened Resolver
  import PyInt

  /** A variable table (`vars`) in YAML order, and its resolved counterpart. */
  type VarTable = seq<(string, VarDef)>
  type VarDoc = seq<(string, Json)>

  /** One entry of the `tags` table. `vars` is `None` both when the key is
      missing and when it holds `null`; `hostsName` is `None` when the key is missing. */
  datatype TagConfig = TagConfig(name: string, vars: Option<VarTable>, hostsName: Option<string>)

  /** One inventory group: `{'hosts': [...], 'vars': {...}}`, `vars` being optional. */
  datatype Group = Group(hosts: seq<string>, vars: Option<VarDoc>)

  /** The result document, keys in Python dictionary (first-insertion) order. */
  type Document = seq<(string, Group)>

  /** The tags table is a mapping: no name occurs twice. */
  predicate IsTable(table: seq<TagConfig>) {
    forall i, j :: 0 <= i < j < |table| ==> table[i].name != table[j].name
  }

  /** The configured tag names, in table order. */
  function Names(table: seq<TagConfig>): seq<string> {
    seq(|table|, i requires 0 <= i < |table| => table[i].name)
  }

  /** The dict comprehension on lines 176-178: each variable resolved in table order;
      the first one that raises aborts the table. */
  function ExtractVarTable(vars: VarTable, tags: seq<string>, hosts: map<string, seq<string>>): (r: Result<VarDoc, Error>)
    requires Consistent(tags, hosts)
    ensures r.Ok? ==> |r.value| == |vars| && forall k :: 0 <= k < |vars| ==> r.value[k].0 == vars[k].0
    decreases |vars|
  {
    if vars == [] then Ok([])
    else
      match ExtractVar(vars[0].1, tags, hosts)
      case Err(e) => Err(e)
      case Ok(v) =>
        match ExtractVarTable(vars[1..], tags, hosts)
        case Err(e) => Err(e)
        case Ok(rest) => Ok([(vars[0].0, v)] + rest)
  }

  /** On success every variable keeps its name and position and holds its resolved
      value; on failure the error is that of the first variable that fails. */
  lemma {:induction false} ExtractVarTableResults(vars: VarTable, tags: seq<string>, hosts: map<string, seq<string>>)
    requires Consistent(tags, hosts)
    ensures var r := ExtractVarTable(vars, tags, hosts);
            r.Ok? ==> |r.value| == |vars|
                      && forall k :: 0 <= k < |vars| ==>
                           r.value[k].0 == vars[k].0 && ExtractVar(vars[k].1, tags, hosts) == Ok(r.value[k].1)
    ensures var r := ExtractVarTable(vars, tags, hosts);
            r.Err? ==> exists k :: 0 <= k < |vars| && ExtractVar(vars[k].1, tags, hosts) == Err(r.error)
                                   && forall j :: 0 <= j < k ==> ExtractVar(vars[j].1, tags, hosts).Ok?
    decreases |vars|
  {
    if vars != [] {
      var rest := vars[1..];
      ExtractVarTableResults(rest, tags, hosts);
      assert forall k :: 0 <= k < |rest| ==> rest[k] == vars[k + 1];
      var r := ExtractVarTable(vars, tags, hosts);
      if ExtractVar(vars[0].1, tags, hosts).Ok? && ExtractVarTable(rest, tags, hosts).Err? {
        var k :| 0 <= k < |rest| && ExtractVar(rest[k].1, tags, hosts) == Err(r.error)
                 && forall j :: 0 <= j < k ==> ExtractVar(rest[j].1, tags, hosts).Ok?;
        assert ExtractVar(vars[k + 1].1, tags, hosts) == Err(r.error);
        forall j | 0 <= j < k + 1 ensures ExtractVar(vars[j].1, tags, hosts).Ok? {
          if j > 0 {
            assert vars[j] == rest[j - 1];
          }
        }
      }
    }
  }

  /** The tag's `vars` table, if it has one, resolves without an exception. */
  predicate VarsResolve(conf: TagConfig, tags: seq<string>, hosts: map<string, seq<string>>)
    requires Consistent(tags, hosts)
  {
    conf.vars.Some? ==> ExtractVarTable(conf.vars.value, tags, hosts).Ok?
  }

  /** The resolved vars of every tag that defines them (`tag_host_vars_map`), or the
      first exception raised while building it. */
  function TagVars(table: seq<TagConfig>, tags: seq<string>, hosts: map<string, seq<string>>)
    : Result<map<string, VarDoc>, Error>
    requires Consistent(tags, hosts)
    decreases |table|
  {
    if table == [] then Ok(map[])
    else
      var last := table[|table| - 1];
      match TagVars(table[..|table| - 1], tags, hosts)
      case Err(e) => Err(e)
      case Ok(m) =>
        match last.vars
        case None => Ok(m)
        case Some(vs) =>
          match ExtractVarTable(vs, tags, hosts)
          case Err(e) => Err(e)
          case Ok(d) => Ok(m[last.name := d])
  }

  lemma {:induction false} TagVarsPrefixError(table: seq<TagConfig>, n: nat, tags: seq<string>, hosts: map<string, seq<string>>)
    requires Consistent(tags, hosts)
    requires n <= |table|
    requires TagVars(table[..n], tags, hosts).Err?
    ensures TagVars(table, tags, hosts) == TagVars(table[..n], tags, hosts)
    decreases |table| - n
  {
    if n < |table| {
      assert table[..n + 1][..n] == table[..n];
      TagVarsPrefixError(table, n + 1, tags, hosts);
    } else {
      assert table[..n] == table;
    }
  }

  /** Building `tag_host_vars_map` succeeds exactly when every tag's vars resolve. */
  lemma {:induction false} TagVarsOk(table: seq<TagConfig>, tags: seq<string>, hosts: map<string, seq<string>>)
    requires Consistent(tags, hosts)
    ensures TagVars(table, tags, hosts).Ok? <==> forall i :: 0 <= i < |table| ==> VarsResolve(table[i], tags, hosts)
    decreases |table|
  {
    if table != [] {
      var init, last := table[..|table| - 1], table[|table| - 1];
      TagVarsOk(init, tags, hosts);
      assert TagVars(table, tags, hosts).Ok?
          <==> TagVars(init, tags, hosts).Ok? && VarsResolve(last, tags, hosts);
      AllResolveStep(table, init, tags, hosts);
    }
  }

  lemma AllResolveStep(table: seq<TagConfig>, init: seq<TagConfig>, tags: seq<string>, hosts: map<string, seq<string>>)
    requires Consistent(tags, hosts)
    requires table != [] && init == table[..|table| - 1]
    ensures (forall i :: 0 <= i < |table| ==> VarsResolve(table[i], tags, hosts))
        <==> (forall i :: 0 <= i < |init| ==> VarsResolve(init[i], tags, hosts))
             && VarsResolve(table[|table| - 1], tags, hosts)
  {
    assert forall i :: 0 <= i < |init| ==> init[i] == table[i];
  }

  /** On success the keys are exactly the tags whose config has a non-null `vars`. */
  lemma {:induction false} TagVarsKeys(table: seq<TagConfig>, tags: seq<string>, hosts: map<string, seq<string>>)
    requires Consistent(tags, hosts)
    requires TagVars(table, tags, hosts).Ok?
    ensures forall n :: n in TagVars(table, tags, hosts).value
                        <==> exists i :: 0 <= i < |table| && table[i].vars.Some? && table[i].name == n
    decreases |table|
  {
    if table != [] {
      var init := table[..|table| - 1];
      TagVarsKeys(init, tags, hosts);
      assert forall i :: 0 <= i < |init| ==> init[i] == table[i];
    }
  }

  /** On failure the error is that of the first tag whose vars fail. */
  lemma {:induction false} TagVarsFirstError(table: seq<TagConfig>, tags: seq<string>, hosts: map<string, seq<string>>)
      returns (i: nat)
    requires Consistent(tags, hosts)
    requires TagVars(table, tags, hosts).Err?
    ensures i < |table| && table[i].vars.Some?
    ensures ExtractVarTable(table[i].vars.value, tags, hosts) == Err(TagVars(table, tags, hosts).error)
    ensures forall j :: 0 <= j < i ==> VarsResolve(table[j], tags, hosts)
    decreases |table|
  {
    var init := table[..|table| - 1];
    if TagVars(init, tags, hosts).Err? {
      i := TagVarsFirstError(init, tags, hosts);
      assert TagVars(table, tags, hosts) == TagVars(init, tags, hosts);
    } else {
      TagVarsOk(init, tags, hosts);
      i := |init|;
    }
    PrefixResolves(table, init, i, tags, hosts);
  }

  lemma PrefixResolves(table: seq<TagConfig>, init: seq<TagConfig>, i: nat, tags: seq<string>, hosts: map<string, seq<string>>)
    requires Consistent(tags, hosts)
    requires table != [] && init == table[..|table| - 1] && i <= |init|
    requires forall j :: 0 <= j < i ==> VarsResolve(init[j], tags, hosts)
    ensures i < |init| ==> table[i] == init[i]
    ensures forall j :: 0 <= j < i ==> VarsResolve(table[j], tags, hosts)
  {
    assert forall j :: 0 <= j < |init| ==> init[j] == table[j];
  }

  /** With distinct tag names, each tag with vars maps to its own resolved table. */
  lemma {:induction false} TagVarsValues(table: seq<TagConfig>, tags: seq<string>, hosts: map<string, seq<string>>)
    requires Consistent(tags, hosts)
    requires IsTable(table)
    requires TagVars(table, tags, hosts).Ok?
    ensures forall i :: 0 <= i < |table| && table[i].vars.Some? ==>
              && table[i].name in TagVars(table, tags, hosts).value
              && Ok(TagVars(table, tags, hosts).value[table[i].name]) == ExtractVarTable(table[i].vars.value, tags, hosts)
    decreases |table|
  {
    if table != [] {
      var init := table[..|table| - 1];
      assert forall i :: 0 <= i < |init| ==> init[i] == table[i];
      TagVarsValues(init, tags, hosts);
    }
  }

  /** The `tag_host_vars_map` loop (lines 172-178), filling the dictionary in place. */
  method ExtractVars(table: seq<TagConfig>, tags: seq<string>, hosts: map<string, seq<string>>)
    returns (r: Result<map<string, VarDoc>, Error>)
    requires Consistent(tags, hosts)
    ensures r == TagVars(table, tags, hosts)
  {
    var varsMap: map<string, VarDoc> := map[];
    var i := 0;
    while i < |table|
      invariant 0 <= i <= |table|
      invariant TagVars(table[..i], tags, hosts) == Ok(varsMap)
    {
      var conf := table[i];
      assert table[..i + 1][..i] == table[..i];
      if conf.vars.Some? {
        var d := ExtractVarTable(conf.vars.value, tags, hosts);
        if d.Err? {
          TagVarsPrefixError(table, i + 1, tags, hosts);
          return Err(d.error);
        }
        varsMap := varsMap[conf.name := d.value];
      }
      i := i + 1;
    }
    assert table[..i] == table;
    return Ok(varsMap);
  }

  /** The key a tag is published under: its `hostsName` if set, else its own name. */
  function DisplayName(conf: TagConfig): string {
    match conf.hostsName
    case Some(n) => n
    case None => conf.name
  }

  function Keys(doc: Document): seq<string> {
    seq(|doc|, i requires 0 <= i < |doc| => doc[i].0)
  }

  /** The group stored under `key`, if any (the first one, which is the only one
      in a document with distinct keys). */
  function Lookup(doc: Document, key: string): Option<Group>
    decreases |doc|
  {
    if doc == [] then None
    else if doc[0].0 == key then Some(doc[0].1)
    else Lookup(doc[1..], key)
  }

  /** `result_inventory[key] = g`: an existing key keeps its position and takes the
      new group, a new key goes to the end. */
  function Upsert(doc: Document, key: string, g: Group): (r: Document)
    ensures Keys(r) == if key in Keys(doc) then Keys(doc) else Keys(doc) + [key]
    ensures key !in Keys(doc) ==> r == doc + [(key, g)]
    ensures Lookup(r, key) == Some(g)
    ensures forall k :: k != key ==> Lookup(r, k) == Lookup(doc, k)
    decreases |doc|
  {
    if doc == [] then [(key, g)]
    else if doc[0].0 == key then
      assert Keys(doc)[0] == key;
      assert Keys([(key, g)] + doc[1..]) == Keys(doc);
      [(key, g)] + doc[1..]
    else
      assert Keys(doc) == [doc[0].0] + Keys(doc[1..]);
      var rest := Upsert(doc[1..], key, g);
      assert Keys([doc[0]] + rest) == [doc[0].0] + Keys(rest);
      [doc[0]] + rest
  }

  /** The group a tag contributes (lines 185-189): its hosts, and its vars when it has an entry. */
  function EntryFor(conf: TagConfig, hosts: map<string, seq<string>>, varsMap: map<string, VarDoc>): Group
    requires conf.name in hosts
  {
    Group(hosts[conf.name], if conf.name in varsMap then Some(varsMap[conf.name]) else None)
  }

  /** `result_inventory` after the loop over the tags. */
  function Assembled(table: seq<TagConfig>, hosts: map<string, seq<string>>, varsMap: map<string, VarDoc>): Document
    requires forall i :: 0 <= i < |table| ==> table[i].name in hosts
    decreases |table|
  {
    if table == [] then []
    else
      var last := table[|table| - 1];
      Upsert(Assembled(table[..|table| - 1], hosts, varsMap), DisplayName(last), EntryFor(last, hosts, varsMap))
  }

  /** The assembly loop (lines 180-190), filling `result_inventory` in place. */
  method Assemble(table: seq<TagConfig>, hosts: map<string, seq<string>>, varsMap: map<string, VarDoc>)
    returns (doc: Document)
    requires forall i :: 0 <= i < |table| ==> table[i].name in hosts
    ensures doc == Assembled(table, hosts, varsMap)
  {
    doc := [];
    for i := 0 to |table|
      invariant doc == Assembled(table[..i], hosts, varsMap)
    {
      var conf := table[i];
      var hostsName := conf.name;
      if conf.hostsName.Some? {
        hostsName := conf.hostsName.value;
      }
      var group := Group(hosts[conf.name], None);
      if conf.name in varsMap {
        group := group.(vars := Some(varsMap[conf.name]));
      }
      AssembledStep(table, i, hosts, varsMap);
      doc := Upsert(doc, hostsName, group);
    }
    assert table[..|table|] == table;
  }

  lemma AssembledStep(table: seq<TagConfig>, i: nat, hosts: map<string, seq<string>>, varsMap: map<string, VarDoc>)
    requires forall j :: 0 <= j < |table| ==> table[j].name in hosts
    requires i < |table|
    ensures forall j :: 0 <= j < i ==> table[..i][j].name in hosts
    ensures Assembled(table[..i + 1], hosts, varsMap)
         == Upsert(Assembled(table[..i], hosts, varsMap), DisplayName(table[i]), EntryFor(table[i], hosts, varsMap))
  {
    assert table[..i + 1][..i] == table[..i];
  }

  /** Every tag yields a key, no key occurs twice, and nothing else is a key. */
  lemma {:induction false} AssembledKeys(table: seq<TagConfig>, hosts: map<string, seq<string>>, varsMap: map<string, VarDoc>)
    requires forall i :: 0 <= i < |table| ==> table[i].name in hosts
    ensures forall k :: (k in Keys(Assembled(table, hosts, varsMap))
                         <==> exists i :: 0 <= i < |table| && DisplayName(table[i]) == k)
    ensures Distinct(Keys(Assembled(table, hosts, varsMap)))
    decreases |table|
  {
    if table != [] {
      var init, last := table[..|table| - 1], table[|table| - 1];
      assert forall i :: 0 <= i < |init| ==> init[i].name in hosts by {
        assert forall i :: 0 <= i < |init| ==> init[i] == table[i];
      }
      AssembledKeys(init, hosts, varsMap);
      var before, key := Keys(Assembled(init, hosts, varsMap)), DisplayName(last);
      var after := Keys(Assembled(table, hosts, varsMap));
      assert after == if key in before then before else before + [key];
      AddKey(before, key, after);
      KeysStep(table, init, before, after);
    }
  }

  lemma KeysStep(table: seq<TagConfig>, init: seq<TagConfig>, before: seq<string>, after: seq<string>)
    requires table != [] && init == table[..|table| - 1]
    requires forall k :: k in before <==> exists i :: 0 <= i < |init| && DisplayName(init[i]) == k
    requires forall k :: k in after <==> k in before || k == DisplayName(table[|table| - 1])
    ensures forall k :: k in after <==> exists i :: 0 <= i < |table| && DisplayName(table[i]) == k
  {
    assert forall i :: 0 <= i < |init| ==> init[i] == table[i];
  }

  lemma AddKey(before: seq<string>, key: string, after: seq<string>)
    requires Distinct(before)
    requires after == if key in before then before else before + [key]
    ensures Distinct(after)
    ensures forall k :: k in after <==> k in before || k == key
  {
  }

  /** The display names of the table, each kept at its first occurrence. */
  function KeyOrder(table: seq<TagConfig>): seq<string>
    decreases |table|
  {
    if table == [] then []
    else
      var earlier := KeyOrder(table[..|table| - 1]);
      var name := DisplayName(table[|table| - 1]);
      if name in earlier then earlier else earlier + [name]
  }

  /** The document's keys are the display names in order of first occurrence: a later
      tag with a colliding display name replaces the group but not its position. */
  lemma {:induction false} AssembledKeyOrder(table: seq<TagConfig>, hosts: map<string, seq<string>>, varsMap: map<string, VarDoc>)
    requires forall i :: 0 <= i < |table| ==> table[i].name in hosts
    ensures Keys(Assembled(table, hosts, varsMap)) == KeyOrder(table)
    decreases |table|
  {
    if table != [] {
      var init := table[..|table| - 1];
      assert forall i :: 0 <= i < |init| ==> init[i].name in hosts by {
        assert forall i :: 0 <= i < |init| ==> init[i] == table[i];
      }
      AssembledKeyOrder(init, hosts, varsMap);
    }
  }

  /** When several tags share a display name, the last of them wins. */
  lemma {:induction false} AssembledLastWins(table: seq<TagConfig>, hosts: map<string, seq<string>>, varsMap: map<string, VarDoc>, i: nat)
    requires forall j :: 0 <= j < |table| ==> table[j].name in hosts
    requires i < |table|
    requires forall j :: i < j < |table| ==> DisplayName(table[j]) != DisplayName(table[i])
    ensures Lookup(Assembled(table, hosts, varsMap), DisplayName(table[i])) == Some(EntryFor(table[i], hosts, varsMap))
    decreases |table|
  {
    if i < |table| - 1 {
      var init := table[..|table| - 1];
      assert forall j :: 0 <= j < |init| ==> init[j] == table[j];
      AssembledLastWins(init, hosts, varsMap, i);
    }
  }

  /** Without display-name collisions the document lists every tag once, in table order. */
  lemma {:induction false} AssembledInOrder(table: seq<TagConfig>, hosts: map<string, seq<string>>, varsMap: map<string, VarDoc>)
    requires forall j :: 0 <= j < |table| ==> table[j].name in hosts
    requires forall i, j :: 0 <= i < j < |table| ==> DisplayName(table[i]) != DisplayName(table[j])
    ensures |Assembled(table, hosts, varsMap)| == |table|
    ensures forall i :: 0 <= i < |table| ==>
              Assembled(table, hosts, varsMap)[i] == (DisplayName(table[i]), EntryFor(table[i], hosts, varsMap))
    decreases |table|
  {
    if table != [] {
      var init := table[..|table| - 1];
      var last := table[|table| - 1];
      var before := Assembled(init, hosts, varsMap);
      assert |before| == |init| &&
             forall i :: 0 <= i < |init| ==> before[i] == (DisplayName(init[i]), EntryFor(init[i], hosts, varsMap)) by {
        assert forall j :: 0 <= j < |init| ==> init[j] == table[j];
        AssembledInOrder(init, hosts, varsMap);
      }
      LastNameIsNew(table, hosts, varsMap);
      var doc := Assembled(table, hosts, varsMap);
      assert doc == before + [(DisplayName(last), EntryFor(last, hosts, varsMap))];
      InOrderStep(table, init, hosts, varsMap, before, doc);
    }
  }

  lemma InOrderStep(table: seq<TagConfig>, init: seq<TagConfig>, hosts: map<string, seq<string>>,
                    varsMap: map<string, VarDoc>, before: Document, doc: Document)
    requires table != [] && init == table[..|table| - 1]
    requires forall j :: 0 <= j < |table| ==> table[j].name in hosts
    requires |before| == |init|
    requires forall i :: 0 <= i < |init| ==> init[i].name in hosts && before[i] == (DisplayName(init[i]), EntryFor(init[i], hosts, varsMap))
    requires doc == before + [(DisplayName(table[|table| - 1]), EntryFor(table[|table| - 1], hosts, varsMap))]
    ensures |doc| == |table|
    ensures forall i :: 0 <= i < |table| ==> doc[i] == (DisplayName(table[i]), EntryFor(table[i], hosts, varsMap))
  {
    forall i | 0 <= i < |table|
      ensures doc[i] == (DisplayName(table[i]), EntryFor(table[i], hosts, varsMap))
    {
      if i < |init| {
        assert init[i] == table[i];
        assert doc[i] == before[i];
      }
    }
  }

  lemma LastNameIsNew(table: seq<TagConfig>, hosts: map<string, seq<string>>, varsMap: map<string, VarDoc>)
    requires forall j :: 0 <= j < |table| ==> table[j].name in hosts
    requires forall i, j :: 0 <= i < j < |table| ==> DisplayName(table[i]) != DisplayName(table[j])
    requires table != []
    ensures DisplayName(table[|table| - 1]) !in Keys(Assembled(table[..|table| - 1], hosts, varsMap))
  {
    var init := table[..|table| - 1];
    AssembledKeys(init, hosts, varsMap);
  }

  /** Every configured tag has an entry in the tag-to-hosts map. */
  lemma TableNamesInMap(instances: seq<Instance>, table: seq<TagConfig>)
    ensures Consistent(Names(table), TagHostsMap(instances, Names(table)))
    ensures forall i :: 0 <= i < |table| ==> table[i].name in TagHostsMap(instances, Names(table))
  {
    var tags := Names(table);
    TagHostsMapContents(instances, tags);
    forall i | 0 <= i < |table| ensures table[i].name in TagHostsMap(instances, tags) {
      assert tags[i] == table[i].name;
    }
  }

  /** `generate_inventory` after the instance list has been fetched. */
  function GeneratedInventory(instances: seq<Instance>, table: seq<TagConfig>): Result<Document, Error> {
    var tags := Names(table);
    var hosts := TagHostsMap(instances, tags);
    TableNamesInMap(instances, table);
    match TagVars(table, tags, hosts)
    case Err(e) => Err(e)
    case Ok(varsMap) => Ok(Assembled(table, hosts, varsMap))
  }

  /** `generate_inventory` (lines 134-190), the instance list given as a parameter. */
  method GenerateInventory(instances: seq<Instance>, table: seq<TagConfig>) returns (r: Result<Document, Error>)
    ensures r == GeneratedInventory(instances, table)
  {
    var tags := Names(table);
    var hosts := TagHostsMap(instances, tags);
    TableNamesInMap(instances, table);
    var varsMap := ExtractVars(table, tags, hosts);
    if varsMap.Err? {
      return Err(varsMap.error);
    }
    var doc := Assemble(table, hosts, varsMap.value);
    return Ok(doc);
  }
  /** What the generated document holds: one key per display name, and under it the
      group of the last tag with that display name, whose hosts are the addresses of
      the instances labelled with the tag and whose `vars` is present exactly when the
      tag's config has a non-null `vars`. The run fails exactly when some variable fails. */
  lemma GeneratedInventoryContents(instances: seq<Instance>, table: seq<TagConfig>, i: nat)
    requires IsTable(table)
    requires i < |table|
    requires forall j :: i < j < |table| ==> DisplayName(table[j]) != DisplayName(table[i])
    ensures var tags := Names(table);
            var hosts := TagHostsMap(instances, tags);
            Consistent(tags, hosts)
            && (GeneratedInventory(instances, table).Ok?
                <==> forall j :: 0 <= j < |table| ==> VarsResolve(table[j], tags, hosts))
    ensures var tags := Names(table);
            var hosts := TagHostsMap(instances, tags);
            var r := GeneratedInventory(instances, table);
            r.Ok? ==>
              && Distinct(Keys(r.value))
              && (forall k :: (k in Keys(r.value) <==> exists j :: 0 <= j < |table| && DisplayName(table[j]) == k))
              && Lookup(r.value, DisplayName(table[i])).Some?
              && var g := Lookup(r.value, DisplayName(table[i])).value;
                 && g.hosts == Addresses(Tagged(instances, table[i].name))
                 && (g.vars.Some? <==> table[i].vars.Some?)
                 && (g.vars.Some? ==> Ok(g.vars.value) == ExtractVarTable(table[i].vars.value, tags, hosts))
  {
    var tags := Names(table);
    var hosts := TagHostsMap(instances, tags);
    TableNamesInMap(instances, table);
    TagHostsMapContents(instances, tags);
    assert tags[i] == table[i].name;
    var vr := TagVars(table, tags, hosts);
    TagVarsOk(table, tags, hosts);
    if vr.Ok? {
      TagVarsKeys(table, tags, hosts);
      AssembledKeys(table, hosts, vr.value);
      AssembledLastWins(table, hosts, vr.value, i);
      TagVarsValues(table, tags, hosts);
      assert table[i].name in vr.value <==> table[i].vars.Some? by {
        if table[i].name in vr.value {
          var j :| 0 <= j < |table| && table[j].vars.Some? && table[j].name == table[i].name;
          assert j == i;
        }
      }
    }
  }

  /** The end-to-end example: a `web` and a `db` instance, and a `db` variable that
      picks the first `db` host. */
  lemma ExampleInventory(web: Instance, db: Instance, webConf: TagConfig, dbConf: TagConfig, primary: VarDef)
    requires web == Instance("1.1.1.1", map["tags" := "web"])
    requires db == Instance("2.2.2.2", map["tags" := "db"])
    requires primary == VarDef(None, Some(HostName("db[0]")))
    requires webConf == TagConfig("web", None, None)
    requires dbConf == TagConfig("db", Some([("primary", primary)]), None)
    ensures GeneratedInventory([web, db], [webConf, dbConf])
         == Ok([("web", Group(["1.1.1.1"], None)),
                ("db", Group(["2.2.2.2"], Some([("primary", JStr("2.2.2.2"))])))])
  {
    var instances, table := [web, db], [webConf, dbConf];
    var varsMap := map["db" := [("primary", JStr("2.2.2.2"))]];
    ExampleTagVars(web, db, webConf, dbConf, primary);
    var hosts := TagHostsMap(instances, Names(table));
    ExampleAssembled(webConf, dbConf, primary, hosts, varsMap);
    GeneratedFromParts(instances, table, varsMap);
  }

  lemma GeneratedFromParts(instances: seq<Instance>, table: seq<TagConfig>, varsMap: map<string, VarDoc>)
    requires Consistent(Names(table), TagHostsMap(instances, Names(table)))
    requires TagVars(table, Names(table), TagHostsMap(instances, Names(table))) == Ok(varsMap)
    ensures forall i :: 0 <= i < |table| ==> table[i].name in TagHostsMap(instances, Names(table))
    ensures GeneratedInventory(instances, table) == Ok(Assembled(table, TagHostsMap(instances, Names(table)), varsMap))
  {
    TableNamesInMap(instances, table);
  }

  lemma ExampleTagVars(web: Instance, db: Instance, webConf: TagConfig, dbConf: TagConfig, primary: VarDef)
    requires web == Instance("1.1.1.1", map["tags" := "web"])
    requires db == Instance("2.2.2.2", map["tags" := "db"])
    requires primary == VarDef(None, Some(HostName("db[0]")))
    requires webConf == TagConfig("web", None, None)
    requires dbConf == TagConfig("db", Some([("primary", primary)]), None)
    ensures var tags := Names([webConf, dbConf]);
            var hosts := TagHostsMap([web, db], tags);
            && hosts == map["web" := ["1.1.1.1"], "db" := ["2.2.2.2"]]
            && Consistent(tags, hosts)
            && TagVars([webConf, dbConf], tags, hosts) == Ok(map["db" := [("primary", JStr("2.2.2.2"))]])
  {
    var table := [webConf, dbConf];
    var tags := Names(table);
    assert tags == ["web", "db"];
    var hosts := TagHostsMap([web, db], tags);
    assert hosts == map["web" := ["1.1.1.1"], "db" := ["2.2.2.2"]] by {
      ExampleHosts(web, db, tags);
    }
    var d := [("primary", JStr("2.2.2.2"))];
    assert Consistent(tags, hosts) && ExtractVarTable([("primary", primary)], tags, hosts) == Ok(d) by {
      ExampleVars(tags, hosts, primary);
    }
    SecondTagVars(webConf, dbConf, tags, hosts, d);
  }

  lemma SecondTagVars(a: TagConfig, b: TagConfig, tags: seq<string>, hosts: map<string, seq<string>>, d: VarDoc)
    requires Consistent(tags, hosts)
    requires a.vars.None? && b.vars.Some?
    requires ExtractVarTable(b.vars.value, tags, hosts) == Ok(d)
    ensures TagVars([a, b], tags, hosts) == Ok(map[b.name := d])
  {
    assert [a][..0] == [];
    assert [a, b][..1] == [a];
    assert TagVars([a], tags, hosts) == Ok(map[]);
    var empty: map<string, VarDoc> := map[];
    assert empty[b.name := d] == map[b.name := d];
  }

  lemma ExampleAssembled(webConf: TagConfig, dbConf: TagConfig, primary: VarDef,
                         hosts: map<string, seq<string>>, varsMap: map<string, VarDoc>)
    requires webConf == TagConfig("web", None, None)
    requires dbConf == TagConfig("db", Some([("primary", primary)]), None)
    requires hosts == map["web" := ["1.1.1.1"], "db" := ["2.2.2.2"]]
    requires varsMap == map["db" := [("primary", JStr("2.2.2.2"))]]
    ensures Assembled([webConf, dbConf], hosts, varsMap)
         == [("web", Group(["1.1.1.1"], None)), ("db", Group(["2.2.2.2"], Some([("primary", JStr("2.2.2.2"))])))]
  {
    AssembledInOrder([webConf, dbConf], hosts, varsMap);
  }

  lemma ExampleVars(tags: seq<string>, hosts: map<string, seq<string>>, primary: VarDef)
    requires tags == ["web", "db"]
    requires hosts == map["web" := ["1.1.1.1"], "db" := ["2.2.2.2"]]
    requires primary == VarDef(None, Some(HostName("db[0]")))
    ensures Consistent(tags, hosts)
    ensures ExtractVarTable([("primary", primary)], tags, hosts) == Ok([("primary", JStr("2.2.2.2"))])
  {
    ExampleFirstHost(tags, hosts);
    OneVarTable("primary", primary, JStr("2.2.2.2"), tags, hosts);
  }

  lemma OneVarTable(name: string, def: VarDef, value: Json, tags: seq<string>, hosts: map<string, seq<string>>)
    requires Consistent(tags, hosts)
    requires ExtractVar(def, tags, hosts) == Ok(value)
    ensures ExtractVarTable([(name, def)], tags, hosts) == Ok([(name, value)])
  {
    assert [(name, def)][1..] == [];
    assert [(name, value)] + [] == [(name, value)];
  }

  lemma ExampleFirstHost(tags: seq<string>, hosts: map<string, seq<string>>)
    requires tags == ["web", "db"]
    requires hosts == map["web" := ["1.1.1.1"], "db" := ["2.2.2.2"]]
    ensures Consistent(tags, hosts)
    ensures Resolve(HostName("db[0]"), tags, hosts) == Ok(JStr("2.2.2.2"))
  {
    assert hosts.Keys == set t | t in tags;
    assert "db[0]" == "db" + "[" + "0" + "]";
    ResolveIndexed("db", "0", tags, hosts);
    PyInt.ParseZero();
  }

  lemma ExampleHosts(web: Instance, db: Instance, tags: seq<string>)
    requires web == Instance("1.1.1.1", map["tags" := "web"])
    requires db == Instance("2.2.2.2", map["tags" := "db"])
    requires tags == ["web", "db"]
    ensures TagHostsMap([web, db], tags) == map["web" := ["1.1.1.1"], "db" := ["2.2.2.2"]]
  {
    var m := TagHostsMap([web, db], tags);
    ExampleTagged(web, db);
    OneTaggedHost([web, db], tags, "web", web);
    OneTaggedHost([web, db], tags, "db", db);
    assert m.Keys == {"web", "db"};
  }

  lemma OneTaggedHost(instances: seq<Instance>, tags: seq<string>, t: string, inst: Instance)
    requires t in tags
    requires Tagged(instances, t) == [inst]
    ensures TagHostsMap(instances, tags)[t] == [inst.addr]
  {
    SingleKeyQuery(instances, TagsLabel, AnyOf([t]));
  }

  lemma ExampleTagged(web: Instance, db: Instance)
    requires web == Instance("1.1.1.1", map["tags" := "web"])
    requires db == Instance("2.2.2.2", map["tags" := "db"])
    ensures Tagged([web, db], "web") == [web]
    ensures Tagged([web, db], "db") == [db]
  {
    assert "db" != "web";
    KeepTwo(web, db, TagsLabel, AnyOf(["web"]));
    KeepTwo(web, db, TagsLabel, AnyOf(["db"]));
  }

  lemma KeepTwo(a: Instance, b: Instance, key: string, f: LabelFilter)
    ensures KeepMatching([a, b], key, f)
         == (if Matches(a, key, f) then [a] else []) + (if Matches(b, key, f) then [b] else [])
  {
    assert [a, b][..1] == [a];
    assert [a][..0] == [];
    assert KeepMatching([a], key, f) == if Matches(a, key, f) then [a] else [];
  }
}
