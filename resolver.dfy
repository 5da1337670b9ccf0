/** Host-reference resolution inside `generate_inventory` (yc_inventory.py, lines 143-169):
    the tag-to-hosts map and the two closures `set_host_as_value` and `extract_var`,
    lifted to top-level functions that take the tag list and the tag-to-hosts map. */
module Resolver {
  import opened Wrappers
  import opened Labels
  import PyInt

  /** A YAML/JSON value: what a `value` literal holds and what resolution produces. */
  datatype Json =
    | JNull
    | JBool(b: bool)
    | JInt(i: int)
    | JStr(s: string)
    | JList(items: seq<Json>)
    | JObject(fields: seq<(string, Json)>)

  /** The `hosts` entry of a variable: a reference string or a (nested) list of them. */
  datatype HostSpec = HostName(name: string) | HostList(items: seq<HostSpec>)

  /** A variable definition: its optional `value` key and its optional `hosts` key. */
  datatype VarDef = VarDef(value: Option<Json>, hosts: Option<HostSpec>)

  /** The exceptions resolution can raise. `UnpackMismatch` and `NotAnInteger`
      are both Python `ValueError`s. */
  datatype Error =
    | KeyError(key: string)
    | UnpackMismatch
    | NotAnInteger(text: string)
    | IndexError(index: int)

  /** The label key that assigns an instance to a tag. */
  const TagsLabel: string := "tags"

  /** The filter `{'tags': [tag]}` passed to `find_by_labels`. */
  function TagQuery(tag: string): Query {
    [(TagsLabel, AnyOf([tag]))]
  }

  function Addresses(instances: seq<Instance>): seq<string> {
    seq(|instances|, i requires 0 <= i < |instances| => instances[i].addr)
  }

  /** `tag_hosts_map`: every configured tag with the addresses of the instances found for it. */
  function TagHostsMap(instances: seq<Instance>, tags: seq<string>): (r: map<string, seq<string>>)
    ensures r.Keys == set t | t in tags
  {
    map t | t in tags :: Addresses(LabelQuery(instances, TagQuery(t)))
  }

  /** The instances whose `tags` label is exactly `tag`, in input order. */
  function Tagged(instances: seq<Instance>, tag: string): seq<Instance> {
    KeepMatching(instances, TagsLabel, AnyOf([tag]))
  }

  /** The map has exactly the configured tags as keys, and each tag lists the
      addresses of the instances labelled with it, in input order. */
  lemma TagHostsMapContents(instances: seq<Instance>, tags: seq<string>)
    ensures TagHostsMap(instances, tags).Keys == set t | t in tags
    ensures forall t :: t in tags ==> TagHostsMap(instances, tags)[t] == Addresses(Tagged(instances, t))
    ensures forall t, x ::
              x in Tagged(instances, t) <==> x in instances && TagsLabel in x.labels && x.labels[TagsLabel] == t
  {
    forall t | t in tags
      ensures TagHostsMap(instances, tags)[t] == Addresses(Tagged(instances, t))
    {
      SingleKeyQuery(instances, TagsLabel, AnyOf([t]));
    }
    forall t, x
      ensures x in Tagged(instances, t) <==> x in instances && TagsLabel in x.labels && x.labels[TagsLabel] == t
    {
      var r := Tagged(instances, t);
      KeepMatchingSpec(instances, TagsLabel, AnyOf([t]));
      assert x in r <==> multiset(r)[x] > 0;
      assert x in instances <==> multiset(instances)[x] > 0;
    }
  }

  predicate Distinct<T(==)>(s: seq<T>) {
    forall i, j :: 0 <= i < j < |s| ==> s[i] != s[j]
  }

  lemma {:induction false} SubsequenceAddresses(a: seq<Instance>, b: seq<Instance>)
    requires IsSubsequence(a, b)
    ensures IsSubsequence(Addresses(a), Addresses(b))
    decreases |b|
  {
    if a != [] && b != [] {
      var a', b' := a[..|a| - 1], b[..|b| - 1];
      assert Addresses(a') == Addresses(a)[..|a| - 1];
      assert Addresses(b') == Addresses(b)[..|b| - 1];
      if a[|a| - 1] == b[|b| - 1] && IsSubsequence(a', b') {
        SubsequenceAddresses(a', b');
      } else {
        SubsequenceAddresses(a, b');
      }
    }
  }

  lemma {:induction false} SubsequenceDistinct(a: seq<string>, b: seq<string>)
    requires IsSubsequence(a, b) && Distinct(b)
    ensures Distinct(a) && forall x :: x in a ==> x in b
    decreases |b|
  {
    if a != [] && b != [] {
      var a', b' := a[..|a| - 1], b[..|b| - 1];
      if a[|a| - 1] == b[|b| - 1] && IsSubsequence(a', b') {
        SubsequenceDistinct(a', b');
        assert a == a' + [a[|a| - 1]];
        forall i | 0 <= i < |a'| ensures a'[i] != a[|a| - 1] {
          assert a'[i] in b';
          var k :| 0 <= k < |b'| && b'[k] == a'[i];
          assert b[k] == b'[k];
        }
      } else {
        SubsequenceDistinct(a, b');
      }
    }
  }

  /** Each tag lists its addresses in instance order. */
  lemma TagHostsInOrder(instances: seq<Instance>, tags: seq<string>, t: string)
    requires t in tags
    ensures IsSubsequence(TagHostsMap(instances, tags)[t], Addresses(instances))
  {
    TagHostsMapContents(instances, tags);
    KeepMatchingSpec(instances, TagsLabel, AnyOf([t]));
    SubsequenceAddresses(Tagged(instances, t), instances);
  }

  /** When no two instances share an address, no tag lists an address twice. */
  lemma TagHostsNoDuplicates(instances: seq<Instance>, tags: seq<string>, t: string)
    requires t in tags
    requires Distinct(Addresses(instances))
    ensures Distinct(TagHostsMap(instances, tags)[t])
  {
    TagHostsMapContents(instances, tags);
    KeepMatchingSpec(instances, TagsLabel, AnyOf([t]));
    SubsequenceAddresses(Tagged(instances, t), instances);
    SubsequenceDistinct(Addresses(Tagged(instances, t)), Addresses(instances));
  }

  /** The lifted closures see the tag list and the map built from it. */
  predicate Consistent(tags: seq<string>, hosts: map<string, seq<string>>) {
    hosts.Keys == set t | t in tags
  }

  /** A host list as the JSON list of its addresses. */
  function HostsJson(hs: seq<string>): Json {
    JList(seq(|hs|, i requires 0 <= i < |hs| => JStr(hs[i])))
  }

  /** Python's `str.find` for one character: the first position of `c`, or -1. */
  function Find(s: string, c: char): (r: int)
    ensures -1 <= r < |s|
    ensures r == -1 <==> c !in s
    ensures r >= 0 ==> s[r] == c && c !in s[..r]
    decreases |s|
  {
    if |s| == 0 then -1
    else if s[0] == c then 0
    else
      var r := Find(s[1..], c);
      if r == -1 then -1 else r + 1
  }

  /** The test on line 158: a `[` somewhere and the first `]` as the last character. */
  predicate LooksIndexed(s: string) {
    Find(s, '[') != -1 && Find(s, ']') == |s| - 1
  }

  /** `hosts[i]` behind the bounds check on line 161: too large an index gives `[]`,
      a negative one counts from the end as Python does. */
  function PyIndex(hs: seq<string>, i: int): (r: Result<Json, Error>)
    ensures r.Err? <==> i < -|hs|
    ensures r == Ok(JList([])) <==> |hs| <= i
    ensures r.Ok? && r.value.JStr? ==> r.value.s in hs
  {
    if |hs| <= i then Ok(JList([]))
    else if 0 <= i then Ok(JStr(hs[i]))
    else if -|hs| <= i then Ok(JStr(hs[|hs| + i]))
    else Err(IndexError(i))
  }

  /** `set_host_as_value` on a string (lines 156-164). Falling off the end returns `None`. */
  function ResolveName(s: string, tags: seq<string>, hosts: map<string, seq<string>>): (r: Result<Json, Error>)
    requires Consistent(tags, hosts)
    ensures s in tags ==> r == Ok(HostsJson(hosts[s]))
    ensures r.Err? ==> s !in tags && LooksIndexed(s)
  {
    if s in tags then Ok(HostsJson(hosts[s]))
    else if LooksIndexed(s) then
      var p := Find(s, '[');
      if '[' in s[p + 1..] then Err(UnpackMismatch)
      else
        var text := s[p + 1..|s| - 1];
        match PyInt.Parse(text)
        case None => Err(NotAnInteger(text))
        case Some(i) =>
          if s[..p] in hosts then PyIndex(hosts[s[..p]], i) else Err(KeyError(s[..p]))
    else Ok(JNull)
  }

  /** `set_host_as_value` (lines 153-164): lists are resolved element by element. */
  function Resolve(h: HostSpec, tags: seq<string>, hosts: map<string, seq<string>>): (r: Result<Json, Error>)
    requires Consistent(tags, hosts)
    ensures h.HostList? && r.Ok? ==> r.value.JList? && |r.value.items| == |h.items|
    decreases h
  {
    match h
    case HostName(s) => ResolveName(s, tags, hosts)
    case HostList(items) =>
      match ResolveAll(items, tags, hosts)
      case Ok(vs) => Ok(JList(vs))
      case Err(e) => Err(e)
  }

  /** The list comprehension on line 155: the i-th result resolves the i-th element,
      and the first element that raises aborts the whole list. */
  function ResolveAll(items: seq<HostSpec>, tags: seq<string>, hosts: map<string, seq<string>>): (r: Result<seq<Json>, Error>)
    requires Consistent(tags, hosts)
    ensures r.Ok? ==> |r.value| == |items|
    ensures r.Ok? ==> forall k :: 0 <= k < |items| ==> Resolve(items[k], tags, hosts) == Ok(r.value[k])
    ensures r.Err? ==> exists k :: 0 <= k < |items| && Resolve(items[k], tags, hosts) == Err(r.error)
                                   && forall j :: 0 <= j < k ==> Resolve(items[j], tags, hosts).Ok?
    decreases items
  {
    if items == [] then Ok([])
    else
      match Resolve(items[0], tags, hosts)
      case Err(e) => Err(e)
      case Ok(v) =>
        match ResolveAll(items[1..], tags, hosts)
        case Err(e) => Err(e)
        case Ok(vs) => Ok([v] + vs)
  }

  /** `extract_var` (lines 166-169): a `value` wins over `hosts`; with neither, `var['hosts']` raises. */
  function ExtractVar(v: VarDef, tags: seq<string>, hosts: map<string, seq<string>>): (r: Result<Json, Error>)
    requires Consistent(tags, hosts)
    ensures r.Err? ==> v.value.None?
    ensures v.value.None? && v.hosts.None? ==> r == Err(KeyError("hosts"))
  {
    match v.value
    case Some(lit) => Ok(lit)
    case None =>
      match v.hosts
      case Some(h) => Resolve(h, tags, hosts)
      case None => Err(KeyError("hosts"))
  }
  lemma FindFirst(s: string, c: char, k: nat)
    requires k < |s| && s[k] == c && c !in s[..k]
    ensures Find(s, c) == k
  {
  }

  /** The bracket test in plain terms: a `[` somewhere, `]` last, and no other `]`. */
  lemma LooksIndexedIff(s: string)
    ensures LooksIndexed(s) <==> '[' in s && |s| > 0 && s[|s| - 1] == ']' && ']' !in s[..|s| - 1]
  {
    if '[' in s && |s| > 0 && s[|s| - 1] == ']' && ']' !in s[..|s| - 1] {
      FindFirst(s, ']', |s| - 1);
    }
  }

  /** Every string that passes the bracket test is `name[text]` with no `[` or `]` in
      `name` and no `]` in `text`. */
  lemma IndexedShape(s: string) returns (name: string, text: string)
    requires LooksIndexed(s)
    ensures s == name + "[" + text + "]"
    ensures '[' !in name && ']' !in name && ']' !in text
  {
    var p := Find(s, '[');
    var q := Find(s, ']');
    name, text := s[..p], s[p + 1..|s| - 1];
    assert s == s[..p] + [s[p]] + s[p + 1..|s| - 1] + [s[|s| - 1]];
    assert forall k :: 0 <= k < p ==> s[..p][k] == s[..q][k];
    assert forall k :: 0 <= k < |text| ==> text[k] == s[..q][p + 1 + k];
  }

  /** Resolution of `name[text]` when the whole string is not itself a tag:
      a second `[` fails the two-way unpack, then `int()` must accept `text`,
      then `name` must be a tag. */
  lemma ResolveIndexed(name: string, text: string, tags: seq<string>, hosts: map<string, seq<string>>)
    requires Consistent(tags, hosts)
    requires '[' !in name && ']' !in name && ']' !in text
    requires name + "[" + text + "]" !in tags
    ensures var r := Resolve(HostName(name + "[" + text + "]"), tags, hosts);
      && ('[' in text ==> r == Err(UnpackMismatch))
      && ('[' !in text && PyInt.Parse(text).None? ==> r == Err(NotAnInteger(text)))
      && ('[' !in text && PyInt.Parse(text).Some? && name !in tags ==> r == Err(KeyError(name)))
      && ('[' !in text && PyInt.Parse(text).Some? && name in tags ==>
            r == PyIndex(hosts[name], PyInt.Parse(text).value))
  {
    IndexedParts(name, text);
  }

  lemma IndexedParts(name: string, text: string)
    requires '[' !in name && ']' !in name && ']' !in text
    ensures var s := name + "[" + text + "]";
      && LooksIndexed(s) && Find(s, '[') == |name|
      && s[..|name|] == name && s[|name| + 1..|s| - 1] == text
      && ('[' in s[|name| + 1..] <==> '[' in text)
  {
    var s := name + "[" + text + "]";
    var p := |name|;
    assert s[..p] == name;
    FindFirst(s, '[', p);
    assert s[..|s| - 1] == name + "[" + text;
    FindFirst(s, ']', |s| - 1);
    assert s[p + 1..] == text + "]";
    assert s[p + 1..|s| - 1] == text;
  }

  /** A string that is neither a tag nor of the form `name[text]` resolves to `None`. */
  lemma ResolveFallThrough(s: string, tags: seq<string>, hosts: map<string, seq<string>>)
    requires Consistent(tags, hosts)
    requires s !in tags
    requires !('[' in s && |s| > 0 && s[|s| - 1] == ']' && ']' !in s[..|s| - 1])
    ensures Resolve(HostName(s), tags, hosts) == Ok(JNull)
  {
    LooksIndexedIff(s);
  }

  /** A tag name is looked up before any bracket parsing: it gives the tag's whole host list. */
  lemma ResolveTagName(s: string, tags: seq<string>, hosts: map<string, seq<string>>)
    requires Consistent(tags, hosts)
    requires s in tags
    ensures s in hosts
    ensures Resolve(HostName(s), tags, hosts) == Ok(HostsJson(hosts[s]))
    ensures |HostsJson(hosts[s]).items| == |hosts[s]|
    ensures forall k :: 0 <= k < |hosts[s]| ==> HostsJson(hosts[s]).items[k] == JStr(hosts[s][k])
  {
  }

  /** `name[i]`, written with an integer `i`, picks host `i` as Python indexing does:
      an index at or past the end gives `[]`, a negative one counts from the end,
      and one below `-len` raises `IndexError`. */
  lemma ResolveIndexRoundTrip(name: string, i: int, tags: seq<string>, hosts: map<string, seq<string>>)
    requires Consistent(tags, hosts)
    requires '[' !in name && ']' !in name && name in tags
    requires name + "[" + PyInt.IntToString(i) + "]" !in tags
    ensures var r := Resolve(HostName(name + "[" + PyInt.IntToString(i) + "]"), tags, hosts);
            var hs := hosts[name];
      && (|hs| <= i ==> r == Ok(JList([])))
      && (0 <= i < |hs| ==> r == Ok(JStr(hs[i])))
      && (-|hs| <= i < 0 ==> r == Ok(JStr(hs[|hs| + i])))
      && (i < -|hs| ==> r == Err(IndexError(i)))
  {
    var text := PyInt.IntToString(i);
    PyInt.ParseIntToString(i);
    ResolveIndexed(name, text, tags, hosts);
  }

  /** `extract_var` returns a `value` literal unchanged, even a tag name and even when
      `hosts` is present; only `hosts` is resolved. */
  lemma ExtractVarPrecedence(v: VarDef, tags: seq<string>, hosts: map<string, seq<string>>)
    requires Consistent(tags, hosts)
    ensures v.value.Some? ==> ExtractVar(v, tags, hosts) == Ok(v.value.value)
    ensures v.value.None? && v.hosts.Some? ==> ExtractVar(v, tags, hosts) == Resolve(v.hosts.value, tags, hosts)
    ensures v.value.None? && v.hosts.None? ==> ExtractVar(v, tags, hosts) == Err(KeyError("hosts"))
  {
  }

  /** A tag name given as a literal stays a string; given under `hosts` it becomes the tag's hosts. */
  lemma LiteralTagNameNotResolved(t: string, tags: seq<string>, hosts: map<string, seq<string>>)
    requires Consistent(tags, hosts)
    requires t in tags
    ensures ExtractVar(VarDef(Some(JStr(t)), Some(HostName(t))), tags, hosts) == Ok(JStr(t))
    ensures ExtractVar(VarDef(Some(JList([JStr(t)])), None), tags, hosts) == Ok(JList([JStr(t)]))
    ensures ExtractVar(VarDef(None, Some(HostName(t))), tags, hosts) == Ok(HostsJson(hosts[t]))
  {
  }

  /** Against `web = [10.0.0.1, 10.0.0.2]`, a reference whose bracket is not closed at
      the end is not an indexed reference: it resolves to `None`. */
  lemma ExampleUnclosedBracket(s: string, tags: seq<string>, hosts: map<string, seq<string>>)
    requires s == "web[abc"
    requires tags == ["web"]
    requires hosts == map["web" := ["10.0.0.1", "10.0.0.2"]]
    ensures Consistent(tags, hosts)
    ensures Resolve(HostName(s), tags, hosts) == Ok(JNull)
  {
    assert hosts.Keys == set t | t in tags;
    assert s[|s| - 1] == 'c';
    assert s != "web";
    ResolveFallThrough(s, tags, hosts);
  }

  /** Against the same map, an unknown tag before a valid index raises `KeyError` on
      the tag name. */
  lemma ExampleUnknownTag(name: string, text: string, tags: seq<string>, hosts: map<string, seq<string>>)
    requires name == "unknown" && text == "0"
    requires tags == ["web"]
    requires hosts == map["web" := ["10.0.0.1", "10.0.0.2"]]
    ensures Consistent(tags, hosts)
    ensures Resolve(HostName(name + "[" + text + "]"), tags, hosts) == Err(KeyError(name))
  {
    assert Consistent(tags, hosts) by {
      assert hosts.Keys == set t | t in tags;
    }
    assert name !in tags && name + "[" + text + "]" !in tags by {
      assert name != "web" && name + "[" + text + "]" != "web";
    }
    assert '[' !in name && ']' !in name && '[' !in text && ']' !in text;
    assert PyInt.Parse(text).Some? by {
      PyInt.ParseZero();
    }
    ResolveIndexed(name, text, tags, hosts);
  }
}
