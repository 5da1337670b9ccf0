/** The label filter `find_by_labels` (yc_inventory.py, lines 12-24). */
module Labels {

  /** A compute instance: its one-to-one NAT address and its labels. */
  datatype Instance = Instance(addr: string, labels: map<string, string>)

  /** The accepted values for one label key: a bare string or a list of strings. */
  datatype LabelFilter = Single(value: string) | AnyOf(values: seq<string>)

  /** The `labels` argument, key by key in dictionary order. */
  type Query = seq<(string, LabelFilter)>

  /** A bare string is treated as a one-element list. */
  function Accepted(f: LabelFilter): seq<string> {
    match f
    case Single(v) => [v]
    case AnyOf(vs) => vs
  }

  /** The test on line 22: the instance carries `key` and its value is one of the accepted ones. */
  predicate Matches(inst: Instance, key: string, f: LabelFilter) {
    key in inst.labels && inst.labels[key] in Accepted(f)
  }

  /** How many entries of `query` the instance matches. */
  function MatchCount(inst: Instance, query: Query): nat
    decreases |query|
  {
    if query == [] then 0
    else
      var (k, f) := query[|query| - 1];
      MatchCount(inst, query[..|query| - 1]) + (if Matches(inst, k, f) then 1 else 0)
  }

  function Repeat(inst: Instance, n: nat): seq<Instance> {
    seq(n, _ => inst)
  }

  /** Every instance, in order, once per query entry it matches. */
  function Selected(instances: seq<Instance>, query: Query): seq<Instance>
    decreases |instances|
  {
    if instances == [] then []
    else
      var last := instances[|instances| - 1];
      Selected(instances[..|instances| - 1], query) + Repeat(last, MatchCount(last, query))
  }

  /** What `find_by_labels(instances, labels)` returns. */
  function LabelQuery(instances: seq<Instance>, query: Query): seq<Instance> {
    if |query| == 0 then instances else Selected(instances, query)
  }

  /** `a` is `b` with some elements left out and the rest kept in order. */
  predicate IsSubsequence<T(==)>(a: seq<T>, b: seq<T>)
    decreases |b|
  {
    if a == [] then true
    else if b == [] then false
    else
      (a[|a| - 1] == b[|b| - 1] && IsSubsequence(a[..|a| - 1], b[..|b| - 1]))
      || IsSubsequence(a, b[..|b| - 1])
  }

  /** An order-preserving filter: the instances that match one label key. */
  function KeepMatching(instances: seq<Instance>, key: string, f: LabelFilter): seq<Instance>
    decreases |instances|
  {
    if instances == [] then []
    else
      var init := instances[..|instances| - 1];
      var last := instances[|instances| - 1];
      var rest := KeepMatching(init, key, f);
      if Matches(last, key, f) then rest + [last] else rest
  }

  /** The filter keeps every matching instance as often as it occurs, drops every other
      one, and keeps the input order. */
  lemma {:induction false} KeepMatchingSpec(instances: seq<Instance>, key: string, f: LabelFilter)
    ensures forall x :: multiset(KeepMatching(instances, key, f))[x]
                        == if Matches(x, key, f) then multiset(instances)[x] else 0
    ensures IsSubsequence(KeepMatching(instances, key, f), instances)
    decreases |instances|
  {
    if instances != [] {
      var init := instances[..|instances| - 1];
      var last := instances[|instances| - 1];
      KeepMatchingSpec(init, key, f);
      assert instances == init + [last];
      var rest := KeepMatching(init, key, f);
      if Matches(last, key, f) {
        assert (rest + [last])[..|rest|] == rest;
      }
    }
  }

  /** `find_by_labels` as the source runs it: nested loops appending to `res`. */
  method FindByLabels(instances: seq<Instance>, query: Query) returns (res: seq<Instance>)
    ensures |query| == 0 ==> res == instances
    ensures res == LabelQuery(instances, query)
  {
    if |query| == 0 {
      return instances;
    }
    res := [];
    var i := 0;
    while i < |instances|
      invariant 0 <= i <= |instances|
      invariant res == Selected(instances[..i], query)
    {
      var inst := instances[i];
      var j := 0;
      while j < |query|
        invariant 0 <= j <= |query|
        invariant res == Selected(instances[..i], query) + Repeat(inst, MatchCount(inst, query[..j]))
      {
        var (k, v) := query[j];
        var lbls := Accepted(v);
        assert query[..j + 1][..j] == query[..j];
        assert Repeat(inst, MatchCount(inst, query[..j]) + 1)
            == Repeat(inst, MatchCount(inst, query[..j])) + [inst];
        if k in inst.labels && inst.labels[k] in lbls {
          res := res + [inst];
        }
        j := j + 1;
      }
      assert query[..j] == query;
      assert instances[..i + 1][..i] == instances[..i];
      i := i + 1;
    }
    assert instances[..i] == instances;
  }

  lemma {:induction false} MatchCountPositive(inst: Instance, query: Query)
    ensures MatchCount(inst, query) > 0
        <==> exists j :: 0 <= j < |query| && Matches(inst, query[j].0, query[j].1)
    decreases |query|
  {
    if query != [] {
      var init := query[..|query| - 1];
      MatchCountPositive(inst, init);
      if exists j :: 0 <= j < |init| && Matches(inst, init[j].0, init[j].1) {
        var j :| 0 <= j < |init| && Matches(inst, init[j].0, init[j].1);
        assert query[j] == init[j];
      }
      if exists j :: 0 <= j < |query| && Matches(inst, query[j].0, query[j].1) {
        var j :| 0 <= j < |query| && Matches(inst, query[j].0, query[j].1);
        if j < |init| {
          assert init[j] == query[j];
        }
      }
    }
  }

  /** An instance appears once per query entry it matches, times its occurrences in the input. */
  lemma QueryMultiplicity(instances: seq<Instance>, query: Query, x: Instance)
    requires |query| > 0
    ensures multiset(LabelQuery(instances, query))[x] == multiset(instances)[x] * MatchCount(x, query)
  {
    SelectedMultiplicity(instances, query, x);
  }

  lemma {:induction false} SelectedMultiplicity(instances: seq<Instance>, query: Query, x: Instance)
    ensures multiset(Selected(instances, query))[x] == multiset(instances)[x] * MatchCount(x, query)
    decreases |instances|
  {
    if instances != [] {
      var init := instances[..|instances| - 1];
      var last := instances[|instances| - 1];
      var n, c := MatchCount(last, query), MatchCount(x, query);
      SelectedMultiplicity(init, query, x);
      RepeatMultiset(last, n, x);
      var before := multiset(Selected(init, query))[x];
      var added := multiset(Repeat(last, n))[x];
      assert multiset(Selected(instances, query))[x] == before + added;
      assert instances == init + [last];
      var m := multiset(init)[x];
      assert before == m * c;
      if x == last {
        assert multiset(instances)[x] == m + 1;
        assert added == c;
        MulSucc(m, c);
      } else {
        assert multiset(instances)[x] == m;
        assert added == 0;
      }
    }
  }

  lemma MulSucc(m: int, c: int)
    ensures (m + 1) * c == m * c + c
  {
  }

  lemma {:induction false} RepeatMultiset(inst: Instance, n: nat, x: Instance)
    ensures multiset(Repeat(inst, n))[x] == if x == inst then n else 0
    decreases n
  {
    if n > 0 {
      RepeatMultiset(inst, n - 1, x);
      assert Repeat(inst, n) == Repeat(inst, n - 1) + [inst];
    }
  }

  /** Everything `find_by_labels` returns is an input instance that matched at least one key. */
  lemma QuerySound(instances: seq<Instance>, query: Query, x: Instance)
    requires |query| > 0
    requires x in LabelQuery(instances, query)
    ensures x in instances
    ensures exists j :: 0 <= j < |query| && Matches(x, query[j].0, query[j].1)
  {
    QueryMultiplicity(instances, query, x);
    MatchCountPositive(x, query);
  }

  /** With one label key the query is an order-preserving filter. */
  lemma {:induction false} SingleKeyQuery(instances: seq<Instance>, key: string, f: LabelFilter)
    ensures LabelQuery(instances, [(key, f)]) == KeepMatching(instances, key, f)
    decreases |instances|
  {
    if instances != [] {
      var init := instances[..|instances| - 1];
      var last := instances[|instances| - 1];
      SingleKeyQuery(init, key, f);
      var q := [(key, f)];
      assert q[..0] == [];
      assert MatchCount(last, q) == if Matches(last, key, f) then 1 else 0;
      assert Selected(instances, q) == Selected(init, q) + Repeat(last, MatchCount(last, q));
      assert Repeat(last, 1) == [last];
      assert Repeat(last, 0) == [];
    }
  }

  /** Two filters that accept the same instances select the same instances. */
  lemma {:induction false} KeepMatchingSameFilter(instances: seq<Instance>, key: string, f: LabelFilter, g: LabelFilter)
    requires forall x :: Matches(x, key, f) == Matches(x, key, g)
    ensures KeepMatching(instances, key, f) == KeepMatching(instances, key, g)
    decreases |instances|
  {
    if instances != [] {
      KeepMatchingSameFilter(instances[..|instances| - 1], key, f, g);
    }
  }

  /** A bare string filter value behaves as the one-element list holding it. */
  lemma SingleIsOneElementList(instances: seq<Instance>, key: string, v: string)
    ensures LabelQuery(instances, [(key, Single(v))]) == LabelQuery(instances, [(key, AnyOf([v]))])
  {
    SingleKeyQuery(instances, key, Single(v));
    SingleKeyQuery(instances, key, AnyOf([v]));
    KeepMatchingSameFilter(instances, key, Single(v), AnyOf([v]));
  }

  /** An empty list of accepted values selects nothing. */
  lemma EmptyAcceptedSelectsNothing(instances: seq<Instance>, key: string)
    ensures LabelQuery(instances, [(key, AnyOf([]))]) == []
  {
    SingleKeyQuery(instances, key, AnyOf([]));
    KeepMatchingSpec(instances, key, AnyOf([]));
  }

  /** With one label key, the result holds exactly the matching instances, in input order;
      an instance lacking the key is never selected. */
  lemma SingleKeySelection(instances: seq<Instance>, key: string, f: LabelFilter)
    ensures IsSubsequence(LabelQuery(instances, [(key, f)]), instances)
    ensures forall x :: (x in LabelQuery(instances, [(key, f)])
                         <==> x in instances && key in x.labels && x.labels[key] in Accepted(f))
  {
    SingleKeyQuery(instances, key, f);
    KeepMatchingSpec(instances, key, f);
    var r := KeepMatching(instances, key, f);
    forall x ensures x in r <==> x in instances && Matches(x, key, f) {
      assert x in r <==> multiset(r)[x] > 0;
      assert x in instances <==> multiset(instances)[x] > 0;
    }
  }
}
