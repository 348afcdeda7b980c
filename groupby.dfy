/** Grouping as `DataFrame.groupby([a, b]).agg(...)` does it for the two
    aggregates of the dashboard: every row carries a key made of an integer
    column and a string column, the result holds one group per key present,
    the groups come out sorted by key (pandas sorts group keys by default),
    and each group keeps the sum and the number of its values. */
module GroupBy {

  /** Python's `<` on str: code point by code point, a proper prefix first. */
  predicate StrLess(a: string, b: string)
  {
    if a == [] then b != []
    else if b == [] then false
    else a[0] < b[0] || (a[0] == b[0] && StrLess(a[1..], b[1..]))
  }

  lemma {:induction false} StrLessIrreflexive(a: string)
    ensures !StrLess(a, a)
  {
    if a != [] {
      StrLessIrreflexive(a[1..]);
    }
  }

  lemma {:induction false} StrLessTransitive(a: string, b: string, c: string)
    requires StrLess(a, b) && StrLess(b, c)
    ensures StrLess(a, c)
  {
    if a != [] && a[0] == b[0] && b[0] == c[0] {
      StrLessTransitive(a[1..], b[1..], c[1..]);
    }
  }

  lemma {:induction false} StrLessTotal(a: string, b: string)
    ensures a == b || StrLess(a, b) || StrLess(b, a)
  {
    if a != [] && b != [] && a[0] == b[0] {
      StrLessTotal(a[1..], b[1..]);
      if a[1..] == b[1..] {
        assert a == [a[0]] + a[1..] && b == [b[0]] + b[1..];
      }
    }
  }

  /** A group key: the first grouping column (an integer) and the second (a string). */
  datatype Key = Key(major: int, minor: string)

  /** The order of pandas' sorted group keys: by the first column, then the second. */
  predicate KeyLess(a: Key, b: Key)
  {
    a.major < b.major || (a.major == b.major && StrLess(a.minor, b.minor))
  }

  lemma KeyLessIrreflexive(a: Key)
    ensures !KeyLess(a, a)
  {
    StrLessIrreflexive(a.minor);
  }

  lemma KeyLessTransitive(a: Key, b: Key, c: Key)
    requires KeyLess(a, b) && KeyLess(b, c)
    ensures KeyLess(a, c)
  {
    if a.major == b.major == c.major {
      StrLessTransitive(a.minor, b.minor, c.minor);
    }
  }

  lemma KeyLessTotal(a: Key, b: Key)
    ensures a == b || KeyLess(a, b) || KeyLess(b, a)
  {
    StrLessTotal(a.minor, b.minor);
  }

  /** A set of keys as (first column, second column) pairs. */
  function AsPairs(keys: set<Key>): set<(int, string)>
  {
    set k | k in keys :: (k.major, k.minor)
  }

  lemma AsPairsSize(keys: set<Key>)
    ensures |AsPairs(keys)| == |keys|
  {
    if keys != {} {
      var k :| k in keys;
      var rest := keys - {k};
      AsPairsSize(rest);
      assert AsPairs(keys) == AsPairs(rest) + {(k.major, k.minor)};
    }
  }

  /** One input row as the aggregation sees it: its key and the value aggregated. */
  datatype Obs = Obs(key: Key, value: nat)

  /** One output row: the key, the sum of the values with that key and how many there were. */
  datatype Group = Group(key: Key, sum: nat, count: nat)

  function Sum(s: seq<nat>): nat
  {
    if s == [] then 0 else s[0] + Sum(s[1..])
  }

  /** The values of the rows with key `k`, in row order: the members of group `k`. */
  function Values(obs: seq<Obs>, k: Key): seq<nat>
  {
    if obs == [] then []
    else if obs[0].key == k then [obs[0].value] + Values(obs[1..], k)
    else Values(obs[1..], k)
  }

  /** The sum of every value, whatever its key. */
  function ObsTotal(obs: seq<Obs>): nat
  {
    if obs == [] then 0 else obs[0].value + ObsTotal(obs[1..])
  }

  function ObsKeys(obs: seq<Obs>): set<Key>
  {
    set o | o in obs :: o.key
  }

  function GroupKeys(gs: seq<Group>): set<Key>
  {
    set g | g in gs :: g.key
  }

  /** Keys strictly increasing, hence pairwise distinct. */
  predicate Sorted(gs: seq<Group>)
  {
    forall i, j :: 0 <= i < j < |gs| ==> KeyLess(gs[i].key, gs[j].key)
  }

  /** What every aggregate satisfies: sorted keys, and no empty group. */
  predicate WellFormed(gs: seq<Group>)
  {
    Sorted(gs) && forall i :: 0 <= i < |gs| ==> gs[i].count >= 1
  }

  /** The sum recorded for key `k` (0 when there is no such group). */
  function SumOf(gs: seq<Group>, k: Key): nat
  {
    if gs == [] then 0 else (if gs[0].key == k then gs[0].sum else 0) + SumOf(gs[1..], k)
  }

  /** The count recorded for key `k` (0 when there is no such group). */
  function CountOf(gs: seq<Group>, k: Key): nat
  {
    if gs == [] then 0 else (if gs[0].key == k then gs[0].count else 0) + CountOf(gs[1..], k)
  }

  /** The sum over all groups of their sums. */
  function TotalOf(gs: seq<Group>): nat
  {
    if gs == [] then 0 else gs[0].sum + TotalOf(gs[1..])
  }

  /** The sum over all groups of their counts. */
  function RowsOf(gs: seq<Group>): nat
  {
    if gs == [] then 0 else gs[0].count + RowsOf(gs[1..])
  }

  lemma {:induction false} KeyBeforeAll(k: Key, gs: seq<Group>)
    requires Sorted(gs) && gs != [] && KeyLess(k, gs[0].key)
    ensures forall j :: 0 <= j < |gs| ==> KeyLess(k, gs[j].key)
  {
    forall j | 0 < j < |gs|
      ensures KeyLess(k, gs[j].key)
    {
      KeyLessTransitive(k, gs[0].key, gs[j].key);
    }
  }

  /** Adds one value under key `k`: into its group when there is one,
      otherwise as a new group at its sorted place. */
  function Insert(gs: seq<Group>, k: Key, v: nat): seq<Group>
  {
    if gs == [] then [Group(k, v, 1)]
    else if gs[0].key == k then [Group(k, gs[0].sum + v, gs[0].count + 1)] + gs[1..]
    else if KeyLess(k, gs[0].key) then [Group(k, v, 1)] + gs
    else [gs[0]] + Insert(gs[1..], k, v)
  }

  lemma GroupKeysCons(g: Group, rest: seq<Group>)
    ensures GroupKeys([g] + rest) == {g.key} + GroupKeys(rest)
  {
    var r := [g] + rest;
    forall x | x in GroupKeys(r)
      ensures x in {g.key} + GroupKeys(rest)
    {
      var h :| h in r && h.key == x;
      if h != g {
        assert h in rest;
      }
    }
  }

  lemma {:induction false} InsertKeys(gs: seq<Group>, k: Key, v: nat)
    ensures GroupKeys(Insert(gs, k, v)) == GroupKeys(gs) + {k}
  {
    if gs == [] {
      assert Insert(gs, k, v) == [Group(k, v, 1)];
    } else {
      GroupKeysCons(gs[0], gs[1..]);
      assert gs == [gs[0]] + gs[1..];
      if gs[0].key == k {
        GroupKeysCons(Group(k, gs[0].sum + v, gs[0].count + 1), gs[1..]);
      } else if KeyLess(k, gs[0].key) {
        GroupKeysCons(Group(k, v, 1), gs);
      } else {
        InsertKeys(gs[1..], k, v);
        GroupKeysCons(gs[0], Insert(gs[1..], k, v));
      }
    }
  }

  lemma {:induction false} InsertKeepsOrder(gs: seq<Group>, k: Key, v: nat)
    requires WellFormed(gs)
    ensures WellFormed(Insert(gs, k, v))
  {
    var r := Insert(gs, k, v);
    if gs == [] || gs[0].key == k {
    } else if KeyLess(k, gs[0].key) {
      KeyBeforeAll(k, gs);
    } else {
      KeyLessTotal(k, gs[0].key);
      var rest := Insert(gs[1..], k, v);
      InsertKeepsOrder(gs[1..], k, v);
      InsertKeys(gs[1..], k, v);
      assert r == [gs[0]] + rest;
      forall j | 0 < j < |r|
        ensures KeyLess(gs[0].key, r[j].key)
      {
        assert r[j] == rest[j - 1];
        assert rest[j - 1].key in GroupKeys(rest);
      }
    }
  }

  lemma {:induction false} InsertAdds(gs: seq<Group>, k: Key, v: nat)
    ensures forall j :: SumOf(Insert(gs, k, v), j) == SumOf(gs, j) + (if j == k then v else 0)
    ensures forall j :: CountOf(Insert(gs, k, v), j) == CountOf(gs, j) + (if j == k then 1 else 0)
    ensures TotalOf(Insert(gs, k, v)) == TotalOf(gs) + v
    ensures RowsOf(Insert(gs, k, v)) == RowsOf(gs) + 1
  {
    var r := Insert(gs, k, v);
    if gs == [] {
    } else if gs[0].key == k {
      assert r[1..] == gs[1..];
    } else if KeyLess(k, gs[0].key) {
      assert r[1..] == gs;
    } else {
      InsertAdds(gs[1..], k, v);
      assert r[1..] == Insert(gs[1..], k, v);
    }
  }

  /** `groupby(key).agg(...)` keeping sum and count: one group per key present, sorted by key. */
  function Aggregate(obs: seq<Obs>): seq<Group>
  {
    if obs == [] then [] else Insert(Aggregate(obs[1..]), obs[0].key, obs[0].value)
  }

  /** Two rows with keys in order make two one-row groups in that order. */
  lemma AggregateTwo(k1: Key, v1: nat, k2: Key, v2: nat)
    requires KeyLess(k1, k2)
    ensures Aggregate([Obs(k1, v1), Obs(k2, v2)]) == [Group(k1, v1, 1), Group(k2, v2, 1)]
  {
    var obs := [Obs(k1, v1), Obs(k2, v2)];
    assert obs[1..] == [Obs(k2, v2)];
    assert obs[1..][1..] == [];
    assert Aggregate(obs[1..]) == [Group(k2, v2, 1)];
    KeyLessIrreflexive(k1);
  }

  /** The aggregate is well formed, has exactly the keys of its input, records
      for every key the sum and the number of that key's values, and neither
      loses nor invents a value: its sums add up to the input's total and its
      counts to the number of input rows. */
  lemma {:induction false} AggregateSpec(obs: seq<Obs>)
    ensures var r := Aggregate(obs);
      && WellFormed(r)
      && GroupKeys(r) == ObsKeys(obs)
      && (forall j :: SumOf(r, j) == Sum(Values(obs, j)))
      && (forall j :: CountOf(r, j) == |Values(obs, j)|)
      && TotalOf(r) == ObsTotal(obs)
      && RowsOf(r) == |obs|
  {
    if obs != [] {
      var rest := Aggregate(obs[1..]);
      AggregateSpec(obs[1..]);
      assert ObsKeys(obs) == {obs[0].key} + ObsKeys(obs[1..]);
      InsertKeepsOrder(rest, obs[0].key, obs[0].value);
      InsertKeys(rest, obs[0].key, obs[0].value);
      InsertAdds(rest, obs[0].key, obs[0].value);
    }
  }

  /** Every group of an aggregate has at least one member. */
  lemma AggregateNoEmptyGroup(obs: seq<Obs>)
    ensures forall i :: 0 <= i < |Aggregate(obs)| ==> Aggregate(obs)[i].count > 0
  {
    AggregateSpec(obs);
  }

  lemma {:induction false} AbsentKey(gs: seq<Group>, k: Key)
    requires k !in GroupKeys(gs)
    ensures SumOf(gs, k) == 0 && CountOf(gs, k) == 0
  {
    if gs != [] {
      GroupKeysCons(gs[0], gs[1..]);
      assert gs == [gs[0]] + gs[1..];
      AbsentKey(gs[1..], k);
    }
  }

  /** In a well-formed aggregate the group of a key is the only one that speaks for it. */
  lemma {:induction false} GroupAt(gs: seq<Group>, i: nat)
    requires WellFormed(gs) && i < |gs|
    ensures SumOf(gs, gs[i].key) == gs[i].sum
    ensures CountOf(gs, gs[i].key) == gs[i].count
  {
    assert WellFormed(gs[1..]);
    if i == 0 {
      if gs[0].key in GroupKeys(gs[1..]) {
        var h :| h in gs[1..] && h.key == gs[0].key;
        var j :| 0 <= j < |gs[1..]| && gs[1..][j] == h;
        assert KeyLess(gs[0].key, gs[j + 1].key);
        KeyLessIrreflexive(gs[0].key);
      }
      AbsentKey(gs[1..], gs[0].key);
    } else {
      assert KeyLess(gs[0].key, gs[i].key);
      KeyLessIrreflexive(gs[0].key);
      GroupAt(gs[1..], i - 1);
    }
  }

  /** Sorted keys are distinct: as many groups as keys. */
  lemma {:induction false} SortedSize(gs: seq<Group>)
    requires Sorted(gs)
    ensures |GroupKeys(gs)| == |gs|
  {
    if gs != [] {
      GroupKeysCons(gs[0], gs[1..]);
      assert gs == [gs[0]] + gs[1..];
      assert Sorted(gs[1..]);
      SortedSize(gs[1..]);
      if gs[0].key in GroupKeys(gs[1..]) {
        var h :| h in gs[1..] && h.key == gs[0].key;
        var j :| 0 <= j < |gs[1..]| && gs[1..][j] == h;
        assert KeyLess(gs[0].key, gs[j + 1].key);
        KeyLessIrreflexive(gs[0].key);
      }
    }
  }

  /** Each group of `Aggregate(obs)` holds exactly the rows with its key: its sum
      is their sum, its count is their number, and it has at least one; there is
      one group per distinct key. */
  lemma AggregateGroups(obs: seq<Obs>)
    ensures var r := Aggregate(obs);
      && |r| == |ObsKeys(obs)|
      && forall i :: 0 <= i < |r| ==>
           && Values(obs, r[i].key) != []
           && r[i].sum == Sum(Values(obs, r[i].key))
           && r[i].count == |Values(obs, r[i].key)|
  {
    var r := Aggregate(obs);
    AggregateSpec(obs);
    SortedSize(r);
    forall i | 0 <= i < |r|
      ensures Values(obs, r[i].key) != []
      ensures r[i].sum == Sum(Values(obs, r[i].key))
      ensures r[i].count == |Values(obs, r[i].key)|
    {
      GroupAt(r, i);
    }
  }

  function Min(s: seq<nat>): (m: nat)
    requires s != []
    ensures m in s
    ensures forall i :: 0 <= i < |s| ==> m <= s[i]
  {
    if |s| == 1 then s[0]
    else
      var rest := Min(s[1..]);
      if s[0] <= rest then s[0] else rest
  }

  function Max(s: seq<nat>): (m: nat)
    requires s != []
    ensures m in s
    ensures forall i :: 0 <= i < |s| ==> s[i] <= m
  {
    if |s| == 1 then s[0]
    else
      var rest := Max(s[1..]);
      if s[0] >= rest then s[0] else rest
  }

  /** pandas' `mean`: the sum over the number of values, exact in `real`. */
  function Mean(s: seq<nat>): real
    requires s != []
  {
    Sum(s) as real / |s| as real
  }

  lemma {:induction false} SumBetween(s: seq<nat>, lo: nat, hi: nat)
    requires forall i :: 0 <= i < |s| ==> lo <= s[i] <= hi
    ensures lo * |s| <= Sum(s) <= hi * |s|
  {
    if s != [] {
      SumBetween(s[1..], lo, hi);
      assert lo * |s| == lo + lo * (|s| - 1);
      assert hi * |s| == hi + hi * (|s| - 1);
    }
  }

  lemma QuotientBetween(total: nat, n: nat, lo: nat, hi: nat)
    requires n > 0 && lo * n <= total <= hi * n
    ensures lo as real <= total as real / n as real <= hi as real
  {
    var q := total as real / n as real;
    assert q * n as real == total as real;
  }

  /** A mean lies between the smallest and the largest of its values, and the
      mean of one value is that value. */
  lemma MeanWithin(s: seq<nat>)
    requires s != []
    ensures Min(s) as real <= Mean(s) <= Max(s) as real
    ensures |s| == 1 ==> Mean(s) == s[0] as real
  {
    SumBetween(s, Min(s), Max(s));
    QuotientBetween(Sum(s), |s|, Min(s), Max(s));
    if |s| == 1 {
      assert Sum(s) == s[0] + Sum(s[1..]);
    }
  }
}
