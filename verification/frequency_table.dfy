/** The frequency tables of `CompareFiles`: a `std::map<std::string, int>` from a
    name to the number of times it was read. A `std::map` keeps its entries in
    ascending key order, and that is the order in which the report loops visit
    them; the table is therefore modelled as a strictly ordered association list,
    with `AsMap` giving the plain `map<string, nat>` it stands for. */
module FrequencyTables {
  import opened StringOrder

  datatype Entry = Entry(key: string, count: nat)

  type Table = seq<Entry>

  /** Keys strictly ascending, so in particular no key occurs twice. */
  predicate Ordered(t: Table)
  {
    forall i, j :: 0 <= i < j < |t| ==> Less(t[i].key, t[j].key)
  }

  /** Every key of `t` sorts after `k`. */
  predicate Above(k: string, t: Table)
  {
    forall i :: 0 <= i < |t| ==> Less(k, t[i].key)
  }

  /** A table as the source builds it: ordered, and every stored count at least 1. */
  predicate Valid(t: Table)
  {
    Ordered(t) && forall i :: 0 <= i < |t| ==> t[i].count >= 1
  }

  /** The count stored for `k`, 0 when `k` is not a key (`find(k) == end()`). */
  function Lookup(t: Table, k: string): nat
  {
    if |t| == 0 then 0
    else if t[0].key == k then t[0].count
    else Lookup(t[1..], k)
  }

  /** The table as a map from name to count. */
  function AsMap(t: Table): map<string, nat>
  {
    if |t| == 0 then map[] else AsMap(t[1..])[t[0].key := t[0].count]
  }

  lemma {:induction false} OrderedTail(t: Table)
    requires |t| > 0 && Ordered(t)
    ensures Ordered(t[1..]) && Above(t[0].key, t[1..])
  {
  }

  lemma {:induction false} OrderedCons(e: Entry, t: Table)
    requires Ordered(t) && Above(e.key, t)
    ensures Ordered([e] + t)
  {
  }

  /** A key below every key of an ordered table is not in it. */
  lemma {:induction false} LookupAbove(k: string, t: Table)
    requires Ordered(t) && Above(k, t)
    ensures Lookup(t, k) == 0
    decreases |t|
  {
    if |t| > 0 {
      LessIrreflexive(k);
      LookupAbove(k, t[1..]);
    }
  }

  /** `++(it->second)` for a key already present, `map[k] = 1` otherwise; the new
      key goes where the ordering puts it. */
  function Insert(t: Table, k: string): (r: Table)
    requires Valid(t)
    ensures Valid(r)
    ensures forall j :: Lookup(r, j) == Lookup(t, j) + (if j == k then 1 else 0)
    ensures forall x :: Less(x, k) && Above(x, t) ==> Above(x, r)
    decreases |t|
  {
    if |t| == 0 then [Entry(k, 1)]
    else if t[0].key == k then [Entry(k, t[0].count + 1)] + t[1..]
    else if Less(k, t[0].key) then
      LessTransitiveAbove(k, t[0].key, t);
      LookupAbove(k, t);
      OrderedCons(Entry(k, 1), t);
      [Entry(k, 1)] + t
    else
      LessTotal(k, t[0].key);
      OrderedTail(t);
      var rest := Insert(t[1..], k);
      OrderedCons(t[0], rest);
      forall x | Less(x, k) && Above(x, t)
        ensures Above(x, [t[0]] + rest)
      {
      }
      [t[0]] + rest
  }

  /** The table built from a sequence of tokens, one insertion per token in input
      order (the `while (1)` reading loops). Each key's count is the number of
      tokens equal to it. */
  function Tally(tokens: seq<string>): (t: Table)
    ensures Valid(t)
    ensures forall k :: Lookup(t, k) == multiset(tokens)[k]
    decreases |tokens|
  {
    if |tokens| == 0 then []
    else
      var init := tokens[..|tokens| - 1];
      assert tokens == init + [tokens[|tokens| - 1]];
      Insert(Tally(init), tokens[|tokens| - 1])
  }

  /** The entries of an ordered table are exactly the (key, count) pairs with a
      positive count. */
  lemma {:induction false} EntryInTable(t: Table, e: Entry)
    requires Valid(t)
    ensures e in t <==> e.count >= 1 && Lookup(t, e.key) == e.count
    decreases |t|
  {
    if |t| > 0 {
      OrderedTail(t);
      EntryInTable(t[1..], e);
      if e.key == t[0].key {
        LookupAbove(e.key, t[1..]);
        LessIrreflexive(e.key);
      }
      assert t == [t[0]] + t[1..];
    }
  }

  /** The map a valid table stands for has exactly its positive lookups. */
  lemma {:induction false} AsMapAgrees(t: Table)
    requires Valid(t)
    ensures forall k :: (k in AsMap(t) <==> Lookup(t, k) > 0)
    ensures forall k :: k in AsMap(t) ==> AsMap(t)[k] == Lookup(t, k)
    ensures |AsMap(t)| == |t|
    decreases |t|
  {
    if |t| > 0 {
      OrderedTail(t);
      AsMapAgrees(t[1..]);
      LookupAbove(t[0].key, t[1..]);
      assert t[0].key !in AsMap(t[1..]);
      assert AsMap(t).Keys == AsMap(t[1..]).Keys + {t[0].key};
    }
  }

  /** Two valid tables with the same lookups are the same table: the table is
      determined by the counts alone. */
  lemma {:induction false} TableExtensional(a: Table, b: Table)
    requires Valid(a) && Valid(b)
    requires forall k :: Lookup(a, k) == Lookup(b, k)
    ensures a == b
    decreases |a|
  {
    HeadCount(a);
    HeadCount(b);
    if |a| > 0 && |b| > 0 {
      OrderedTail(a);
      OrderedTail(b);
      LessTotal(a[0].key, b[0].key);
      if Less(a[0].key, b[0].key) {
        LessTransitiveAbove(a[0].key, b[0].key, b);
        LookupAbove(a[0].key, b);
      } else if Less(b[0].key, a[0].key) {
        LessTransitiveAbove(b[0].key, a[0].key, a);
        LookupAbove(b[0].key, a);
      } else {
        assert Lookup(a, a[0].key) == Lookup(b, b[0].key);
        LookupAbove(a[0].key, a[1..]);
        LookupAbove(b[0].key, b[1..]);
        forall k
          ensures Lookup(a[1..], k) == Lookup(b[1..], k)
        {
          if k != a[0].key {
            assert Lookup(a, k) == Lookup(a[1..], k);
            assert Lookup(b, k) == Lookup(b[1..], k);
          }
        }
        TableExtensional(a[1..], b[1..]);
        assert a == [a[0]] + a[1..] && b == [b[0]] + b[1..];
      }
    }
  }

  lemma HeadCount(t: Table)
    requires Valid(t)
    ensures |t| > 0 ==> Lookup(t, t[0].key) == t[0].count >= 1
  {
  }

  /** If `k` sorts before the first key of an ordered table, it sorts before all of them. */
  lemma LessTransitiveAbove(k: string, first: string, t: Table)
    requires Ordered(t) && |t| > 0 && t[0].key == first && Less(k, first)
    ensures Above(k, t)
  {
    forall i | 0 < i < |t|
      ensures Less(k, t[i].key)
    {
      LessTransitive(k, first, t[i].key);
    }
  }

  /** The count of each key is the number of tokens equal to it, every stored count
      is at least 1, and the table has one entry per distinct token. */
  lemma TallyCounts(tokens: seq<string>)
    ensures forall k :: k in AsMap(Tally(tokens)) <==> k in tokens
    ensures forall k :: k in AsMap(Tally(tokens)) ==> AsMap(Tally(tokens))[k] == multiset(tokens)[k] >= 1
    ensures |Tally(tokens)| == |set k | k in tokens|
  {
    var t := Tally(tokens);
    AsMapAgrees(t);
    assert AsMap(t).Keys == set k | k in tokens;
  }

  /** The table depends only on how often each name occurs, not on the order in
      which the names were read. */
  lemma TallyOrderIndependent(a: seq<string>, b: seq<string>)
    requires multiset(a) == multiset(b)
    ensures Tally(a) == Tally(b)
  {
    TableExtensional(Tally(a), Tally(b));
  }

  /** Keep the entries satisfying `keep`, in table order: the shape of each report
      loop (`for (auto it : table) if (...) print`). */
  function Select(t: Table, keep: Entry -> bool): (r: Table)
    ensures forall e :: e in r <==> e in t && keep(e)
    ensures Ordered(t) ==> Ordered(r)
    decreases |t|
  {
    if |t| == 0 then []
    else
      var rest := Select(t[1..], keep);
      assert t == [t[0]] + t[1..];
      HeadAboveSublist(t, rest);
      if keep(t[0]) then [t[0]] + rest else rest
  }

  lemma HeadAboveSublist(t: Table, s: Table)
    requires |t| > 0
    requires forall e :: e in s ==> e in t[1..]
    ensures Ordered(t) ==> Above(t[0].key, s)
  {
    if Ordered(t) {
      OrderedTail(t);
      forall i | 0 <= i < |s|
        ensures Less(t[0].key, s[i].key)
      {
        assert s[i] in t[1..];
      }
    }
  }
}
