/**
 * `groupby(key).agg({"Fatalities_air": "sum", "Aircraft": "count"})`: one
 * group per distinct key in ascending key order; rows whose key is missing
 * belong to no group.
 */
module Grouping {
  import opened Optional
  import opened Seqs
  import opened Order
  import opened Records

  /** One output row: the key, `Total_Crashes` and `Total_Fatalities`. */
  datatype Group<K> = Group(key: K, crashes: nat, fatalities: int)

  function Keys<K>(gs: seq<Group<K>>): (ks: seq<K>)
    ensures |ks| == |gs|
    ensures forall i :: 0 <= i < |gs| ==> ks[i] == gs[i].key
    decreases |gs|
  {
    if gs == [] then [] else [gs[0].key] + Keys(gs[1..])
  }

  function GroupFatalities<K>(gs: seq<Group<K>>): int
    decreases |gs|
  {
    if gs == [] then 0 else gs[0].fatalities + GroupFatalities(gs[1..])
  }

  function GroupCrashes<K>(gs: seq<Group<K>>): nat
    decreases |gs|
  {
    if gs == [] then 0 else gs[0].crashes + GroupCrashes(gs[1..])
  }

  /** One more row in a group. */
  function Tally<K>(g: Group<K>, r: Record): Group<K>
  {
    g.(crashes := g.crashes + Crash(r), fatalities := g.fatalities + r.fatalities)
  }

  /** Adds one row to the group with key `k`, opening it in key order if it is new. */
  function AddRow<K(==)>(gs: seq<Group<K>>, k: K, r: Record, lt: (K, K) -> bool): seq<Group<K>>
    decreases |gs|
  {
    if gs == [] then [Group(k, Crash(r), r.fatalities)]
    else if gs[0].key == k then [Tally(gs[0], r)] + gs[1..]
    else if lt(k, gs[0].key) then [Group(k, Crash(r), r.fatalities)] + gs
    else [gs[0]] + AddRow(gs[1..], k, r, lt)
  }

  /** The rows with key `k`. */
  function Members<K(==)>(rs: seq<Record>, key: Record -> Option<K>, k: K): seq<Record>
  {
    Keep(rs, r => key(r) == Some(k))
  }

  /** The rows that have a key at all. */
  function Keyed<K>(rs: seq<Record>, key: Record -> Option<K>): seq<Record>
  {
    Keep(rs, r => key(r).Some?)
  }

  /**
   * Grouping folds every keyed row into the groups. The group totals add up
   * to the totals over the keyed rows, and there are never more groups than rows.
   */
  function GroupBy<K(==)>(rs: seq<Record>, key: Record -> Option<K>, lt: (K, K) -> bool): (gs: seq<Group<K>>)
    ensures |gs| <= |Keyed(rs, key)|
    ensures GroupFatalities(gs) == SumFatalities(Keyed(rs, key))
    ensures GroupCrashes(gs) == CountAircraft(Keyed(rs, key))
    decreases |rs|
  {
    if rs == [] then []
    else
      var rest := GroupBy(rs[1..], key, lt);
      match key(rs[0])
      case None =>
        assert Keyed(rs, key) == Keyed(rs[1..], key);
        rest
      case Some(k) =>
        assert Keyed(rs, key) == [rs[0]] + Keyed(rs[1..], key);
        AddRowTotals(rest, k, rs[0], lt);
        SumAppend([rs[0]], Keyed(rs[1..], key));
        AddRow(rest, k, rs[0], lt)
  }

  lemma {:induction false} AddRowTotals<K>(gs: seq<Group<K>>, k: K, r: Record, lt: (K, K) -> bool)
    ensures |AddRow(gs, k, r, lt)| <= |gs| + 1
    ensures GroupFatalities(AddRow(gs, k, r, lt)) == GroupFatalities(gs) + r.fatalities
    ensures GroupCrashes(AddRow(gs, k, r, lt)) == GroupCrashes(gs) + Crash(r)
    decreases |gs|
  {
    if gs != [] && gs[0].key != k && !lt(k, gs[0].key) {
      AddRowTotals(gs[1..], k, r, lt);
    }
  }

  /** The group with key `k`, if any. */
  function Lookup<K(==)>(gs: seq<Group<K>>, k: K): Option<Group<K>>
    decreases |gs|
  {
    if gs == [] then None else if gs[0].key == k then Some(gs[0]) else Lookup(gs[1..], k)
  }

  /** What the group for `k` must hold: the count and the sum over the rows with that key. */
  function Expected<K(==)>(rs: seq<Record>, key: Record -> Option<K>, k: K): Option<Group<K>>
  {
    var m := Members(rs, key, k);
    if m == [] then None else Some(Group(k, CountAircraft(m), SumFatalities(m)))
  }

  /**
   * `gs` is the grouping of `rs`: keys strictly ascending, and for every key
   * the group present is exactly the one its rows determine.
   */
  ghost predicate IsGrouping<K(!new)>(gs: seq<Group<K>>, rs: seq<Record>, key: Record -> Option<K>, lt: (K, K) -> bool)
  {
    && StrictlyAscending(Keys(gs), lt)
    && forall k :: Lookup(gs, k) == Expected(rs, key, k)
  }

  function Bump<K>(g: Option<Group<K>>, k: K, r: Record): Group<K>
  {
    match g
    case None => Group(k, Crash(r), r.fatalities)
    case Some(g0) => Tally(g0, r)
  }

  lemma {:induction false} LookupAbsent<K>(gs: seq<Group<K>>, k: K)
    requires k !in Keys(gs)
    ensures Lookup(gs, k) == None
    decreases |gs|
  {
    if gs != [] {
      assert Keys(gs)[0] == gs[0].key;
      assert forall x :: x in Keys(gs[1..]) ==> x in Keys(gs) by {
        forall x | x in Keys(gs[1..]) ensures x in Keys(gs) {
          var j :| 0 <= j < |gs[1..]| && Keys(gs[1..])[j] == x;
          assert Keys(gs)[j + 1] == x;
        }
      }
      LookupAbsent(gs[1..], k);
    }
  }

  lemma {:induction false} AddRowKeys<K>(gs: seq<Group<K>>, k: K, r: Record, lt: (K, K) -> bool)
    ensures Keys(AddRow(gs, k, r, lt)) == InsertDistinct(Keys(gs), k, lt)
    decreases |gs|
  {
    var ks := Keys(gs);
    if gs == [] {
    } else {
      assert ks[0] == gs[0].key && ks[1..] == Keys(gs[1..]);
      if gs[0].key == k {
        var g' := [Tally(gs[0], r)] + gs[1..];
        assert Keys(g')[1..] == Keys(gs[1..]);
      } else if lt(k, gs[0].key) {
        var g' := [Group(k, Crash(r), r.fatalities)] + gs;
        assert Keys(g')[1..] == Keys(gs);
      } else {
        AddRowKeys(gs[1..], k, r, lt);
        var g' := [gs[0]] + AddRow(gs[1..], k, r, lt);
        assert Keys(g')[1..] == Keys(AddRow(gs[1..], k, r, lt));
      }
    }
  }

  /** Adding a row changes only the group of its key. */
  lemma {:induction false} AddRowLookup<K(!new)>(gs: seq<Group<K>>, k: K, r: Record, lt: (K, K) -> bool, k': K)
    requires StrictTotalOrder(lt)
    requires StrictlyAscending(Keys(gs), lt)
    ensures Lookup(AddRow(gs, k, r, lt), k') == if k' == k then Some(Bump(Lookup(gs, k), k, r)) else Lookup(gs, k')
    decreases |gs|
  {
    if gs == [] {
    } else if gs[0].key == k {
    } else if lt(k, gs[0].key) {
      var ks := Keys(gs);
      assert k !in ks by {
        forall j | 0 <= j < |ks| ensures ks[j] != k {
          if j > 0 {
            assert lt(ks[0], ks[j]);
          }
        }
      }
      LookupAbsent(gs, k);
    } else {
      var ks := Keys(gs);
      assert ks[1..] == Keys(gs[1..]);
      assert StrictlyAscending(Keys(gs[1..]), lt);
      AddRowLookup(gs[1..], k, r, lt, k');
    }
  }

  lemma MembersCons<K>(rs: seq<Record>, key: Record -> Option<K>, k: K)
    requires rs != []
    ensures Members(rs, key, k) == (if key(rs[0]) == Some(k) then [rs[0]] else []) + Members(rs[1..], key, k)
  {
  }

  /** The expected group of `k` after one more row in front. */
  lemma ExpectedCons<K>(rs: seq<Record>, key: Record -> Option<K>, k: K)
    requires rs != []
    ensures Expected(rs, key, k) ==
              if key(rs[0]) == Some(k) then Some(Bump(Expected(rs[1..], key, k), k, rs[0]))
              else Expected(rs[1..], key, k)
  {
    MembersCons(rs, key, k);
    var m' := Members(rs[1..], key, k);
    if key(rs[0]) == Some(k) {
      SumAppend([rs[0]], m');
      assert [rs[0]][1..] == [];
    } else {
      assert Members(rs, key, k) == m';
    }
  }

  /** GroupBy computes the grouping: ascending keys, and per key the count and sum of its rows. */
  lemma {:induction false} GroupByIsGrouping<K(!new)>(rs: seq<Record>, key: Record -> Option<K>, lt: (K, K) -> bool)
    requires StrictTotalOrder(lt)
    ensures IsGrouping(GroupBy(rs, key, lt), rs, key, lt)
    decreases |rs|
  {
    if rs != [] {
      var rest := GroupBy(rs[1..], key, lt);
      GroupByIsGrouping(rs[1..], key, lt);
      match key(rs[0])
      case None =>
        forall k ensures Lookup(rest, k) == Expected(rs, key, k) {
          ExpectedCons(rs, key, k);
        }
      case Some(k0) =>
        var gs := AddRow(rest, k0, rs[0], lt);
        AddRowKeys(rest, k0, rs[0], lt);
        InsertDistinctCorrect(Keys(rest), k0, lt);
        forall k ensures Lookup(gs, k) == Expected(rs, key, k) {
          AddRowLookup(rest, k0, rs[0], lt, k);
          ExpectedCons(rs, key, k);
        }
    }
  }

  /** Every listed group is the group its key determines, and it has at least one row. */
  lemma {:induction false} GroupsAreExpected<K(!new)>(gs: seq<Group<K>>, rs: seq<Record>, key: Record -> Option<K>, lt: (K, K) -> bool, i: int)
    requires StrictTotalOrder(lt)
    requires IsGrouping(gs, rs, key, lt)
    requires 0 <= i < |gs|
    ensures Expected(rs, key, gs[i].key) == Some(gs[i])
    ensures 0 < |Members(rs, key, gs[i].key)|
    ensures gs[i].crashes <= |Members(rs, key, gs[i].key)|
  {
    LookupAt(gs, i, lt);
  }

  lemma {:induction false} LookupAt<K(!new)>(gs: seq<Group<K>>, i: int, lt: (K, K) -> bool)
    requires StrictTotalOrder(lt)
    requires StrictlyAscending(Keys(gs), lt)
    requires 0 <= i < |gs|
    ensures Lookup(gs, gs[i].key) == Some(gs[i])
    decreases i
  {
    var ks := Keys(gs);
    if i > 0 {
      assert lt(ks[0], ks[i]);
      assert ks[1..] == Keys(gs[1..]);
      assert StrictlyAscending(Keys(gs[1..]), lt);
      LookupAt(gs[1..], i - 1, lt);
    }
  }

  /** A key has a group exactly when some row carries it. */
  lemma KeyListed<K(!new)>(gs: seq<Group<K>>, rs: seq<Record>, key: Record -> Option<K>, lt: (K, K) -> bool, r: Record)
    requires StrictTotalOrder(lt)
    requires IsGrouping(gs, rs, key, lt)
    requires r in rs && key(r).Some?
    ensures key(r).value in Keys(gs)
  {
    var k := key(r).value;
    assert r in Members(rs, key, k);
    if k !in Keys(gs) {
      LookupAbsent(gs, k);
    }
  }
}
