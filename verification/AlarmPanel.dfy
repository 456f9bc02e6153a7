/** The soonest-first list alarms_snapshot() in main/alarms.c hands the panel: an
    insertion sort that moves each view with its key. */
module AlarmPanel {
  datatype Row<V> = Row(key: int, view: V)

  function Rows<V>(keys: seq<int>, views: seq<V>): (rows: seq<Row<V>>)
    requires |keys| == |views|
    ensures |rows| == |keys|
  {
    seq(|keys|, i requires 0 <= i < |keys| => Row(keys[i], views[i]))
  }

  function Insert<V>(s: seq<Row<V>>, x: Row<V>): seq<Row<V>> {
    if |s| == 0 || s[|s| - 1].key <= x.key then s + [x]
    else Insert(s[..|s| - 1], x) + [s[|s| - 1]]
  }

  function SoonestFirst<V>(s: seq<Row<V>>): seq<Row<V>> {
    if |s| == 0 then [] else Insert(SoonestFirst(s[..|s| - 1]), s[|s| - 1])
  }

  predicate Ascending<V>(s: seq<Row<V>>) {
    forall i, j | 0 <= i < j < |s| :: s[i].key <= s[j].key
  }

  function WithKey<V>(s: seq<Row<V>>, k: int): seq<Row<V>> {
    if |s| == 0 then [] else WithKey(s[..|s| - 1], k) + (if s[|s| - 1].key == k then [s[|s| - 1]] else [])
  }

  lemma {:induction false} InsertAscending<V>(s: seq<Row<V>>, x: Row<V>, bound: int)
    requires Ascending(s) && x.key <= bound && forall i | 0 <= i < |s| :: s[i].key <= bound
    ensures Ascending(Insert(s, x)) && forall i | 0 <= i < |Insert(s, x)| :: Insert(s, x)[i].key <= bound
  {
    if |s| > 0 && s[|s| - 1].key > x.key {
      InsertAscending(s[..|s| - 1], x, s[|s| - 1].key);
    }
  }

  lemma {:induction false} InsertKeepsRows<V>(s: seq<Row<V>>, x: Row<V>, k: int)
    requires Ascending(s)
    ensures WithKey(Insert(s, x), k) == WithKey(s, k) + (if x.key == k then [x] else [])
  {
    if |s| == 0 || s[|s| - 1].key <= x.key {
      assert (s + [x])[..|s|] == s;
    } else {
      var front, last := s[..|s| - 1], s[|s| - 1];
      InsertKeepsRows(front, x, k);
      assert (Insert(front, x) + [last])[..|Insert(front, x)|] == Insert(front, x);
    }
  }

  /** Soonest first, and rows due together keep their order: for every time, the
      rows with it are the same rows in the same order. */
  lemma {:induction false} SoonestFirstIsStableSort<V>(s: seq<Row<V>>, k: int)
    ensures Ascending(SoonestFirst(s)) && WithKey(SoonestFirst(s), k) == WithKey(s, k)
  {
    if |s| > 0 {
      var front := s[..|s| - 1];
      SoonestFirstIsStableSort(front, k);
      var sorted := SoonestFirst(front);
      var x := s[|s| - 1];
      var bound := if |sorted| > 0 && sorted[|sorted| - 1].key > x.key then sorted[|sorted| - 1].key else x.key;
      InsertAscending(sorted, x, bound);
      InsertKeepsRows(sorted, x, k);
    }
  }

  lemma {:induction false} InsertAt<V>(s: seq<Row<V>>, x: Row<V>, j: nat)
    requires j <= |s| && (j > 0 ==> s[j - 1].key <= x.key) && forall i | j <= i < |s| :: s[i].key > x.key
    ensures Insert(s, x) == s[..j] + [x] + s[j..]
  {
    if j < |s| {
      InsertAt(s[..|s| - 1], x, j);
      assert s[..|s| - 1][..j] == s[..j] && s[..|s| - 1][j..] + [s[|s| - 1]] == s[j..];
    } else {
      assert s[..j] == s && s[j..] == [];
    }
  }

  // Row `i` of `ks` and `vs` moved down to `j`, the rows between moved up by one.
  ghost predicate Moved<V>(ks: seq<int>, vs: seq<V>, ks': seq<int>, vs': seq<V>, j: nat, i: nat)
    requires j <= i < |ks| && |ks| == |vs| && |ks'| == |ks| && |vs'| == |vs|
  {
    && (forall x | 0 <= x < j :: ks'[x] == ks[x] && vs'[x] == vs[x])
    && ks'[j] == ks[i] && vs'[j] == vs[i]
    && (forall x | j < x <= i :: ks'[x] == ks[x - 1] && vs'[x] == vs[x - 1])
    && (forall x | j <= x < i :: ks[x] > ks[i])
    && (j > 0 ==> ks[j - 1] <= ks[i])
  }

  lemma MovedInserts<V>(ks: seq<int>, vs: seq<V>, ks': seq<int>, vs': seq<V>, j: nat, i: nat)
    requires j <= i < |ks| && |ks| == |vs| && |ks'| == |ks| && |vs'| == |vs|
    requires Moved(ks, vs, ks', vs', j, i)
    ensures Rows(ks'[..i + 1], vs'[..i + 1]) == Insert(Rows(ks[..i], vs[..i]), Row(ks[i], vs[i]))
  {
    var before := Rows(ks[..i], vs[..i]);
    InsertAt(before, Row(ks[i], vs[i]), j);
    assert Rows(ks'[..i + 1], vs'[..i + 1]) == before[..j] + [Row(ks[i], vs[i])] + before[j..];
  }

  // The shifting loop: row `i` goes into the rows before it.
  method InsertRow<V>(out: array<V>, key: array<int>, i: nat) returns (ghost j: nat)
    requires 0 < i < out.Length && out.Length == key.Length
    modifies out, key
    ensures j <= i && Moved(old(key[..]), old(out[..]), key[..], out[..], j, i)
    ensures forall x | i < x < key.Length :: key[x] == old(key[x]) && out[x] == old(out[x])
  {
    var v, k := out[i], key[i];
    var at := i - 1;
    while at >= 0 && key[at] > k
      invariant -1 <= at < i
      invariant forall x | 0 <= x <= at :: key[x] == old(key[x]) && out[x] == old(out[x])
      invariant forall x | at + 2 <= x <= i :: key[x] == old(key[x - 1]) && out[x] == old(out[x - 1])
      invariant forall x | i < x < key.Length :: key[x] == old(key[x]) && out[x] == old(out[x])
      invariant forall x | at < x < i :: old(key[x]) > k
    {
      out[at + 1] := out[at];
      key[at + 1] := key[at];
      at := at - 1;
    }
    out[at + 1] := v;
    key[at + 1] := k;
    j := at + 1;
  }

  /** alarms_snapshot()'s insertion sort: the views move with their keys. */
  method SortRows<V>(out: array<V>, key: array<int>, n: nat)
    requires n <= out.Length && out.Length == key.Length
    modifies out, key
    ensures Rows(key[..n], out[..n]) == SoonestFirst(Rows(old(key[..n]), old(out[..n])))
    ensures forall x | n <= x < key.Length :: key[x] == old(key[x]) && out[x] == old(out[x])
  {
    ghost var all := Rows(key[..n], out[..n]);
    if n == 0 {
      return;
    }
    assert all[..1][..0] == [];
    for i := 1 to n
      invariant Rows(key[..i], out[..i]) == SoonestFirst(all[..i])
      invariant forall x | i <= x < key.Length :: key[x] == old(key[x]) && out[x] == old(out[x])
    {
      ghost var ks, vs := key[..], out[..];
      assert all[i] == Row(ks[i], vs[i]) && ks[..i] == key[..i] && vs[..i] == out[..i];
      ghost var j := InsertRow(out, key, i);
      MovedInserts(ks, vs, key[..], out[..], j, i);
      assert key[..][..i + 1] == key[..i + 1] && out[..][..i + 1] == out[..i + 1];
      assert all[..i + 1][..i] == all[..i];
    }
    assert all[..n] == all;
  }
}
