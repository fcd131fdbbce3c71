/** Fetching a result set as a row sequence, and the `setdefault` grouping
    the membership queries apply to the fetched rows. */
module Grouping {
  import opened Words

  /** No element occurs twice. */
  predicate Distinct(rows: seq<Triple>) {
    forall i, j :: 0 <= i < j < |rows| ==> rows[i] != rows[j]
  }

  /** The set of the rows. */
  function Members(rows: seq<Triple>): set<Triple> {
    set x | x in rows
  }

  /** `rows` lists every element of `s`, each exactly once, in some order. */
  ghost predicate Enumerates(rows: seq<Triple>, s: set<Triple>) {
    Distinct(rows) && forall x :: x in rows <==> x in s
  }

  /** `fetchall()` on a query whose result set is `result`: the rows come
      back once each, in an order the store chooses. */
  method Fetch(result: set<Triple>) returns (rows: seq<Triple>)
    ensures Enumerates(rows, result)
  {
    rows := [];
    var rest := result;
    while rest != {}
      invariant rest <= result
      invariant forall x :: x in rows <==> x in result && x !in rest
      invariant Distinct(rows)
      decreases rest
    {
      var x :| x in rest;
      rows := rows + [x];
      rest := rest - {x};
    }
  }

  /** The rows whose key is `k`, in their original order: the reference
      against which grouping is stated. */
  function KeepKey(rows: seq<Triple>, key: Triple -> string, k: string): (r: seq<Triple>)
    ensures forall x :: x in r <==> x in rows && key(x) == k
    ensures |r| <= |rows|
  {
    if rows == [] then []
    else (if key(rows[0]) == k then [rows[0]] else []) + KeepKey(rows[1..], key, k)
  }

  lemma {:induction false} KeepKeySnoc(rows: seq<Triple>, x: Triple, key: Triple -> string, k: string)
    ensures KeepKey(rows + [x], key, k) == KeepKey(rows, key, k) + (if key(x) == k then [x] else [])
    decreases |rows|
  {
    if rows == [] {
      assert rows + [x] == [x] && [x][1..] == [];
    } else {
      var head := if key(rows[0]) == k then [rows[0]] else [];
      var last := if key(x) == k then [x] else [];
      var middle := KeepKey(rows[1..], key, k);
      assert (rows + [x])[0] == rows[0];
      assert (rows + [x])[1..] == rows[1..] + [x];
      KeepKeySnoc(rows[1..], x, key, k);
      assert KeepKey(rows + [x], key, k) == head + (middle + last);
      assert head + (middle + last) == (head + middle) + last;
    }
  }

  /** Picking out one key keeps the rows distinct. */
  lemma {:induction false} KeepKeyDistinct(rows: seq<Triple>, key: Triple -> string, k: string)
    requires Distinct(rows)
    ensures Distinct(KeepKey(rows, key, k))
    decreases |rows|
  {
    if rows != [] {
      KeepKeyDistinct(rows[1..], key, k);
      assert rows[0] !in rows[1..];
    }
  }

  /** The keys that occur among the rows. */
  function KeysOf(rows: seq<Triple>, key: Triple -> string): set<string> {
    set x | x in rows :: key(x)
  }

  /** A key that no row carries keeps nothing. */
  lemma KeepKeyAbsent(rows: seq<Triple>, key: Triple -> string, k: string)
    requires k !in KeysOf(rows, key)
    ensures KeepKey(rows, key, k) == []
  {
  }

  /** `group.setdefault(k, []).append(x)`. */
  function Append(g: map<string, seq<Triple>>, k: string, x: Triple): map<string, seq<Triple>> {
    g[k := (if k in g then g[k] else []) + [x]]
  }

  /** One step of the grouping loop keeps the grouping invariant. */
  lemma AppendStep(front: seq<Triple>, x: Triple, key: Triple -> string, g: map<string, seq<Triple>>)
    requires g.Keys == KeysOf(front, key)
    requires forall k :: k in g ==> g[k] == KeepKey(front, key, k) && g[k] != []
    ensures var g' := Append(g, key(x), x);
            && g'.Keys == KeysOf(front + [x], key)
            && forall k :: k in g' ==> g'[k] == KeepKey(front + [x], key, k) && g'[k] != []
  {
    AppendKeys(front, x, key, g);
    var g' := Append(g, key(x), x);
    forall k | k in g'
      ensures g'[k] == KeepKey(front + [x], key, k)
    {
      AppendEntry(front, x, key, g, k);
    }
  }

  lemma AppendKeys(front: seq<Triple>, x: Triple, key: Triple -> string, g: map<string, seq<Triple>>)
    requires g.Keys == KeysOf(front, key)
    ensures Append(g, key(x), x).Keys == KeysOf(front + [x], key)
  {
    assert forall y :: y in front + [x] <==> y in front || y == x;
    assert KeysOf(front + [x], key) == KeysOf(front, key) + {key(x)};
  }

  lemma AppendEntry(front: seq<Triple>, x: Triple, key: Triple -> string, g: map<string, seq<Triple>>, k: string)
    requires g.Keys == KeysOf(front, key)
    requires forall k :: k in g ==> g[k] == KeepKey(front, key, k)
    requires k in Append(g, key(x), x)
    ensures Append(g, key(x), x)[k] == KeepKey(front + [x], key, k)
  {
    KeepKeySnoc(front, x, key, k);
    if k == key(x) && k !in g {
      KeepKeyAbsent(front, key, k);
    }
  }

  /** `for row in rows: group.setdefault(key(row), []).append(row)`. Each
      row lands in the list under its own key, each list holds exactly the
      rows with that key in fetch order, and no list is empty. */
  function Group(rows: seq<Triple>, key: Triple -> string): (g: map<string, seq<Triple>>)
    ensures g.Keys == KeysOf(rows, key)
    ensures forall k :: k in g ==> g[k] == KeepKey(rows, key, k) && g[k] != []
    decreases |rows|
  {
    if rows == [] then map[]
    else
      var front := rows[..|rows| - 1];
      var x := rows[|rows| - 1];
      var g := Group(front, key);
      assert rows == front + [x];
      AppendStep(front, x, key, g);
      Append(g, key(x), x)
  }

  /** `for k in keys: group.setdefault(k, [])`: every key gets an entry, and
      an entry that already exists is left exactly as it was. */
  function AddMissing(g: map<string, seq<Triple>>, keys: seq<string>): (r: map<string, seq<Triple>>)
    ensures r.Keys == g.Keys + (set k | k in keys)
    ensures forall k :: k in g ==> r[k] == g[k]
    ensures forall k :: k in r && k !in g ==> r[k] == []
    decreases |keys|
  {
    if keys == [] then g
    else
      var g' := if keys[0] in g then g else g[keys[0] := []];
      assert (set k | k in keys) == {keys[0]} + (set k | k in keys[1..]);
      AddMissing(g', keys[1..])
  }

  /** Grouping followed by `AddMissing`: every list is the fetched rows with
      that key, in fetch order, so a key that no row carries gets `[]`. */
  lemma GroupWithMissing(rows: seq<Triple>, key: Triple -> string, keys: seq<string>)
    ensures var r := AddMissing(Group(rows, key), keys);
            && r.Keys == (set k | k in keys) + KeysOf(rows, key)
            && forall k :: k in r ==> r[k] == KeepKey(rows, key, k)
  {
    var g := Group(rows, key);
    var r := AddMissing(g, keys);
    forall k | k in r
      ensures r[k] == KeepKey(rows, key, k)
    {
      if k !in g {
        KeepKeyAbsent(rows, key, k);
      }
    }
  }
}
