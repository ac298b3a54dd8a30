/** Insert-or-replace by primary key, one `(key, value)` pair after another:
    the meaning of both `insert_all(..., pk="id", replace=True)` and
    `INSERT ... ON CONFLICT(id) DO UPDATE` on a table keyed by `id`. */
module Upsert {

  /** The table `m` after upserting `pairs` in order: no old row is lost,
      and every upserted key is present. */
  function UpsertAll<V>(m: map<int, V>, pairs: seq<(int, V)>): (r: map<int, V>)
    ensures m.Keys <= r.Keys
    ensures forall i :: 0 <= i < |pairs| ==> pairs[i].0 in r
    decreases |pairs|
  {
    if pairs == [] then m
    else
      var init, last := pairs[..|pairs| - 1], pairs[|pairs| - 1];
      assert forall i :: 0 <= i < |init| ==> init[i] == pairs[i];
      UpsertAll(m, init)[last.0 := last.1]
  }

  /** Upserting one more pair is one more map update. */
  lemma UpsertAllSnoc<V>(m: map<int, V>, pairs: seq<(int, V)>, p: (int, V))
    ensures UpsertAll(m, pairs + [p]) == UpsertAll(m, pairs)[p.0 := p.1]
  {
    assert (pairs + [p])[..|pairs|] == pairs;
  }

  /** The keys named in `pairs`. */
  function KeysOf<V>(pairs: seq<(int, V)>): (ks: set<int>)
    ensures forall i :: 0 <= i < |pairs| ==> pairs[i].0 in ks
    ensures forall k :: k in ks ==> exists i :: 0 <= i < |pairs| && pairs[i].0 == k
  {
    set i | 0 <= i < |pairs| :: pairs[i].0
  }

  /** Afterwards the table holds exactly the old keys and the upserted ones. */
  lemma {:induction false} UpsertAllKeys<V>(m: map<int, V>, pairs: seq<(int, V)>)
    ensures UpsertAll(m, pairs).Keys == m.Keys + KeysOf(pairs)
    decreases |pairs|
  {
    if pairs != [] {
      var init := pairs[..|pairs| - 1];
      UpsertAllKeys(m, init);
      assert KeysOf(pairs) == KeysOf(init) + {pairs[|pairs| - 1].0} by {
        assert forall i :: 0 <= i < |init| ==> init[i] == pairs[i];
      }
    }
  }

  /** A key that `pairs` does not name keeps its old row, or stays absent. */
  lemma {:induction false} UpsertAllUntouched<V>(m: map<int, V>, pairs: seq<(int, V)>, k: int)
    requires forall i :: 0 <= i < |pairs| ==> pairs[i].0 != k
    ensures k in UpsertAll(m, pairs) <==> k in m
    ensures k in m ==> UpsertAll(m, pairs)[k] == m[k]
    decreases |pairs|
  {
    if pairs != [] {
      UpsertAllUntouched(m, pairs[..|pairs| - 1], k);
    }
  }

  /** A key named in `pairs` holds the value of its last occurrence. */
  lemma {:induction false} UpsertAllLastWins<V>(m: map<int, V>, pairs: seq<(int, V)>, i: nat)
    requires i < |pairs|
    requires forall j :: i < j < |pairs| ==> pairs[j].0 != pairs[i].0
    ensures pairs[i].0 in UpsertAll(m, pairs)
    ensures UpsertAll(m, pairs)[pairs[i].0] == pairs[i].1
    decreases |pairs|
  {
    if i < |pairs| - 1 {
      var init := pairs[..|pairs| - 1];
      UpsertAllLastWins(m, init, i);
    }
  }

  /** Upserting `a + b` is upserting `a` and then `b`. */
  lemma {:induction false} UpsertAllAppend<V>(m: map<int, V>, a: seq<(int, V)>, b: seq<(int, V)>)
    ensures UpsertAll(m, a + b) == UpsertAll(UpsertAll(m, a), b)
    decreases |b|
  {
    if b == [] {
      assert a + b == a;
    } else {
      var ab := a + b;
      assert ab[..|ab| - 1] == a + b[..|b| - 1];
      assert ab[|ab| - 1] == b[|b| - 1];
      UpsertAllAppend(m, a, b[..|b| - 1]);
    }
  }

  /** Every key of the result holds what the last pair naming it says, or its
      old value when no pair names it. */
  lemma UpsertAllAt<V>(m: map<int, V>, pairs: seq<(int, V)>, k: int)
    requires k in m || exists i :: 0 <= i < |pairs| && pairs[i].0 == k
    ensures k in UpsertAll(m, pairs)
    ensures (exists i :: 0 <= i < |pairs| && pairs[i].0 == k) ||
      UpsertAll(m, pairs)[k] == m[k]
  {
    if forall i :: 0 <= i < |pairs| ==> pairs[i].0 != k {
      UpsertAllUntouched(m, pairs, k);
    }
  }

  /** Loading the same list a second time changes nothing. */
  lemma UpsertAllIdempotent<V>(m: map<int, V>, pairs: seq<(int, V)>)
    ensures UpsertAll(UpsertAll(m, pairs), pairs) == UpsertAll(m, pairs)
  {
    var once := UpsertAll(m, pairs);
    var twice := UpsertAll(once, pairs);
    UpsertAllKeys(m, pairs);
    UpsertAllKeys(once, pairs);
    forall k | k in once
      ensures twice[k] == once[k]
    {
      if i :| 0 <= i < |pairs| && pairs[i].0 == k {
        var last := LastIndexOf(pairs, i);
        UpsertAllLastWins(m, pairs, last);
        UpsertAllLastWins(once, pairs, last);
      } else {
        UpsertAllUntouched(once, pairs, k);
      }
    }
  }

  /** Loading the same pair twice in a row is loading it once. */
  lemma UpsertAllRepeatedPair<V>(m: map<int, V>, a: seq<(int, V)>, p: (int, V), b: seq<(int, V)>)
    ensures UpsertAll(m, a + [p, p] + b) == UpsertAll(m, a + [p] + b)
  {
    assert a + [p, p] + b == (a + [p, p]) + b;
    assert a + [p] + b == (a + [p]) + b;
    UpsertAllAppend(m, a + [p, p], b);
    UpsertAllAppend(m, a + [p], b);
    assert (a + [p, p])[..|a| + 1] == a + [p];
    assert (a + [p])[..|a|] == a;
    var once := UpsertAll(m, a)[p.0 := p.1];
    assert UpsertAll(m, a + [p]) == once;
    assert UpsertAll(m, a + [p, p]) == once[p.0 := p.1] == once;
  }

  /** The index of the last pair with the same key as `pairs[i]`. */
  function LastIndexOf<V>(pairs: seq<(int, V)>, i: nat): (j: nat)
    requires i < |pairs|
    ensures i <= j < |pairs| && pairs[j].0 == pairs[i].0
    ensures forall l :: j < l < |pairs| ==> pairs[l].0 != pairs[i].0
    decreases |pairs| - i
  {
    if exists l :: i < l < |pairs| && pairs[l].0 == pairs[i].0 then
      var l :| i < l < |pairs| && pairs[l].0 == pairs[i].0;
      LastIndexOf(pairs, l)
    else i
  }
}
