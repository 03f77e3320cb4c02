/** Queries over a table (a map from id to row): selection by a predicate, the single-row
    lookup of a derived `findBy...` query, and sums over rows. The rows of a map have no
    order; where a fold needs one it visits rows by increasing id, and the lemmas show the
    result does not depend on that choice. */
module Tables {
  import opened Wrappers

  /** The rows satisfying `p`: `findBy...` returning a list. */
  function Select<V>(m: map<int, V>, p: V -> bool): (r: map<int, V>)
    ensures r.Keys <= m.Keys
    ensures forall k :: k in r ==> r[k] == m[k] && p(m[k])
    ensures forall k :: k in m && p(m[k]) ==> k in r
  {
    map k | k in m && p(m[k]) :: m[k]
  }

  /** A finder that throws on an empty result. */
  function RequireRows<V, E>(rows: map<int, V>, e: E): Result<map<int, V>, E> {
    if rows == map[] then Err(e) else Ok(rows)
  }

  /** A map is empty exactly when it has no key. */
  lemma EmptyIffNoKeys<V>(m: map<int, V>)
    ensures m == map[] <==> forall k :: k !in m
  {
    if forall k :: k !in m {
      var empty: map<int, V> := map[];
      assert forall k :: k in m <==> k in empty;
    }
  }

  /** Some row satisfies `p`: `existsBy...`. */
  predicate Exists<V>(m: map<int, V>, p: V -> bool) {
    exists k :: k in m && p(m[k])
  }

  lemma NonEmptyHasElement(ks: set<int>)
    requires ks != {}
    ensures exists x :: x in ks
  {
    if forall x :: x !in ks {
      assert false;
    }
  }
  /** `k` is the least element of `ks`. */
  predicate IsLeast(k: int, ks: set<int>) { k in ks && forall j :: j in ks ==> k <= j }

  lemma {:induction false} HasMinimum(ks: set<int>)
    requires ks != {}
    ensures exists k :: IsLeast(k, ks)
    decreases |ks|
  {
    NonEmptyHasElement(ks);
    var x :| x in ks;
    var rest := ks - {x};
    if rest == {} {
      assert ks == {x};
      assert IsLeast(x, ks);
    } else {
      HasMinimum(rest);
      var m :| IsLeast(m, rest);
      assert ks == rest + {x};
      if x < m {
        assert IsLeast(x, ks);
      } else {
        assert IsLeast(m, ks);
      }
    }
  }

  /** The least id of a non-empty set of ids. */
  function MinKey(ks: set<int>): (k: int)
    requires ks != {}
    ensures IsLeast(k, ks)
  {
    HasMinimum(ks);
    var k :| IsLeast(k, ks);
    k
  }

  /** What a single-row query finds. */
  datatype Lookup<+V> = NoRow | OneRow(row: V) | ManyRows

  /** A two-element subset witnesses more than one element. */
  lemma {:induction false} BigSetHasTwo(ks: set<int>)
    requires |ks| >= 2
    ensures exists a, b :: a in ks && b in ks && a != b
  {
    NonEmptyHasElement(ks);
    var a :| a in ks;
    var rest := ks - {a};
    assert |rest| >= 1;
    NonEmptyHasElement(rest);
    var b :| b in rest;
  }

  /** The row satisfying `p`, told apart from no row and from several rows. */
  function FindUnique<V>(m: map<int, V>, p: V -> bool): (r: Lookup<V>)
    ensures r.NoRow? <==> !Exists(m, p)
    ensures r.OneRow? ==> exists k :: k in m && p(m[k]) && m[k] == r.row &&
                                     forall j :: j in m && p(m[j]) ==> j == k
    ensures r.ManyRows? <==> exists a, b :: a in m && b in m && a != b && p(m[a]) && p(m[b])
  {
    var ks := Select(m, p).Keys;
    if ks == {} then
      NoRow
    else if |ks| == 1 then
      var k := MinKey(ks);
      assert ks == {k} by {
        assert |ks - {k}| == 0;
      }
      OneRow(m[k])
    else
      BigSetHasTwo(ks);
      ManyRows
  }

  /** The sum of `f` over the rows, visited by increasing id. */
  function Sum<V>(m: map<int, V>, f: V -> real): real
    decreases |m|
  {
    if m == map[] then 0.0
    else
      var k := MinKey(m.Keys);
      assert |m - {k}| < |m| by {
        assert m.Keys == (m - {k}).Keys + {k};
      }
      f(m[k]) + Sum(m - {k}, f)
  }

  /** The sum is the value of any one row plus the sum of the others, so it does not depend
      on the order the rows are visited in. */
  lemma {:induction false} SumRemove<V>(m: map<int, V>, f: V -> real, k: int)
    requires k in m
    ensures Sum(m, f) == f(m[k]) + Sum(m - {k}, f)
    decreases |m|
  {
    var j := MinKey(m.Keys);
    if j != k {
      assert m.Keys == (m - {j}).Keys + {j};
      SumRemove(m - {j}, f, k);
      var rest := m - {k};
      assert j in rest;
      assert MinKey(rest.Keys) == j;
      assert rest.Keys == (rest - {j}).Keys + {j};
      assert (m - {j}) - {k} == rest - {j};
    }
  }

  /** Adding a row adds its value to the sum. */
  lemma SumInsert<V>(m: map<int, V>, f: V -> real, k: int, v: V)
    requires k !in m
    ensures Sum(m[k := v], f) == f(v) + Sum(m, f)
  {
    SumRemove(m[k := v], f, k);
    assert m[k := v] - {k} == m;
  }

  /** A sum of non-negative values is non-negative. */
  lemma {:induction false} SumNonNegative<V>(m: map<int, V>, f: V -> real)
    requires forall k :: k in m ==> f(m[k]) >= 0.0
    ensures Sum(m, f) >= 0.0
    decreases |m|
  {
    if m != map[] {
      var k := MinKey(m.Keys);
      assert m.Keys == (m - {k}).Keys + {k};
      SumNonNegative(m - {k}, f);
    }
  }
}
