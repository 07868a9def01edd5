/**
  An insertion-ordered dictionary, the way a PHP array behaves when it is used
  with keys: iteration follows insertion order, assigning to a key that is
  already present changes its value where it stands, and assigning to a new
  key appends it at the end. The dictionary is an association list whose keys
  are pairwise distinct.
 */
module OrderedMaps {

  datatype Option<+T> = None | Some(value: T)

  /** One key/value pair of an ordered dictionary. */
  datatype Entry<K, V> = Entry(key: K, value: V)

  /** The keys of `m`, in iteration order. */
  function Keys<K, V>(m: seq<Entry<K, V>>): seq<K>
  {
    seq(|m|, i requires 0 <= i < |m| => m[i].key)
  }

  /** No key occurs twice: the invariant every PHP array keeps. */
  predicate UniqueKeys<K(==), V>(m: seq<Entry<K, V>>)
  {
    forall i, j :: 0 <= i < j < |m| ==> m[i].key != m[j].key
  }

  /** The sequence `ks` holds no element twice. */
  predicate Distinct<K(==)>(ks: seq<K>)
  {
    forall i, j :: 0 <= i < j < |ks| ==> ks[i] != ks[j]
  }

  /** A dictionary has distinct keys exactly when its key sequence is `Distinct`. */
  lemma {:induction false} UniqueKeysIsDistinctKeys<K, V>(m: seq<Entry<K, V>>)
    ensures UniqueKeys(m) <==> Distinct(Keys(m))
  {
    assert forall i :: 0 <= i < |m| ==> Keys(m)[i] == m[i].key;
  }

  /** Reading `m[k]`: the value stored under `k`, or None when `k` is absent. */
  function Lookup<K(==), V>(m: seq<Entry<K, V>>, k: K): (r: Option<V>)
    ensures r.None? <==> k !in Keys(m)
    ensures r.Some? ==> Entry(k, r.value) in m
  {
    if m == [] then None
    else if m[0].key == k then
      assert Keys(m)[0] == k;
      Some(m[0].value)
    else
      assert Keys(m) == [m[0].key] + Keys(m[1..]);
      Lookup(m[1..], k)
  }

  /** With distinct keys, `k` is bound to `v` exactly when the pair occurs. */
  lemma {:induction false} LookupIsMembership<K, V>(m: seq<Entry<K, V>>, k: K, v: V)
    requires UniqueKeys(m)
    ensures Lookup(m, k) == Some(v) <==> Entry(k, v) in m
  {
    if m != [] && m[0].key != k {
      assert Entry(k, v) in m ==> Entry(k, v) in m[1..];
      LookupIsMembership(m[1..], k, v);
    }
  }

  /**
    `m[k] = v`: a key already present keeps its place and takes the new value;
    a new key is appended at the end (see `AssignShape`).
   */
  function Assign<K(==,!new), V>(m: seq<Entry<K, V>>, k: K, v: V): (r: seq<Entry<K, V>>)
    requires UniqueKeys(m)
    ensures UniqueKeys(r)
    decreases |m|, 0
  {
    if m == [] then [Entry(k, v)]
    else if m[0].key == k then [Entry(k, v)] + m[1..]
    else
      var rest := Assign(m[1..], k, v);
      AssignShape(m[1..], k, v);
      assert Keys(m) == [m[0].key] + Keys(m[1..]);
      forall i, j | 0 <= i < j < |rest| + 1
        ensures ([m[0]] + rest)[i].key != ([m[0]] + rest)[j].key
      {
        if i == 0 && j - 1 < |m| - 1 {
          assert m[0].key != m[j].key;
        }
      }
      [m[0]] + rest
  }

  /**
    What `m[k] = v` does: with `k` present, the entry under `k` takes `v` in
    its place and every other entry stays; with `k` absent, `(k, v)` is
    appended.
   */
  lemma {:induction false} AssignShape<K(!new), V>(m: seq<Entry<K, V>>, k: K, v: V)
    requires UniqueKeys(m)
    ensures k in Keys(m) ==> |Assign(m, k, v)| == |m|
    ensures k in Keys(m) ==>
      forall i :: 0 <= i < |m| ==> Assign(m, k, v)[i] == (if m[i].key == k then Entry(k, v) else m[i])
    ensures k !in Keys(m) ==> Assign(m, k, v) == m + [Entry(k, v)]
    decreases |m|, 1
  {
    if m != [] {
      assert Keys(m) == [m[0].key] + Keys(m[1..]);
      if m[0].key == k {
        assert Keys(m)[0] == k;
      } else {
        var rest := Assign(m[1..], k, v);
        assert Assign(m, k, v) == [m[0]] + rest;
        AssignShape(m[1..], k, v);
        if k in Keys(m[1..]) {
          forall i | 0 <= i < |m|
            ensures ([m[0]] + rest)[i] == (if m[i].key == k then Entry(k, v) else m[i])
          {
            if i > 0 {
              assert ([m[0]] + rest)[i] == rest[i - 1] && m[1..][i - 1] == m[i];
            }
          }
        } else {
          assert [m[0]] + (m[1..] + [Entry(k, v)]) == m + [Entry(k, v)];
        }
      }
    }
  }

  /** Assigning to the key at index `i` replaces that entry's value and nothing else. */
  lemma {:induction false} AssignExisting<K(!new), V>(m: seq<Entry<K, V>>, i: int, v: V)
    requires UniqueKeys(m)
    requires 0 <= i < |m|
    ensures Assign(m, m[i].key, v) == m[i := Entry(m[i].key, v)]
  {
    assert Keys(m)[i] == m[i].key;
    AssignShape(m, m[i].key, v);
  }

  /** After `m[k] = v`, the key order is unchanged or extended by `k` at the end. */
  lemma {:induction false} AssignKeys<K(!new), V>(m: seq<Entry<K, V>>, k: K, v: V)
    requires UniqueKeys(m)
    ensures k in Keys(m) ==> Keys(Assign(m, k, v)) == Keys(m)
    ensures k !in Keys(m) ==> Keys(Assign(m, k, v)) == Keys(m) + [k]
  {
    AssignShape(m, k, v);
  }

  /** After `m[k] = v`, reading `k` gives `v`. */
  lemma {:induction false} AssignLookupSame<K(!new), V>(m: seq<Entry<K, V>>, k: K, v: V)
    requires UniqueKeys(m)
    ensures Lookup(Assign(m, k, v), k) == Some(v)
  {
    var r := Assign(m, k, v);
    AssignShape(m, k, v);
    LookupIsMembership(r, k, v);
    if k in Keys(m) {
      var i :| 0 <= i < |m| && m[i].key == k;
      assert r[i] == Entry(k, v);
    } else {
      assert r[|m|] == Entry(k, v);
    }
  }

  /** After `m[k] = v`, reading any other key is unaffected. */
  lemma {:induction false} AssignLookupOther<K(!new), V>(m: seq<Entry<K, V>>, k: K, v: V, k': K)
    requires UniqueKeys(m)
    requires k' != k
    ensures Lookup(Assign(m, k, v), k') == Lookup(m, k')
  {
    var r := Assign(m, k, v);
    AssignShape(m, k, v);
    match Lookup(m, k')
    case None =>
      assert Keys(r) == Keys(m) || Keys(r) == Keys(m) + [k] by {
        AssignKeys(m, k, v);
      }
    case Some(w) =>
      LookupIsMembership(m, k', w);
      LookupIsMembership(r, k', w);
      var i :| 0 <= i < |m| && m[i] == Entry(k', w);
      assert r[i] == m[i];
  }

  /**
    The keys of `ks` that are not in `seen`, each once, in order of first
    appearance.
   */
  function NewKeys<K(==)>(seen: seq<K>, ks: seq<K>): seq<K>
    decreases |ks|
  {
    if ks == [] then []
    else if ks[0] in seen then NewKeys(seen, ks[1..])
    else [ks[0]] + NewKeys(seen + [ks[0]], ks[1..])
  }

  /** `NewKeys` holds exactly the keys of `ks` that are not in `seen`. */
  lemma {:induction false} NewKeysMembers<K>(seen: seq<K>, ks: seq<K>, x: K)
    ensures x in NewKeys(seen, ks) <==> x in ks && x !in seen
    decreases |ks|
  {
    if ks != [] {
      assert ks == [ks[0]] + ks[1..];
      if ks[0] in seen {
        NewKeysMembers(seen, ks[1..], x);
      } else {
        NewKeysMembers(seen + [ks[0]], ks[1..], x);
      }
    }
  }

  /** `NewKeys` lists no key twice. */
  lemma {:induction false} NewKeysDistinct<K>(seen: seq<K>, ks: seq<K>)
    ensures Distinct(NewKeys(seen, ks))
    decreases |ks|
  {
    if ks != [] {
      if ks[0] in seen {
        NewKeysDistinct(seen, ks[1..]);
      } else {
        var rest := NewKeys(seen + [ks[0]], ks[1..]);
        NewKeysDistinct(seen + [ks[0]], ks[1..]);
        NewKeysMembers(seen + [ks[0]], ks[1..], ks[0]);
        forall i, j | 0 <= i < j < |rest| + 1
          ensures ([ks[0]] + rest)[i] != ([ks[0]] + rest)[j]
        {
          if i == 0 {
            assert rest[j - 1] in rest;
          }
        }
      }
    }
  }

  /** Assigning every pair of `ps` to `m`, in the order of `ps`. */
  function AssignAll<K(==,!new), V>(m: seq<Entry<K, V>>, ps: seq<Entry<K, V>>): (r: seq<Entry<K, V>>)
    requires UniqueKeys(m)
    ensures UniqueKeys(r)
    decreases |ps|
  {
    if ps == [] then m
    else AssignAll(Assign(m, ps[0].key, ps[0].value), ps[1..])
  }

  /** Assigning a single pair is one `Assign`. */
  lemma {:induction false} AssignAllOne<K(!new), V>(m: seq<Entry<K, V>>, e: Entry<K, V>)
    requires UniqueKeys(m)
    ensures AssignAll(m, [e]) == Assign(m, e.key, e.value)
  {
    assert [e][1..] == [];
  }

  /**
    Keys already in `m` keep their places; the keys of `ps` that are new follow
    them, in order of first appearance in `ps`.
   */
  lemma {:induction false} AssignAllKeys<K(!new), V>(m: seq<Entry<K, V>>, ps: seq<Entry<K, V>>)
    requires UniqueKeys(m)
    ensures Keys(AssignAll(m, ps)) == Keys(m) + NewKeys(Keys(m), Keys(ps))
    decreases |ps|
  {
    if ps == [] {
      assert Keys(m) + [] == Keys(m);
    } else {
      var m' := Assign(m, ps[0].key, ps[0].value);
      AssignAllKeys(m', ps[1..]);
      AssignAllKeysStep(m, ps, m');
    }
  }

  /** One step of `AssignAllKeys`: the first pair either keeps the keys or appends its own. */
  lemma {:induction false} AssignAllKeysStep<K(!new), V>(m: seq<Entry<K, V>>, ps: seq<Entry<K, V>>, m': seq<Entry<K, V>>)
    requires UniqueKeys(m)
    requires ps != []
    requires m' == Assign(m, ps[0].key, ps[0].value)
    requires Keys(AssignAll(m', ps[1..])) == Keys(m') + NewKeys(Keys(m'), Keys(ps[1..]))
    ensures Keys(AssignAll(m, ps)) == Keys(m) + NewKeys(Keys(m), Keys(ps))
  {
    var k := ps[0].key;
    var rest := NewKeys(Keys(m'), Keys(ps[1..]));
    assert AssignAll(m, ps) == AssignAll(m', ps[1..]);
    assert Keys(ps)[0] == k && Keys(ps)[1..] == Keys(ps[1..]);
    NewKeysCons(Keys(m), Keys(ps));
    AssignKeys(m, k, ps[0].value);
    if k !in Keys(m) {
      assert Keys(m) + [k] + rest == Keys(m) + ([k] + rest);
    }
  }

  /** One step of `NewKeys`: the first key, if new, then the new keys of the rest. */
  lemma {:induction false} NewKeysCons<K>(seen: seq<K>, ks: seq<K>)
    requires ks != []
    ensures ks[0] in seen ==> NewKeys(seen, ks) == NewKeys(seen, ks[1..])
    ensures ks[0] !in seen ==> NewKeys(seen, ks) == [ks[0]] + NewKeys(seen + [ks[0]], ks[1..])
  {
  }

  /** Every key of `ps` ends with the value of its last pair in `ps`. */
  lemma {:induction false} AssignAllLastWins<K(!new), V>(m: seq<Entry<K, V>>, ps: seq<Entry<K, V>>, i: int)
    requires UniqueKeys(m)
    requires 0 <= i < |ps|
    requires forall j :: i < j < |ps| ==> ps[j].key != ps[i].key
    ensures Lookup(AssignAll(m, ps), ps[i].key) == Some(ps[i].value)
    decreases |ps|
  {
    var m' := Assign(m, ps[0].key, ps[0].value);
    if i == 0 {
      AssignLookupSame(m, ps[0].key, ps[0].value);
      AssignAllKeepsOthers(m', ps[1..], ps[0].key);
    } else {
      AssignAllLastWins(m', ps[1..], i - 1);
    }
  }

  /** A key that no pair of `ps` mentions keeps its value. */
  lemma {:induction false} AssignAllKeepsOthers<K(!new), V>(m: seq<Entry<K, V>>, ps: seq<Entry<K, V>>, k: K)
    requires UniqueKeys(m)
    requires k !in Keys(ps)
    ensures Lookup(AssignAll(m, ps), k) == Lookup(m, k)
    decreases |ps|
  {
    if ps != [] {
      assert Keys(ps) == [ps[0].key] + Keys(ps[1..]);
      AssignLookupOther(m, ps[0].key, ps[0].value, k);
      AssignAllKeepsOthers(Assign(m, ps[0].key, ps[0].value), ps[1..], k);
    }
  }

  /** Assigning pairs whose keys are all new appends them, in order. */
  lemma {:induction false} AssignAllFresh<K(!new), V>(m: seq<Entry<K, V>>, ps: seq<Entry<K, V>>)
    requires UniqueKeys(m + ps)
    ensures UniqueKeys(m)
    ensures AssignAll(m, ps) == m + ps
    decreases |ps|
  {
    var all := m + ps;
    assert forall i :: 0 <= i < |m| ==> all[i] == m[i];
    if ps != [] {
      var m' := m + [ps[0]];
      assert m' + ps[1..] == all;
      forall i | 0 <= i < |m| ensures Keys(m)[i] != ps[0].key {
        assert all[i].key != all[|m|].key;
      }
      AssignShape(m, ps[0].key, ps[0].value);
      assert Assign(m, ps[0].key, ps[0].value) == m';
      AssignAllFresh(m', ps[1..]);
    }
  }
}
