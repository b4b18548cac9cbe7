/**
 * A JavaScript plain object used as a string-keyed dictionary. Its own keys
 * are enumerated in insertion order; assigning to an existing key replaces the
 * value and keeps the key where it was, assigning to a new key appends it, and
 * `delete` takes the key out. Integer-like keys, which JavaScript enumerates
 * first, are not distinguished here.
 */
module OrderedMap {

  /** The keys in enumeration order, and the value stored under each. */
  datatype Table<V> = Table(keys: seq<string>, entries: map<string, V>)

  predicate Distinct(ks: seq<string>) {
    forall i, j :: 0 <= i < j < |ks| ==> ks[i] != ks[j]
  }

  /** Every key is enumerated exactly once and every enumerated key has a value. */
  predicate Valid<V>(t: Table<V>) {
    && Distinct(t.keys)
    && (forall k :: k in t.entries ==> k in t.keys)
    && (forall k :: k in t.keys ==> k in t.entries)
  }

  /** `{}` */
  function Empty<V>(): (r: Table<V>)
    ensures Valid(r) && r.keys == [] && r.entries == map[]
  {
    Table([], map[])
  }

  /** `obj[k] = v` */
  function Put<V>(t: Table<V>, k: string, v: V): (r: Table<V>)
    ensures Valid(t) ==> Valid(r)
  {
    if k in t.entries then Table(t.keys, t.entries[k := v])
    else Table(t.keys + [k], t.entries[k := v])
  }

  /** The keys with every occurrence of `k` taken out. */
  function Without(ks: seq<string>, k: string): (r: seq<string>)
    ensures forall x :: x in r <==> x in ks && x != k
  {
    if ks == [] then []
    else (if ks[0] == k then [] else [ks[0]]) + Without(ks[1..], k)
  }

  /** `delete obj[k]` */
  function Remove<V>(t: Table<V>, k: string): (r: Table<V>)
    ensures Valid(t) ==> Valid(r)
  {
    WithoutDistinct(t.keys, k);
    Table(Without(t.keys, k), t.entries - {k})
  }

  /** Position of the first occurrence of `k`. */
  function IndexOf(ks: seq<string>, k: string): (i: nat)
    requires k in ks
    ensures i < |ks| && ks[i] == k && k !in ks[..i]
  {
    if ks[0] == k then 0
    else
      var j := IndexOf(ks[1..], k);
      assert ks[1..][..j] == ks[1..j + 1];
      1 + j
  }

  /** The first components of a sequence of pairs. */
  function Firsts<V>(ps: seq<(string, V)>): (ks: seq<string>)
    ensures |ks| == |ps| && forall j :: 0 <= j < |ps| ==> ks[j] == ps[j].0
  {
    seq(|ps|, j requires 0 <= j < |ps| => ps[j].0)
  }

  /**
   * Starting from `{}`, assign `out[k] = v` for each pair in turn: the object
   * that the source's rebuild loops (rename, reorder, load) produce.
   */
  function FromPairs<V>(ps: seq<(string, V)>): (r: Table<V>)
    ensures Valid(r)
    ensures forall k :: k in r.entries <==> k in Firsts(ps)
  {
    if ps == [] then Empty()
    else
      var n := |ps| - 1;
      assert Firsts(ps) == Firsts(ps[..n]) + [ps[n].0];
      Put(FromPairs(ps[..n]), ps[n].0, ps[n].1)
  }

  /** One more assignment into the rebuilt object. */
  lemma FromPairsSnoc<V>(ps: seq<(string, V)>, x: (string, V))
    ensures FromPairs(ps + [x]) == Put(FromPairs(ps), x.0, x.1)
  {
    assert (ps + [x])[..|ps|] == ps;
  }

  /** The rebuild after one more step of its loop. */
  lemma FromPairsPrefix<V>(ps: seq<(string, V)>, i: nat)
    requires i < |ps|
    ensures FromPairs(ps[..i + 1]) == Put(FromPairs(ps[..i]), ps[i].0, ps[i].1)
  {
    assert ps[..i + 1] == ps[..i] + [ps[i]];
    FromPairsSnoc(ps[..i], ps[i]);
  }

  /** The enumeration `for (k in obj) ... [k, obj[k]]`. */
  function PairsOf<V>(t: Table<V>): (ps: seq<(string, V)>)
    requires Valid(t)
    ensures |ps| == |t.keys|
    ensures forall j :: 0 <= j < |ps| ==> ps[j] == (t.keys[j], t.entries[t.keys[j]])
  {
    seq(|t.keys|, j requires 0 <= j < |t.keys| => (t.keys[j], t.entries[t.keys[j]]))
  }

  lemma WithoutDistinct(ks: seq<string>, k: string)
    ensures Distinct(ks) ==> Distinct(Without(ks, k))
  {
    if ks != [] && Distinct(ks) {
      var rest := Without(ks[1..], k);
      WithoutDistinct(ks[1..], k);
      assert ks[0] !in ks[1..];
      assert ks[0] !in rest;
      var r := (if ks[0] == k then [] else [ks[0]]) + rest;
      forall i, j | 0 <= i < j < |r| ensures r[i] != r[j] {
        if ks[0] != k && i == 0 {
          assert r[j] == rest[j - 1];
        }
      }
    }
  }

  /** Without leaves a sequence that does not hold `k` as it is. */
  lemma {:induction false} WithoutAbsent(ks: seq<string>, k: string)
    requires k !in ks
    ensures Without(ks, k) == ks
  {
    if ks != [] {
      WithoutAbsent(ks[1..], k);
      assert ks == [ks[0]] + ks[1..];
    }
  }

  /** In a sequence holding `k` once, Without cuts out exactly that position. */
  lemma {:induction false} WithoutOnce(ks: seq<string>, k: string)
    requires Distinct(ks) && k in ks
    ensures Without(ks, k) == ks[..IndexOf(ks, k)] + ks[IndexOf(ks, k) + 1..]
  {
    if ks[0] == k {
      assert k !in ks[1..];
      WithoutAbsent(ks[1..], k);
    } else {
      WithoutOnce(ks[1..], k);
      assert ks[..IndexOf(ks, k)] == [ks[0]] + ks[1..][..IndexOf(ks[1..], k)];
      assert ks[IndexOf(ks, k) + 1..] == ks[1..][IndexOf(ks[1..], k) + 1..];
    }
  }

  /**
   * Deleting a key removes that key and nothing else, and the remaining keys
   * keep their relative order (they close up over the removed position).
   */
  lemma RemoveKeepsOrder<V>(t: Table<V>, k: string)
    requires Valid(t)
    ensures Remove(t, k).entries.Keys == t.entries.Keys - {k}
    ensures forall x :: x in Remove(t, k).entries ==> Remove(t, k).entries[x] == t.entries[x]
    ensures k !in t.entries ==> Remove(t, k) == t
    ensures k in t.entries ==>
      Remove(t, k).keys == t.keys[..IndexOf(t.keys, k)] + t.keys[IndexOf(t.keys, k) + 1..]
  {
    if k in t.entries {
      WithoutOnce(t.keys, k);
    } else {
      WithoutAbsent(t.keys, k);
      assert t.entries - {k} == t.entries;
    }
  }

  /** Assigning a new key and then deleting it gives back the original object. */
  lemma PutThenRemove<V>(t: Table<V>, k: string, v: V)
    requires Valid(t) && k !in t.entries
    ensures Remove(Put(t, k, v), k) == t
  {
    WithoutAbsent(t.keys, k);
    assert Without(t.keys + [k], k) == Without(t.keys, k) by {
      WithoutAppend(t.keys, [k], k);
    }
    assert t.entries[k := v] - {k} == t.entries;
  }

  lemma {:induction false} WithoutAppend(a: seq<string>, b: seq<string>, k: string)
    ensures Without(a + b, k) == Without(a, k) + Without(b, k)
  {
    if a != [] {
      WithoutAppend(a[1..], b, k);
      assert (a + b)[1..] == a[1..] + b;
    } else {
      assert a + b == b;
    }
  }

  /**
   * Assigning pairs with distinct keys to `{}` enumerates the keys in the order
   * of assignment and stores each pair's value under its key.
   */
  lemma {:induction false} FromDistinctPairs<V>(ps: seq<(string, V)>)
    requires Distinct(Firsts(ps))
    ensures FromPairs(ps).keys == Firsts(ps)
    ensures forall j :: 0 <= j < |ps| ==> FromPairs(ps).entries[ps[j].0] == ps[j].1
  {
    FromDistinctKeys(ps);
    forall j | 0 <= j < |ps|
      ensures FromPairs(ps).entries[ps[j].0] == ps[j].1
    {
      forall m | j < m < |ps|
        ensures ps[m].0 != ps[j].0
      {
        assert Firsts(ps)[m] == ps[m].0 && Firsts(ps)[j] == ps[j].0;
      }
      FromPairsLast(ps, j);
    }
  }

  lemma {:induction false} FromDistinctKeys<V>(ps: seq<(string, V)>)
    requires Distinct(Firsts(ps))
    ensures FromPairs(ps).keys == Firsts(ps)
  {
    if ps != [] {
      var n := |ps| - 1;
      FirstsSnoc(ps);
      DistinctSnoc(Firsts(ps[..n]), ps[n].0);
      FromDistinctKeys(ps[..n]);
      assert ps[n].0 !in FromPairs(ps[..n]).entries;
    }
  }

  lemma FirstsSnoc<V>(ps: seq<(string, V)>)
    requires ps != []
    ensures Firsts(ps) == Firsts(ps[..|ps| - 1]) + [ps[|ps| - 1].0]
  {
  }



  lemma DistinctSnoc(ks: seq<string>, x: string)
    requires Distinct(ks + [x])
    ensures Distinct(ks) && x !in ks
  {
    assert forall i :: 0 <= i < |ks| ==> (ks + [x])[i] == ks[i];
    assert (ks + [x])[|ks|] == x;
  }

  /** Re-enumerating an object into `{}` in its own order reproduces it. */
  lemma PairsRoundTrip<V>(t: Table<V>)
    requires Valid(t)
    ensures FromPairs(PairsOf(t)) == t
  {
    var ps := PairsOf(t);
    assert Firsts(ps) == t.keys;
    FromDistinctPairs(ps);
    var r := FromPairs(ps);
    assert r.entries.Keys == t.entries.Keys by {
      forall x ensures x in r.entries <==> x in t.entries {
        if x in t.entries {
          var j := IndexOf(t.keys, x);
          assert ps[j].0 == x;
        }
      }
    }
    forall x | x in r.entries ensures r.entries[x] == t.entries[x] {
      var j := IndexOf(t.keys, x);
      assert ps[j].0 == x;
    }
  }

  /** In a sequence without duplicates, IndexOf finds the one position holding the key. */
  lemma IndexOfDistinct(ks: seq<string>, i: nat)
    requires Distinct(ks) && i < |ks|
    ensures IndexOf(ks, ks[i]) == i
  {
  }

  /** The value stored under a key is that of the last pair assigning it. */
  lemma {:induction false} FromPairsLast<V>(ps: seq<(string, V)>, j: nat)
    requires j < |ps|
    requires forall m :: j < m < |ps| ==> ps[m].0 != ps[j].0
    ensures ps[j].0 in FromPairs(ps).entries
    ensures FromPairs(ps).entries[ps[j].0] == ps[j].1
  {
    var n := |ps| - 1;
    assert Firsts(ps)[j] == ps[j].0;
    if j < n {
      assert ps[..n][j] == ps[j];
      FromPairsLast(ps[..n], j);
    }
  }

  /** Every entry of the rebuilt object comes from one of the pairs. */
  lemma {:induction false} FromPairsFrom<V>(ps: seq<(string, V)>, k: string)
    requires k in FromPairs(ps).entries
    ensures exists j :: 0 <= j < |ps| && ps[j] == (k, FromPairs(ps).entries[k])
  {
    var n := |ps| - 1;
    if ps[n].0 != k {
      FromPairsFrom(ps[..n], k);
      var j :| 0 <= j < n && ps[..n][j] == (k, FromPairs(ps[..n]).entries[k]);
      assert ps[j] == ps[..n][j];
    } else {
      assert ps[n] == (k, FromPairs(ps).entries[k]);
    }
  }

  /**
   * Re-enumerating an object into `{}` while assigning, at position i, a key
   * that no other position holds: the key takes position i's place, and every
   * other key keeps its value and its position.
   */
  lemma RebuildReplacing<V>(t: Table<V>, i: nat, k: string, v: V)
    requires Valid(t) && i < |t.keys|
    requires k == t.keys[i] || k !in t.entries
    ensures var r := FromPairs(PairsOf(t)[i := (k, v)]);
      && r.keys == t.keys[i := k]
      && r.entries.Keys == t.entries.Keys - {t.keys[i]} + {k}
      && r.entries[k] == v
      && (forall x :: x in t.entries && x != t.keys[i] ==> r.entries[x] == t.entries[x])
  {
    var ps := PairsOf(t)[i := (k, v)];
    ReplacingDistinct(t, i, k, v);
    FromDistinctPairs(ps);
    RebuildReplacingValues(t, i, k, v);
    RebuildReplacingDomain(t, i, k, v);
  }

  lemma ReplacingDistinct<V>(t: Table<V>, i: nat, k: string, v: V)
    requires Valid(t) && i < |t.keys|
    requires k == t.keys[i] || k !in t.entries
    ensures Firsts(PairsOf(t)[i := (k, v)]) == t.keys[i := k]
    ensures Distinct(t.keys[i := k])
  {
    var ks := t.keys[i := k];
    forall a, b | 0 <= a < b < |ks| ensures ks[a] != ks[b] {
      if a != i && b != i {
        assert ks[a] == t.keys[a] && ks[b] == t.keys[b];
      }
    }
  }

  lemma RebuildReplacingValues<V>(t: Table<V>, i: nat, k: string, v: V)
    requires Valid(t) && i < |t.keys|
    requires k == t.keys[i] || k !in t.entries
    ensures var r := FromPairs(PairsOf(t)[i := (k, v)]);
      && k in r.entries && r.entries[k] == v
      && (forall x :: x in t.entries && x != t.keys[i] ==> x in r.entries && r.entries[x] == t.entries[x])
  {
    var ps := PairsOf(t)[i := (k, v)];
    ReplacingDistinct(t, i, k, v);
    FromDistinctPairs(ps);
    assert ps[i] == (k, v);
    forall x | x in t.entries && x != t.keys[i] ensures x in FromPairs(ps).entries && FromPairs(ps).entries[x] == t.entries[x] {
      var j := IndexOf(t.keys, x);
      assert ps[j] == (x, t.entries[x]);
    }
  }

  /** Rebuilding with position i renamed onto the key at another position j drops the key at i. */
  lemma ReplaceOntoOtherDomain<V>(t: Table<V>, i: nat, j: nat, v: V)
    requires Valid(t) && i < |t.keys| && j < |t.keys| && i != j
    ensures FromPairs(PairsOf(t)[i := (t.keys[j], v)]).entries.Keys == t.entries.Keys - {t.keys[i]}
  {
    FirstsReplaced(t, i, t.keys[j], v);
    UpdatedKeys(t.keys, i, t.keys[j]);
  }


  /** ... and the key at j keeps the later of its two pairs: the renamed value when j came first, its own value otherwise. */
  lemma ReplaceOntoOtherValue<V>(t: Table<V>, i: nat, j: nat, v: V)
    requires Valid(t) && i < |t.keys| && j < |t.keys| && i != j
    ensures t.keys[j] in FromPairs(PairsOf(t)[i := (t.keys[j], v)]).entries
    ensures FromPairs(PairsOf(t)[i := (t.keys[j], v)]).entries[t.keys[j]] == if j < i then v else t.entries[t.keys[j]]
  {
    var ps := PairsOf(t)[i := (t.keys[j], v)];
    forall m | 0 <= m < |ps| && m != i && m != j ensures ps[m].0 != t.keys[j] {
      assert ps[m].0 == t.keys[m];
    }
    if j < i {
      FromPairsLast(ps, i);
    } else {
      FromPairsLast(ps, j);
    }
  }

  lemma RebuildReplacingDomain<V>(t: Table<V>, i: nat, k: string, v: V)
    requires Valid(t) && i < |t.keys|
    requires k == t.keys[i] || k !in t.entries
    ensures FromPairs(PairsOf(t)[i := (k, v)]).entries.Keys == t.entries.Keys - {t.keys[i]} + {k}
  {
    FirstsReplaced(t, i, k, v);
    UpdatedKeys(t.keys, i, k);
  }

  /** The keys of the pairs, with position i replaced. */
  lemma FirstsReplaced<V>(t: Table<V>, i: nat, k: string, v: V)
    requires Valid(t) && i < |t.keys|
    ensures Firsts(PairsOf(t)[i := (k, v)]) == t.keys[i := k]
  {
  }

  /** The members of a sequence of distinct keys with position i replaced by k. */
  lemma UpdatedKeys(ks: seq<string>, i: nat, k: string)
    requires Distinct(ks) && i < |ks|
    ensures forall x :: x in ks[i := k] <==> x == k || (x in ks && x != ks[i])
  {
    forall x ensures x in ks[i := k] <==> x == k || (x in ks && x != ks[i]) {
      if x in ks && x != ks[i] {
        var m :| 0 <= m < |ks| && ks[m] == x;
        assert ks[i := k][m] == x;
      }
      if x == k {
        assert ks[i := k][i] == k;
      }
      if x in ks[i := k] && x != k {
        var m :| 0 <= m < |ks| && ks[i := k][m] == x;
        assert m != i && ks[m] == x;
        assert ks[m] != ks[i];
      }
    }
  }

}
