/** Insertion-ordered tables, the stand-in for Ruby's Hash.

    A table is a sequence of (key, value) pairs. Assigning to a key that is
    already present replaces its value where it stands, as `hash[key] = value`
    does; a new key goes at the end. `FromPairs` is `Hash[pairs]`: the pairs
    are assigned one after the other, so the last value given for a key wins
    and the key keeps the place of its first occurrence.
 */
module AssocList {

  datatype Option<T> = None | Some(value: T)

  /** One `key => value` entry. */
  datatype Pair<V> = Pair(key: string, value: V)

  type Table<V> = seq<Pair<V>>

  /** The keys a table holds. */
  ghost function KeySet<V>(t: Table<V>): (r: set<string>)
  {
    if t == [] then {} else {t[0].key} + KeySet(t[1..])
  }

  /** No key occurs twice: what every Ruby Hash satisfies. */
  ghost predicate UniqueKeys<V>(t: Table<V>)
  {
    forall i, j :: 0 <= i < j < |t| ==> t[i].key != t[j].key
  }

  /** `hash[k]`: the value of the first pair whose key is `k`. */
  function Lookup<V>(t: Table<V>, k: string): (r: Option<V>)
    ensures r.Some? <==> k in KeySet(t)
  {
    if t == [] then None
    else if t[0].key == k then Some(t[0].value)
    else Lookup(t[1..], k)
  }

  /** `hash[k] = v`: overwrite in place, or append a new key. */
  function Insert<V>(t: Table<V>, k: string, v: V): (r: Table<V>)
    ensures KeySet(r) == KeySet(t) + {k}
    ensures k in KeySet(t) ==> |r| == |t|
    ensures k !in KeySet(t) ==> r == t + [Pair(k, v)]
  {
    if t == [] then [Pair(k, v)]
    else if t[0].key == k then [Pair(k, v)] + t[1..]
    else
      var r := [t[0]] + Insert(t[1..], k, v);
      assert r[1..] == Insert(t[1..], k, v);
      r
  }

  /** `hash[k] = v` keeps every pair where it stands: the pair holding `k`, if
      any, gets the new value, and every other pair is left as it is. */
  lemma {:induction false} InsertInPlace<V>(t: Table<V>, k: string, v: V)
    requires UniqueKeys(t)
    ensures forall i :: 0 <= i < |t| ==> Insert(t, k, v)[i] == if t[i].key == k then Pair(k, v) else t[i]
  {
    if t != [] && t[0].key != k {
      var r := Insert(t, k, v);
      assert r[1..] == Insert(t[1..], k, v);
      assert UniqueKeys(t[1..]) by {
        forall i, j | 0 <= i < j < |t[1..]| ensures t[1..][i].key != t[1..][j].key {
          assert t[1..][i] == t[i + 1] && t[1..][j] == t[j + 1];
        }
      }
      InsertInPlace(t[1..], k, v);
      forall i | 0 < i < |t| ensures r[i] == if t[i].key == k then Pair(k, v) else t[i] {
        assert r[i] == r[1..][i - 1] && t[i] == t[1..][i - 1];
      }
    } else if t != [] {
      forall i | 0 < i < |t| ensures t[i].key != k {
        assert t[0].key != t[i].key;
      }
    }
  }

  /** What `Lookup` finds is a pair of the table. */
  lemma {:induction false} LookupFound<V>(t: Table<V>, k: string)
    requires Lookup(t, k).Some?
    ensures exists i :: 0 <= i < |t| && t[i] == Pair(k, Lookup(t, k).value)
  {
    if t[0].key != k {
      LookupFound(t[1..], k);
      var i :| 0 <= i < |t[1..]| && t[1..][i] == Pair(k, Lookup(t, k).value);
      assert t[i + 1] == t[1..][i];
    }
  }

  /** After `hash[k] = v`, key `k` holds `v` and every other key what it held before. */
  lemma {:induction false} LookupInsert<V>(t: Table<V>, k: string, v: V, k': string)
    ensures Lookup(Insert(t, k, v), k') == if k' == k then Some(v) else Lookup(t, k')
  {
    if t != [] && t[0].key != k {
      var r := Insert(t, k, v);
      assert r[1..] == Insert(t[1..], k, v);
      LookupInsert(t[1..], k, v, k');
    }
  }

  /** A key is in the table exactly when some position holds it. */
  lemma {:induction false} KeySetMembers<V>(t: Table<V>, k: string)
    ensures k in KeySet(t) <==> exists i :: 0 <= i < |t| && t[i].key == k
  {
    if t != [] {
      KeySetMembers(t[1..], k);
      if t[0].key != k && k in KeySet(t) {
        var i :| 0 <= i < |t[1..]| && t[1..][i].key == k;
        assert t[i + 1].key == k;
      }
      if t[0].key != k && exists i :: 0 <= i < |t| && t[i].key == k {
        var i :| 0 <= i < |t| && t[i].key == k;
        assert t[1..][i - 1].key == k;
      }
    }
  }

  /** The keys of a table extended at the end by one pair. */
  lemma {:induction false} KeySetSnoc<V>(t: Table<V>, p: Pair<V>)
    ensures KeySet(t + [p]) == KeySet(t) + {p.key}
  {
    if t != [] {
      assert (t + [p])[1..] == t[1..] + [p];
      KeySetSnoc(t[1..], p);
    }
  }

  /** Assignment keeps keys unique, and every pair afterwards was there before
      or is the one assigned. */
  lemma {:induction false} InsertKeeps<V>(t: Table<V>, k: string, v: V)
    ensures UniqueKeys(t) ==> UniqueKeys(Insert(t, k, v))
    ensures forall p :: p in Insert(t, k, v) ==> p in t || p == Pair(k, v)
  {
    var r := Insert(t, k, v);
    if t == [] {
    } else if t[0].key == k {
      assert r == [Pair(k, v)] + t[1..];
      if UniqueKeys(t) {
        forall i, j | 0 <= i < j < |r| ensures r[i].key != r[j].key {
          assert r[i].key == t[i].key && r[j].key == t[j].key;
        }
      }
    } else {
      var r' := Insert(t[1..], k, v);
      InsertKeeps(t[1..], k, v);
      assert r == [t[0]] + r';
      if UniqueKeys(t) {
        forall i, j | 0 <= i < j < |r| ensures r[i].key != r[j].key {
          if i == 0 {
            KeySetMembers(r', r[j].key);
            KeySetMembers(t[1..], r[j].key);
          } else {
            assert r[i] == r'[i - 1] && r[j] == r'[j - 1];
          }
        }
      }
    }
  }

  /** `Hash[pairs]`: assign the pairs in order into an empty table. */
  function FromPairs<V>(ps: Table<V>): (r: Table<V>)
    ensures UniqueKeys(r)
    ensures KeySet(r) == KeySet(ps)
    ensures |r| <= |ps|
  {
    if ps == [] then []
    else
      var prefix := ps[..|ps| - 1];
      var last := ps[|ps| - 1];
      assert ps == prefix + [last];
      KeySetSnoc(prefix, last);
      InsertKeeps(FromPairs(prefix), last.key, last.value);
      Insert(FromPairs(prefix), last.key, last.value)
  }

  /** `Hash[pairs]` invents no pair: each of its pairs is one of the given. */
  lemma {:induction false} FromPairsFrom<V>(ps: Table<V>)
    ensures forall p :: p in FromPairs(ps) ==> p in ps
  {
    if ps != [] {
      var prefix := ps[..|ps| - 1];
      var last := ps[|ps| - 1];
      assert ps == prefix + [last];
      FromPairsFrom(prefix);
      InsertKeeps(FromPairs(prefix), last.key, last.value);
    }
  }

  /** In a table without repeated keys, looking up the key at position `i`
      finds the value at position `i`. */
  lemma {:induction false} LookupAt<V>(t: Table<V>, i: nat)
    requires UniqueKeys(t) && i < |t|
    ensures Lookup(t, t[i].key) == Some(t[i].value)
  {
    if i > 0 {
      assert t[0].key != t[i].key;
      LookupAt(t[1..], i - 1);
    }
  }

  /** The last pair given for a key decides its value. */
  lemma {:induction false} FromPairsLastWins<V>(ps: Table<V>, j: nat)
    requires j < |ps|
    requires forall j' :: j < j' < |ps| ==> ps[j'].key != ps[j].key
    ensures Lookup(FromPairs(ps), ps[j].key) == Some(ps[j].value)
  {
    var prefix := ps[..|ps| - 1];
    var last := ps[|ps| - 1];
    LookupInsert(FromPairs(prefix), last.key, last.value, ps[j].key);
    if j < |ps| - 1 {
      FromPairsLastWins(prefix, j);
    }
  }

  /** Pairs with pairwise distinct keys come out exactly as they went in. */
  lemma {:induction false} FromPairsDistinct<V>(ps: Table<V>)
    requires UniqueKeys(ps)
    ensures FromPairs(ps) == ps
  {
    if ps != [] {
      var prefix := ps[..|ps| - 1];
      var last := ps[|ps| - 1];
      assert UniqueKeys(prefix) by {
        forall i, j | 0 <= i < j < |prefix| ensures prefix[i].key != prefix[j].key {
          assert prefix[i] == ps[i] && prefix[j] == ps[j];
        }
      }
      FromPairsDistinct(prefix);
      forall i | 0 <= i < |prefix| ensures prefix[i].key != last.key {
        assert prefix[i] == ps[i];
      }
      KeySetMembers(prefix, last.key);
      assert last.key !in KeySet(prefix);
      assert prefix + [last] == ps;
    }
  }

  /** `Hash[pairs + [p]]` is `Hash[pairs]` followed by one more assignment. */
  lemma FromPairsSnoc<V>(ps: Table<V>, p: Pair<V>)
    ensures FromPairs(ps + [p]) == Insert(FromPairs(ps), p.key, p.value)
  {
    assert (ps + [p])[..|ps|] == ps;
  }

  /** Two assignments to the same key: the second one is what is left. */
  lemma FromPairsOverwrite<V>(p: Pair<V>, q: Pair<V>)
    requires p.key == q.key
    ensures FromPairs([p, q]) == [q]
  {
    assert [p, q][..1] == [p];
  }

  /** An assignment to another key in between does not move the first one:
      the overwritten key keeps the first place. */
  lemma FromPairsKeepsPlace<V>(p: Pair<V>, q: Pair<V>, s: Pair<V>)
    requires p.key == s.key && q.key != p.key
    ensures FromPairs([p, q, s]) == [s, q]
  {
    assert [p, q, s][..2] == [p, q];
    assert [p, q][..1] == [p];
  }

  /** Tables whose keys agree position by position hold the same keys. */
  lemma {:induction false} SameKeySeq<V, W>(t: Table<V>, u: Table<W>)
    requires |t| == |u|
    requires forall i :: 0 <= i < |t| ==> t[i].key == u[i].key
    ensures KeySet(t) == KeySet(u)
  {
    if t != [] {
      SameKeySeq(t[1..], u[1..]);
    }
  }
}
