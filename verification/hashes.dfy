/** Ruby hashes as ordered association lists: iteration follows insertion
    order, assigning an existing key keeps its position, a new key goes
    last. */
module Hashes {
  import opened Outcomes

  datatype Pair<V> = Pair(key: string, val: V)

  type Hash<V> = seq<Pair<V>>

  predicate HasKey<V>(h: Hash<V>, k: string) {
    exists i :: 0 <= i < |h| && h[i].key == k
  }

  /** No key is bound twice (true of every Ruby hash). */
  predicate UniqueKeys<V>(h: Hash<V>) {
    forall i, j :: 0 <= i < j < |h| ==> h[i].key != h[j].key
  }

  /** The keys, in iteration order. */
  function Keys<V>(h: Hash<V>): (ks: seq<string>)
    ensures |ks| == |h|
    ensures forall i :: 0 <= i < |h| ==> ks[i] == h[i].key
  {
    if h == [] then [] else [h[0].key] + Keys(h[1..])
  }

  lemma HasKeyCons<V>(p: Pair<V>, t: Hash<V>, k: string)
    ensures HasKey([p] + t, k) <==> p.key == k || HasKey(t, k)
  {
    var h := [p] + t;
    if p.key == k {
      assert h[0].key == k;
    }
    if HasKey(t, k) {
      var i :| 0 <= i < |t| && t[i].key == k;
      assert h[i + 1].key == k;
    }
    if HasKey(h, k) && p.key != k {
      var i :| 0 <= i < |h| && h[i].key == k;
      assert i > 0 && t[i - 1].key == k;
    }
  }

  /** A hash with unique keys is its first pair followed by a hash with
      unique keys that does not bind the first key. */
  lemma UniqueCons<V>(p: Pair<V>, t: Hash<V>)
    ensures UniqueKeys([p] + t) <==> UniqueKeys(t) && !HasKey(t, p.key)
  {
    var h := [p] + t;
    if UniqueKeys(h) {
      forall i, j | 0 <= i < j < |t| ensures t[i].key != t[j].key {
        assert h[i + 1].key != h[j + 1].key;
      }
      forall i | 0 <= i < |t| ensures t[i].key != p.key {
        assert h[0].key != h[i + 1].key;
      }
    }
    if UniqueKeys(t) && !HasKey(t, p.key) {
      forall i, j | 0 <= i < j < |h| ensures h[i].key != h[j].key {
        if i == 0 {
          assert t[j - 1].key == h[j].key;
        } else {
          assert h[i].key == t[i - 1].key && h[j].key == t[j - 1].key;
        }
      }
    }
  }

  lemma UniqueTail<V>(h: Hash<V>)
    requires UniqueKeys(h) && h != []
    ensures UniqueKeys(h[1..])
  {
    forall i, j | 0 <= i < j < |h[1..]| ensures h[1..][i].key != h[1..][j].key {
      assert h[1..][i] == h[i + 1] && h[1..][j] == h[j + 1];
    }
  }

  /** `h[k]`: the value of the first binding of `k`. */
  function Get<V>(h: Hash<V>, k: string): (r: Option<V>)
    ensures r.Some? <==> HasKey(h, k)
  {
    if h == [] then None
    else if h[0].key == k then
      assert HasKey(h, k) by { assert h[0].key == k; }
      Some(h[0].val)
    else
      assert h == [h[0]] + h[1..];
      HasKeyCons(h[0], h[1..], k);
      Get(h[1..], k)
  }

  /** With unique keys, the binding found is the one at any position that
      carries the key. */
  lemma GetAt<V>(h: Hash<V>, i: int)
    requires UniqueKeys(h) && 0 <= i < |h|
    ensures Get(h, h[i].key) == Some(h[i].val)
  {
    if i > 0 {
      assert h[0].key != h[i].key;
      UniqueTail(h);
      assert h[1..][i - 1] == h[i];
      GetAt(h[1..], i - 1);
    }
  }

  /** `h[k] = v`. */
  function Put<V>(h: Hash<V>, k: string, v: V): (r: Hash<V>)
    ensures Get(r, k) == Some(v)
    ensures forall k' :: k' != k ==> Get(r, k') == Get(h, k')
    ensures HasKey(h, k) ==> Keys(r) == Keys(h)
    ensures !HasKey(h, k) ==> r == h + [Pair(k, v)]
  {
    if h == [] then [Pair(k, v)]
    else if h[0].key == k then
      assert HasKey(h, k) by { assert h[0].key == k; }
      [Pair(k, v)] + h[1..]
    else
      var t := Put(h[1..], k, v);
      assert h == [h[0]] + h[1..];
      HasKeyCons(h[0], h[1..], k);
      ConsGetFound(h[0], t, k, v);
      ConsGetOthers(h[0], t, h[1..], k);
      ConsKeys(h[0], t, h[1..], HasKey(h[1..], k));
      ConsAppend(h[0], t, h[1..], Pair(k, v), !HasKey(h[1..], k));
      [h[0]] + t
  }

  // The steps of assigning past a first pair that does not bind the key.

  lemma ConsGetFound<V>(p: Pair<V>, t: Hash<V>, k: string, v: V)
    requires p.key != k && Get(t, k) == Some(v)
    ensures Get([p] + t, k) == Some(v)
  {
    assert ([p] + t)[1..] == t;
  }

  lemma ConsGetOthers<V>(p: Pair<V>, t: Hash<V>, rest: Hash<V>, k: string)
    requires forall k' :: k' != k ==> Get(t, k') == Get(rest, k')
    ensures forall k' :: k' != k ==> Get([p] + t, k') == Get([p] + rest, k')
  {
    assert ([p] + t)[1..] == t && ([p] + rest)[1..] == rest;
  }

  lemma ConsKeys<V>(p: Pair<V>, t: Hash<V>, rest: Hash<V>, when: bool)
    requires when ==> Keys(t) == Keys(rest)
    ensures when ==> Keys([p] + t) == Keys([p] + rest)
  {
    assert ([p] + t)[1..] == t && ([p] + rest)[1..] == rest;
  }

  lemma ConsAppend<V>(p: Pair<V>, t: Hash<V>, rest: Hash<V>, q: Pair<V>, when: bool)
    requires when ==> t == rest + [q]
    ensures when ==> [p] + t == [p] + rest + [q]
  {
  }

  /** Assignment binds the keys bound before, and the key assigned. */
  lemma PutKeys<V>(h: Hash<V>, k: string, v: V, name: string)
    ensures HasKey(Put(h, k, v), name) <==> HasKey(h, name) || k == name
  {
    if k != name {
      assert Get(Put(h, k, v), name) == Get(h, name);
    }
  }

  lemma PutUnique<V>(h: Hash<V>, k: string, v: V)
    requires UniqueKeys(h)
    ensures UniqueKeys(Put(h, k, v))
  {
    if h != [] {
      assert h == [h[0]] + h[1..];
      UniqueCons(h[0], h[1..]);
      if h[0].key == k {
        UniqueCons(Pair(k, v), h[1..]);
      } else {
        PutUnique(h[1..], k, v);
        var t := Put(h[1..], k, v);
        assert Get(t, h[0].key) == Get(h[1..], h[0].key);
        UniqueCons(h[0], t);
      }
    }
  }

  /** Assignment keeps every other entry and adds only the new pair. */
  lemma {:induction false} PutEntries<V>(h: Hash<V>, k: string, v: V, i: int)
    requires 0 <= i < |Put(h, k, v)|
    ensures Put(h, k, v)[i] == Pair(k, v) || Put(h, k, v)[i] in h
  {
    if h != [] && h[0].key != k && i > 0 {
      PutEntries(h[1..], k, v, i - 1);
    }
  }

  lemma ConsAssoc<V>(a: Hash<V>, p: Pair<V>, b: Hash<V>)
    ensures a + [p] + b == a + ([p] + b)
  {
  }

  /** Assigning a key twice keeps only the second value. */
  lemma {:induction false} PutPut<V>(h: Hash<V>, k: string, v1: V, v2: V)
    ensures Put(Put(h, k, v1), k, v2) == Put(h, k, v2)
  {
    if h != [] && h[0].key != k {
      PutPut(h[1..], k, v1, v2);
    }
  }

  /** `h.delete(k)`. */
  function Remove<V>(h: Hash<V>, k: string): (r: Hash<V>)
    ensures Get(r, k) == None
    ensures forall k' :: k' != k ==> Get(r, k') == Get(h, k')
    ensures |r| <= |h|
  {
    if h == [] then []
    else if h[0].key == k then Remove(h[1..], k)
    else [h[0]] + Remove(h[1..], k)
  }

  lemma RemoveUnique<V>(h: Hash<V>, k: string)
    requires UniqueKeys(h)
    ensures UniqueKeys(Remove(h, k))
  {
    if h != [] {
      assert h == [h[0]] + h[1..];
      UniqueCons(h[0], h[1..]);
      RemoveUnique(h[1..], k);
      if h[0].key != k {
        var t := Remove(h[1..], k);
        assert Get(t, h[0].key) == Get(h[1..], h[0].key);
        UniqueCons(h[0], t);
      }
    }
  }

  /** Deleting a key after assigning it forgets the assignment. */
  lemma {:induction false} RemovePut<V>(h: Hash<V>, k: string, v: V)
    ensures Remove(Put(h, k, v), k) == Remove(h, k)
  {
    if h != [] && h[0].key != k {
      RemovePut(h[1..], k, v);
    }
  }

  /** Deleting each of `ks` in turn. */
  function Without<V>(h: Hash<V>, ks: seq<string>): (r: Hash<V>)
    ensures forall k :: k in ks ==> Get(r, k) == None
    ensures forall k :: k !in ks ==> Get(r, k) == Get(h, k)
    decreases |ks|
  {
    if ks == [] then h else Without(Remove(h, ks[0]), ks[1..])
  }

  lemma {:induction false} WithoutEmpty<V>(ks: seq<string>)
    ensures Without<V>([], ks) == []
    decreases |ks|
  {
    if ks != [] {
      WithoutEmpty<V>(ks[1..]);
    }
  }

  /** Deleting a key the hash does not bind changes nothing. */
  lemma {:induction false} RemoveAbsent<V>(h: Hash<V>, k: string)
    requires !HasKey(h, k)
    ensures Remove(h, k) == h
  {
    if h != [] {
      assert h[0].key != k;
      assert h == [h[0]] + h[1..];
      HasKeyCons(h[0], h[1..], k);
      RemoveAbsent(h[1..], k);
    }
  }

  /** Deleting keys none of which the hash binds changes nothing. */
  lemma {:induction false} WithoutAbsent<V>(h: Hash<V>, ks: seq<string>)
    requires forall k :: k in ks ==> !HasKey(h, k)
    ensures Without(h, ks) == h
    decreases |ks|
  {
    if ks != [] {
      RemoveAbsent(h, ks[0]);
      WithoutAbsent(h, ks[1..]);
    }
  }
}
