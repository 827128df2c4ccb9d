/** A keyed store with separate chaining: an array of buckets, each an ordered chain of
    key/value pairs, that grows to 2n+1 buckets once it holds more than 0.7 n entries. */
module HashTables {
  import opened Types

  /** The bucket of key `k` among `n` buckets (get_index). */
  function Slot<K>(hash: K -> nat, k: K, n: nat): (b: nat)
    requires n > 0
    ensures b < n
  {
    hash(k) % n
  }

  /** The value paired with the first occurrence of `k` in a chain. */
  function Lookup<K(==), V>(chain: seq<(K, V)>, k: K): (r: Option<V>)
    ensures r.None? <==> forall i :: 0 <= i < |chain| ==> chain[i].0 != k
    ensures r.Some? ==> exists i :: 0 <= i < |chain| && chain[i] == (k, r.value)
  {
    if chain == [] then None
    else if chain[0].0 == k then Some(chain[0].1)
    else
      var r := Lookup(chain[1..], k);
      assert forall i :: 1 <= i < |chain| ==> chain[i] == chain[1..][i - 1];
      r
  }

  predicate KeysUnique<K(==), V>(chain: seq<(K, V)>)
  {
    forall i, j :: 0 <= i < j < |chain| ==> chain[i].0 != chain[j].0
  }

  function Get<K, V>(m: map<K, V>, k: K): Option<V>
  {
    if k in m then Some(m[k]) else None
  }

  /** The buckets `t` store exactly the map `m`: every pair sits in its key's bucket, no
      bucket repeats a key, and looking a key up in its bucket gives its value in `m`. */
  ghost predicate Represents<K(!new), V>(hash: K -> nat, t: seq<seq<(K, V)>>, m: map<K, V>)
  {
    && |t| > 0
    && (forall b, p :: 0 <= b < |t| && p in t[b] ==> Slot(hash, p.0, |t|) == b)
    && (forall b :: 0 <= b < |t| ==> KeysUnique(t[b]))
    && (forall k :: Lookup(t[Slot(hash, k, |t|)], k) == Get(m, k))
  }

  /** In a chain without repeated keys the pair stored at `i` is what Lookup finds. */
  lemma {:induction false} LookupAt<K, V>(chain: seq<(K, V)>, i: nat)
    requires KeysUnique(chain) && i < |chain|
    ensures Lookup(chain, chain[i].0) == Some(chain[i].1)
  {
    if i > 0 {
      assert chain[0].0 != chain[i].0;
      assert chain[1..][i - 1] == chain[i];
      LookupAt(chain[1..], i - 1);
    }
  }

  /** Appending a pair: earlier occurrences still win. */
  lemma {:induction false} LookupAppend<K, V>(chain: seq<(K, V)>, k: K, v: V, k': K)
    ensures Lookup(chain + [(k, v)], k') ==
            if Lookup(chain, k').Some? then Lookup(chain, k')
            else if k' == k then Some(v) else None
  {
    if chain != [] && chain[0].0 != k' {
      assert (chain + [(k, v)])[1..] == chain[1..] + [(k, v)];
      LookupAppend(chain[1..], k, v, k');
    }
  }

  /** Overwriting the value of the pair at `i` changes the lookup of its key only. */
  lemma {:induction false} LookupOverwrite<K, V>(chain: seq<(K, V)>, i: nat, v: V, k': K)
    requires KeysUnique(chain) && i < |chain|
    ensures KeysUnique(chain[i := (chain[i].0, v)])
    ensures Lookup(chain[i := (chain[i].0, v)], k') ==
            if k' == chain[i].0 then Some(v) else Lookup(chain, k')
  {
    var c' := chain[i := (chain[i].0, v)];
    if k' == chain[i].0 {
      LookupAt(c', i);
    } else if Lookup(chain, k').Some? {
      var j :| 0 <= j < |chain| && chain[j].0 == k';
      LookupAt(chain, j);
      LookupAt(c', j);
    }
  }

  /** Erasing the pair at `i` removes its key and leaves every other lookup alone. */
  lemma {:induction false} LookupErase<K, V>(chain: seq<(K, V)>, i: nat, k': K)
    requires KeysUnique(chain) && i < |chain|
    ensures KeysUnique(chain[..i] + chain[i + 1..])
    ensures Lookup(chain[..i] + chain[i + 1..], k') ==
            if k' == chain[i].0 then None else Lookup(chain, k')
  {
    var c' := chain[..i] + chain[i + 1..];
    assert forall j :: 0 <= j < |c'| ==> c'[j] == if j < i then chain[j] else chain[j + 1];
    if i == 0 {
      assert c' == chain[1..];
    } else if chain[0].0 != k' {
      var tail := chain[1..];
      assert c'[1..] == tail[..i - 1] + tail[i..];
      LookupErase(tail, i - 1, k');
    }
  }

  /** Replacing one bucket keeps the table a representation of `m'` when the new bucket
      represents `m'` on its keys and `m'` agrees with `m` on every other bucket's keys. */
  lemma ReplaceBucket<K(!new), V>(hash: K -> nat, t: seq<seq<(K, V)>>, m: map<K, V>,
                                  b: nat, c: seq<(K, V)>, m': map<K, V>)
    requires Represents(hash, t, m) && b < |t|
    requires KeysUnique(c)
    requires forall p :: p in c ==> Slot(hash, p.0, |t|) == b
    requires forall k :: Slot(hash, k, |t|) == b ==> Lookup(c, k) == Get(m', k)
    requires forall k :: Slot(hash, k, |t|) != b ==> Get(m', k) == Get(m, k)
    ensures Represents(hash, t[b := c], m')
  {
    var t' := t[b := c];
    forall k ensures Lookup(t'[Slot(hash, k, |t'|)], k) == Get(m', k) {
      if Slot(hash, k, |t|) != b {
        assert t'[Slot(hash, k, |t|)] == t[Slot(hash, k, |t|)];
      }
    }
  }

  lemma OverwriteKeepsRepresentation<K(!new), V>(hash: K -> nat, t: seq<seq<(K, V)>>, m: map<K, V>,
                                                b: nat, i: nat, v: V)
    requires Represents(hash, t, m) && b < |t| && i < |t[b]|
    ensures Represents(hash, t[b := t[b][i := (t[b][i].0, v)]], m[t[b][i].0 := v])
  {
    var c := t[b][i := (t[b][i].0, v)];
    var m' := m[t[b][i].0 := v];
    forall k | Slot(hash, k, |t|) == b ensures Lookup(c, k) == Get(m', k) {
      LookupOverwrite(t[b], i, v, k);
    }
    LookupOverwrite(t[b], i, v, t[b][i].0);
    ReplaceBucket(hash, t, m, b, c, m');
  }

  lemma AppendKeepsRepresentation<K(!new), V>(hash: K -> nat, t: seq<seq<(K, V)>>, m: map<K, V>, k: K, v: V)
    requires Represents(hash, t, m) && k !in m
    ensures Represents(hash, t[Slot(hash, k, |t|) := t[Slot(hash, k, |t|)] + [(k, v)]], m[k := v])
  {
    var b := Slot(hash, k, |t|);
    var c := t[b] + [(k, v)];
    forall k' | Slot(hash, k', |t|) == b ensures Lookup(c, k') == Get(m[k := v], k') {
      LookupAppend(t[b], k, v, k');
    }
    ReplaceBucket(hash, t, m, b, c, m[k := v]);
  }

  /** A stored pair sits in its key's bucket, carries the key's value, and its key does
      not occur earlier in that bucket. */
  lemma StoredPair<K(!new), V>(hash: K -> nat, t: seq<seq<(K, V)>>, m: map<K, V>, b: nat, j: nat)
    requires Represents(hash, t, m) && b < |t| && j < |t[b]|
    ensures Slot(hash, t[b][j].0, |t|) == b
    ensures t[b][j].0 in m && m[t[b][j].0] == t[b][j].1
    ensures Lookup(t[b][..j], t[b][j].0) == None
  {
    var p := t[b][j];
    LookupAt(t[b], j);
    assert Lookup(t[Slot(hash, p.0, |t|)], p.0) == Get(m, p.0);
    assert forall i :: 0 <= i < j ==> t[b][..j][i] == t[b][i];
  }

  lemma EraseKeepsRepresentation<K(!new), V>(hash: K -> nat, t: seq<seq<(K, V)>>, m: map<K, V>, b: nat, i: nat)
    requires Represents(hash, t, m) && b < |t| && i < |t[b]|
    ensures t[b][i].0 in m
    ensures Represents(hash, t[b := t[b][..i] + t[b][i + 1..]], m - {t[b][i].0})
  {
    var k := t[b][i].0;
    StoredPair(hash, t, m, b, i);
    var c := t[b][..i] + t[b][i + 1..];
    LookupErase(t[b], i, k);
    forall k' | Slot(hash, k', |t|) == b ensures Lookup(c, k') == Get(m - {k}, k') {
      LookupErase(t[b], i, k');
      assert Lookup(t[Slot(hash, k', |t|)], k') == Get(m, k');
    }
    ErasedFrom(t[b], i);
    assert forall k' :: Slot(hash, k', |t|) != b ==> Get(m - {k}, k') == Get(m, k');
    ReplaceBucket(hash, t, m, b, c, m - {k});
  }

  /** Erasing a pair leaves only pairs of the chain. */
  lemma ErasedFrom<K, V>(chain: seq<(K, V)>, i: nat)
    requires i < |chain|
    ensures forall p :: p in chain[..i] + chain[i + 1..] ==> p in chain
  {
    forall p | p in chain[..i] + chain[i + 1..] ensures p in chain {
      if p in chain[..i] {
        var j :| 0 <= j < i && chain[..i][j] == p;
        assert chain[j] == p;
      } else {
        var j :| 0 <= j < |chain| - i - 1 && chain[i + 1..][j] == p;
        assert chain[i + 1 + j] == p;
      }
    }
  }

  /** What rehash has moved after finishing buckets below `b` and the first `j` pairs of
      bucket `b`: exactly those pairs of `m`, with their values. */
  ghost predicate MovedSoFar<K(!new), V>(hash: K -> nat, t: seq<seq<(K, V)>>, m: map<K, V>,
                                         b: nat, j: nat, moved: map<K, V>)
    requires |t| > 0 && b <= |t| && (b < |t| ==> j <= |t[b]|)
  {
    && (forall k :: k in moved <==>
          (k in m && (Slot(hash, k, |t|) < b ||
                      (b < |t| && Slot(hash, k, |t|) == b && Lookup(t[b][..j], k).Some?))))
    && (forall k :: k in moved ==> moved[k] == m[k])
  }

  lemma PrefixLookup<K, V>(chain: seq<(K, V)>, j: nat, k: K)
    requires j < |chain|
    ensures Lookup(chain[..j + 1], k).Some? <==> Lookup(chain[..j], k).Some? || k == chain[j].0
  {
    assert chain[..j + 1] == chain[..j] + [chain[j]];
    LookupAppend(chain[..j], chain[j].0, chain[j].1, k);
  }

  /** One step of rehash: moving pair `j` of bucket `b` extends what has been moved. */
  lemma MoveOne<K(!new), V>(hash: K -> nat, t: seq<seq<(K, V)>>, m: map<K, V>, b: nat, j: nat,
                            moved: map<K, V>)
    requires |t| > 0 && b < |t| && j < |t[b]| && MovedSoFar(hash, t, m, b, j, moved)
    requires Slot(hash, t[b][j].0, |t|) == b
    requires t[b][j].0 in m && m[t[b][j].0] == t[b][j].1
    requires Lookup(t[b][..j], t[b][j].0) == None
    ensures t[b][j].0 !in moved
    ensures MovedSoFar(hash, t, m, b, j + 1, moved[t[b][j].0 := t[b][j].1])
  {
    var p := t[b][j];
    forall k ensures k in moved[p.0 := p.1] <==>
        (k in m && (Slot(hash, k, |t|) < b || (Slot(hash, k, |t|) == b && Lookup(t[b][..j + 1], k).Some?)))
    {
      PrefixLookup(t[b], j, k);
    }
  }

  /** Finishing bucket `b` is starting bucket `b + 1`. */
  lemma NextBucket<K(!new), V>(hash: K -> nat, t: seq<seq<(K, V)>>, m: map<K, V>, b: nat, moved: map<K, V>)
    requires Represents(hash, t, m) && b < |t| && MovedSoFar(hash, t, m, b, |t[b]|, moved)
    ensures MovedSoFar(hash, t, m, b + 1, 0, moved)
  {
    assert t[b][..|t[b]|] == t[b];
  }

  /** After the last bucket, everything has been moved. */
  lemma MovedAll<K(!new), V>(hash: K -> nat, t: seq<seq<(K, V)>>, m: map<K, V>, moved: map<K, V>)
    requires |t| > 0 && MovedSoFar(hash, t, m, |t|, 0, moved)
    ensures moved == m
  {
  }

  lemma CardUpdate<K, V>(m: map<K, V>, k: K, v: V)
    requires k !in m
    ensures |m[k := v]| == |m| + 1
  {
    assert m[k := v].Keys == m.Keys + {k};
  }

  lemma CardRemove<K, V>(m: map<K, V>, k: K)
    requires k in m
    ensures |m - {k}| == |m| - 1
  {
    assert (m - {k}).Keys == m.Keys - {k};
  }

  class HashTable<K(==,!new), V> {
    /** The hash function; the scheduler's stores use the identity on ids. */
    const hash: K -> nat
    var table: array<seq<(K, V)>>
    var numElements: nat
    /** The key/value pairs the table holds. */
    ghost var Contents: map<K, V>

    ghost predicate Valid()
      reads this, table
    {
      Represents(hash, table[..], Contents) && numElements == |Contents|
    }

    /** An empty table of `initialSize` buckets; a size of 0 would make every index a
        division by zero. */
    constructor (initialSize: nat, hasher: K -> nat)
      requires initialSize > 0
      ensures Valid() && fresh(table)
      ensures Contents == map[] && hash == hasher && table.Length == initialSize
    {
      hash := hasher;
      table := new seq<(K, V)>[initialSize](_ => []);
      numElements := 0;
      Contents := map[];
    }

    /** The default-sized table (101 buckets). */
    constructor WithDefaultSize(hasher: K -> nat)
      ensures Valid() && fresh(table)
      ensures Contents == map[] && hash == hasher && table.Length == 101
    {
      hash := hasher;
      table := new seq<(K, V)>[101](_ => []);
      numElements := 0;
      Contents := map[];
    }

    method GetIndex(k: K) returns (idx: nat)
      requires Valid()
      ensures idx == Slot(hash, k, table.Length) && idx < table.Length
    {
      idx := hash(k) % table.Length;
    }

    /** Inserts `k` or overwrites its value; a new key may trigger a rehash. */
    method Insert(k: K, v: V)
      requires Valid()
      modifies this, table
      ensures Valid()
      ensures Contents == old(Contents)[k := v]
      ensures k in old(Contents) ==> table == old(table) && numElements == old(numElements)
      ensures k !in old(Contents) ==> numElements == old(numElements) + 1
      ensures k !in old(Contents) && 10 * numElements > 7 * old(table.Length) ==>
                table.Length == 2 * old(table.Length) + 1 && fresh(table)
      ensures k !in old(Contents) && 10 * numElements <= 7 * old(table.Length) ==>
                table == old(table)
    {
      var idx := GetIndex(k);
      var chain := table[idx];
      var i := 0;
      while i < |chain|
        invariant 0 <= i <= |chain|
        invariant forall j :: 0 <= j < i ==> chain[j].0 != k
      {
        if chain[i].0 == k {
          OverwriteKeepsRepresentation(hash, table[..], Contents, idx, i, v);
          table[idx] := chain[i := (k, v)];
          Contents := Contents[k := v];
          return;
        }
        i := i + 1;
      }
      assert Lookup(chain, k) == None;
      AppendKeepsRepresentation(hash, table[..], Contents, k, v);
      table[idx] := chain + [(k, v)];
      CardUpdate(Contents, k, v);
      numElements := numElements + 1;
      Contents := Contents[k := v];
      if 10 * numElements > 7 * table.Length {
        Rehash();
      }
    }

    /** The value stored under `k`, if any. */
    method Find(k: K) returns (r: Option<V>)
      requires Valid()
      ensures r == Get(Contents, k)
    {
      var idx := GetIndex(k);
      var chain := table[idx];
      var i := 0;
      while i < |chain|
        invariant 0 <= i <= |chain|
        invariant forall j :: 0 <= j < i ==> chain[j].0 != k
      {
        if chain[i].0 == k {
          LookupAt(chain, i);
          return Some(chain[i].1);
        }
        i := i + 1;
      }
      return None;
    }

    /** Erases `k`; reports whether it was present. */
    method Remove(k: K) returns (removed: bool)
      requires Valid()
      modifies this`numElements, this`Contents, table
      ensures Valid()
      ensures removed <==> k in old(Contents)
      ensures Contents == old(Contents) - {k}
      ensures numElements == if removed then old(numElements) - 1 else old(numElements)
    {
      var idx := GetIndex(k);
      var chain := table[idx];
      var i := 0;
      while i < |chain|
        invariant 0 <= i <= |chain|
        invariant forall j :: 0 <= j < i ==> chain[j].0 != k
      {
        if chain[i].0 == k {
          EraseKeepsRepresentation(hash, table[..], Contents, idx, i);
          table[idx] := chain[..i] + chain[i + 1..];
          CardRemove(Contents, k);
          numElements := numElements - 1;
          Contents := Contents - {k};
          return true;
        }
        i := i + 1;
      }
      assert Lookup(chain, k) == None;
      assert Contents - {k} == Contents;
      return false;
    }

    method Size() returns (n: nat)
      requires Valid()
      ensures n == |Contents|
    {
      n := numElements;
    }

    method Empty() returns (e: bool)
      requires Valid()
      ensures e <==> Contents == map[]
    {
      e := numElements == 0;
    }

    /** Moves every pair into a fresh table of 2n+1 buckets, each to the bucket its key
        hashes to there; the stored pairs do not change. */
    method Rehash()
      requires Valid()
      modifies this
      ensures Valid() && fresh(table)
      ensures table.Length == 2 * old(table.Length) + 1
      ensures Contents == old(Contents) && numElements == old(numElements)
    {
      var newTable := new seq<(K, V)>[table.Length * 2 + 1](_ => []);
      MoveAll(newTable);
      table := newTable;
    }

    /** The outer loop of rehash: moves bucket after bucket into the empty `newTable`,
        which then holds exactly the stored pairs. */
    method MoveAll(newTable: array<seq<(K, V)>>)
      requires Valid() && newTable != table && newTable.Length > 0
      requires forall i :: 0 <= i < newTable.Length ==> newTable[i] == []
      modifies newTable
      ensures Represents(hash, newTable[..], Contents)
    {
      ghost var moved: map<K, V> := map[];
      assert Represents(hash, newTable[..], moved);
      var b := 0;
      while b < table.Length
        invariant 0 <= b <= table.Length
        invariant Represents(hash, newTable[..], moved)
        invariant MovedSoFar(hash, table[..], Contents, b, 0, moved)
      {
        moved := MoveBucket(b, newTable, moved);
        NextBucket(hash, table[..], Contents, b, moved);
        b := b + 1;
      }
      MovedAll(hash, table[..], Contents, moved);
    }

    /** The inner loop of rehash: appends every pair of bucket `b` to its bucket in `newTable`. */
    method MoveBucket(b: nat, newTable: array<seq<(K, V)>>, ghost moved: map<K, V>) returns (ghost moved': map<K, V>)
      requires Valid() && b < table.Length && newTable != table
      requires Represents(hash, newTable[..], moved) && MovedSoFar(hash, table[..], Contents, b, 0, moved)
      modifies newTable
      ensures Represents(hash, newTable[..], moved')
      ensures MovedSoFar(hash, table[..], Contents, b, |table[b]|, moved')
    {
      moved' := moved;
      ghost var t := table[..];
      var chain := table[b];
      var newSize := newTable.Length;
      var j := 0;
      while j < |chain|
        invariant 0 <= j <= |chain|
        invariant Represents(hash, newTable[..], moved')
        invariant MovedSoFar(hash, t, Contents, b, j, moved')
      {
        var p := chain[j];
        StoredPair(hash, t, Contents, b, j);
        MoveOne(hash, t, Contents, b, j, moved');
        var idx := hash(p.0) % newSize;
        ghost var nt := newTable[..];
        AppendKeepsRepresentation(hash, nt, moved', p.0, p.1);
        newTable[idx] := newTable[idx] + [p];
        assert newTable[..] == nt[idx := nt[idx] + [p]];
        moved' := moved'[p.0 := p.1];
        j := j + 1;
      }
    }
  }
}
