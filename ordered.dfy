/** Insertion-ordered dictionaries (Python's `dict` and `OrderedDict`) as sequences of key/value pairs. */
module OrderedMaps {

  function Keys<V>(m: seq<(string, V)>): (ks: seq<string>)
    ensures |ks| == |m| && forall i :: 0 <= i < |m| ==> ks[i] == m[i].0
  {
    if m == [] then [] else [m[0].0] + Keys(m[1..])
  }

  /** No key occurs twice: the invariant of every Python dictionary. */
  predicate UniqueKeys<V>(m: seq<(string, V)>) {
    forall i, j :: 0 <= i < j < |m| ==> m[i].0 != m[j].0
  }

  predicate HasKey<V>(m: seq<(string, V)>, k: string) {
    k in Keys(m)
  }

  /** Position of the first occurrence of `k` in `ks`. */
  function Position(ks: seq<string>, k: string): (i: nat)
    requires k in ks
    ensures i < |ks| && ks[i] == k && k !in ks[..i]
  {
    if ks[0] == k then 0
    else
      var j := Position(ks[1..], k);
      assert ks[..j + 1] == [ks[0]] + ks[1..][..j];
      j + 1
  }

  lemma {:induction false} PositionAppend(ks: seq<string>, k: string, x: string)
    requires k in ks
    ensures Position(ks + [x], k) == Position(ks, k)
  {
    if ks[0] != k {
      assert (ks + [x])[1..] == ks[1..] + [x];
      PositionAppend(ks[1..], k, x);
    }
  }

  /** `m[k]`: the value bound to key `k`. */
  function Get<V>(m: seq<(string, V)>, k: string): V
    requires HasKey(m, k)
  {
    m[Position(Keys(m), k)].1
  }

  /** `m[k] = v`: an existing key keeps its position and takes the new value, a new key goes last. */
  function Put<V>(m: seq<(string, V)>, k: string, v: V): (r: seq<(string, V)>)
    ensures HasKey(m, k) ==> |r| == |m| && Keys(r) == Keys(m)
    ensures !HasKey(m, k) ==> r == m + [(k, v)] && Keys(r) == Keys(m) + [k]
    ensures HasKey(r, k) && Get(r, k) == v
    ensures forall k' :: k' != k ==> (HasKey(r, k') <==> HasKey(m, k'))
    ensures forall k' :: k' != k && HasKey(m, k') ==> Get(r, k') == Get(m, k')
  {
    if HasKey(m, k) then
      var r := m[Position(Keys(m), k) := (k, v)];
      assert Keys(r) == Keys(m);
      r
    else
      AppendKey(m, k, v);
      m + [(k, v)]
  }

  /** Appending a pair with a new key: the keys grow by that key, and every other key keeps its position. */
  lemma AppendKey<V>(m: seq<(string, V)>, k: string, v: V)
    ensures Keys(m + [(k, v)]) == Keys(m) + [k]
    ensures forall k' :: k' in Keys(m) ==> Position(Keys(m + [(k, v)]), k') == Position(Keys(m), k')
  {
    var r := m + [(k, v)];
    assert Keys(r) == Keys(m) + [k];
    forall k' | k' in Keys(m) ensures Position(Keys(r), k') == Position(Keys(m), k') {
      PositionAppend(Keys(m), k', k);
    }
  }

  /** Keys are unique exactly when the key sequence has no repetition. */
  lemma UniqueKeysPut<V>(m: seq<(string, V)>, k: string, v: V)
    requires UniqueKeys(m)
    ensures UniqueKeys(Put(m, k, v))
  {
    var r := Put(m, k, v);
    forall i, j | 0 <= i < j < |r| ensures r[i].0 != r[j].0 {
      assert Keys(r)[i] == r[i].0 && Keys(r)[j] == r[j].0;
      if !HasKey(m, k) && j == |m| {
        assert Keys(m)[i] == r[i].0;
      } else {
        assert Keys(m)[i] == r[i].0 && Keys(m)[j] == r[j].0;
      }
    }
  }

  /** The keys of `ks` without repetitions, each at its first occurrence. */
  function Dedup(ks: seq<string>): (r: seq<string>)
    ensures forall k :: k in r <==> k in ks
    ensures forall i, j :: 0 <= i < j < |r| ==> r[i] != r[j]
  {
    if ks == [] then []
    else
      var d := Dedup(ks[..|ks| - 1]);
      assert ks == ks[..|ks| - 1] + [ks[|ks| - 1]];
      if ks[|ks| - 1] in d then d else d + [ks[|ks| - 1]]
  }

  /** The value of the last pair with key `k`. */
  function LastValue<V>(ps: seq<(string, V)>, k: string): V
    requires HasKey(ps, k)
  {
    if ps[|ps| - 1].0 == k then ps[|ps| - 1].1
    else
      assert Keys(ps) == Keys(ps[..|ps| - 1]) + [ps[|ps| - 1].0];
      LastValue(ps[..|ps| - 1], k)
  }

  /** `OrderedDict(pairs)` or a dict comprehension: the pairs inserted one after another with `Put`. */
  function FromPairs<V>(ps: seq<(string, V)>): seq<(string, V)> {
    if ps == [] then [] else Put(FromPairs(ps[..|ps| - 1]), ps[|ps| - 1].0, ps[|ps| - 1].1)
  }

  /** Building a dictionary from pairs: its keys are those of the pairs, without repetition, in the order of their
      first occurrence, and each key is bound to the value of its last occurrence. */
  lemma FromPairsSpec<V>(ps: seq<(string, V)>)
    ensures UniqueKeys(FromPairs(ps))
    ensures Keys(FromPairs(ps)) == Dedup(Keys(ps))
    ensures forall k :: HasKey(FromPairs(ps), k) <==> HasKey(ps, k)
    ensures forall k :: HasKey(ps, k) ==> Get(FromPairs(ps), k) == LastValue(ps, k)
  {
    FromPairsUnique(ps);
    FromPairsKeys(ps);
    forall k | HasKey(ps, k) ensures Get(FromPairs(ps), k) == LastValue(ps, k) {
      FromPairsLast(ps, k);
    }
  }

  lemma {:induction false} FromPairsUnique<V>(ps: seq<(string, V)>)
    ensures UniqueKeys(FromPairs(ps))
  {
    if ps != [] {
      FromPairsUnique(ps[..|ps| - 1]);
      UniqueKeysPut(FromPairs(ps[..|ps| - 1]), ps[|ps| - 1].0, ps[|ps| - 1].1);
    }
  }

  lemma {:induction false} FromPairsKeys<V>(ps: seq<(string, V)>)
    ensures Keys(FromPairs(ps)) == Dedup(Keys(ps))
  {
    if ps != [] {
      var init := ps[..|ps| - 1];
      var last := ps[|ps| - 1];
      FromPairsKeys(init);
      assert Keys(ps)[..|ps| - 1] == Keys(init);
      assert Keys(ps)[|ps| - 1] == last.0;
    }
  }

  lemma {:induction false} FromPairsLast<V>(ps: seq<(string, V)>, k: string)
    requires HasKey(ps, k)
    ensures HasKey(FromPairs(ps), k) && Get(FromPairs(ps), k) == LastValue(ps, k)
  {
    var init := ps[..|ps| - 1];
    var last := ps[|ps| - 1];
    assert Keys(ps) == Keys(init) + [last.0];
    if last.0 != k {
      FromPairsLast(init, k);
    }
  }

  /** The pairs of `m` whose values satisfy `p`, in their order: a dict comprehension with a condition. */
  function Filter<V(==)>(m: seq<(string, V)>, p: V -> bool): (r: seq<(string, V)>)
    ensures forall i :: 0 <= i < |r| ==> r[i] in m && p(r[i].1)
    ensures forall i :: 0 <= i < |m| && p(m[i].1) ==> m[i] in r
  {
    if m == [] then [] else (if p(m[0].1) then [m[0]] else []) + Filter(m[1..], p)
  }

  /** The indices of the pairs of `m` whose values satisfy `p`, in increasing order. */
  function KeptIndices<V>(m: seq<(string, V)>, p: V -> bool): (ix: seq<nat>)
    ensures forall i :: 0 <= i < |ix| ==> ix[i] < |m| && p(m[ix[i]].1)
    ensures forall i, j :: 0 <= i < j < |ix| ==> ix[i] < ix[j]
  {
    if m == [] then []
    else
      var rest := KeptIndices(m[1..], p);
      ConsKept(m, p, rest);
      (if p(m[0].1) then [0] else []) + ShiftIndices(rest)
  }

  /** The step of `KeptIndices`: the tail's kept indices, one further on, behind 0 when `m[0]` is kept. */
  lemma ConsKept<V>(m: seq<(string, V)>, p: V -> bool, rest: seq<nat>)
    requires |m| > 0
    requires forall i :: 0 <= i < |rest| ==> rest[i] < |m| - 1 && p(m[1..][rest[i]].1)
    requires forall i, j :: 0 <= i < j < |rest| ==> rest[i] < rest[j]
    ensures var ix := (if p(m[0].1) then [0] else []) + ShiftIndices(rest);
            && (forall i :: 0 <= i < |ix| ==> ix[i] < |m| && p(m[ix[i]].1))
            && (forall i, j :: 0 <= i < j < |ix| ==> ix[i] < ix[j])
  {
    var d := if p(m[0].1) then 1 else 0;
    var ix := (if p(m[0].1) then [0] else []) + ShiftIndices(rest);
    forall i | d <= i < |ix|
      ensures ix[i] == rest[i - d] + 1 && m[ix[i]] == m[1..][rest[i - d]]
    {
    }
  }

  /** Every index one further on. */
  function ShiftIndices(ix: seq<nat>): (r: seq<nat>)
    ensures |r| == |ix| && forall i :: 0 <= i < |ix| ==> r[i] == ix[i] + 1
  {
    seq(|ix|, i requires 0 <= i < |ix| => ix[i] + 1)
  }

  /** Filtering keeps the order of the dictionary: the `i`-th pair kept is the pair at the `i`-th kept index. */
  lemma {:induction false} FilterOrder<V>(m: seq<(string, V)>, p: V -> bool)
    ensures |Filter(m, p)| == |KeptIndices(m, p)|
    ensures forall i :: 0 <= i < |Filter(m, p)| ==> Filter(m, p)[i] == m[KeptIndices(m, p)[i]]
  {
    if m != [] {
      FilterOrder(m[1..], p);
      ConsIndices(m, Filter(m[1..], p), KeptIndices(m[1..], p), p(m[0].1));
      assert Filter(m, p) == (if p(m[0].1) then [m[0]] else []) + Filter(m[1..], p);
    }
  }

  /** The step of `FilterOrder`: the tail's pairs at the tail's indices are `m`'s pairs at the shifted indices,
      behind `m[0]` at index 0 when it is kept. */
  lemma ConsIndices<V>(m: seq<(string, V)>, f: seq<(string, V)>, ix: seq<nat>, keep: bool)
    requires |m| > 0 && |f| == |ix|
    requires forall i :: 0 <= i < |ix| ==> ix[i] < |m| - 1 && f[i] == m[1..][ix[i]]
    ensures var g, jx := (if keep then [m[0]] else []) + f, (if keep then [0] else []) + ShiftIndices(ix);
            |g| == |jx| && forall i :: 0 <= i < |g| ==> jx[i] < |m| && g[i] == m[jx[i]]
  {
    var g, jx := (if keep then [m[0]] else []) + f, (if keep then [0] else []) + ShiftIndices(ix);
    var d := if keep then 1 else 0;
    forall i | 0 <= i < |g|
      ensures jx[i] < |m| && g[i] == m[jx[i]]
    {
      if i >= d {
        assert g[i] == f[i - d] && jx[i] == ix[i - d] + 1;
      }
    }
  }

  /** Dropping a first pair with another key changes neither membership nor lookup of `k`. */
  lemma GetTail<V>(m: seq<(string, V)>, k: string)
    requires |m| > 0 && m[0].0 != k
    ensures HasKey(m, k) <==> HasKey(m[1..], k)
    ensures HasKey(m, k) ==> Get(m, k) == Get(m[1..], k)
  {
    assert Keys(m) == [m[0].0] + Keys(m[1..]);
    assert Keys(m)[1..] == Keys(m[1..]);
  }

  /** Filtering a dictionary: a key stays exactly when its value satisfies the condition, bound to the same value. */
  lemma {:induction false} FilterGet<V>(m: seq<(string, V)>, p: V -> bool, k: string)
    requires UniqueKeys(m)
    ensures HasKey(Filter(m, p), k) <==> HasKey(m, k) && p(Get(m, k))
    ensures HasKey(Filter(m, p), k) ==> Get(Filter(m, p), k) == Get(m, k)
  {
    if m != [] {
      var rest := Filter(m[1..], p);
      var r := Filter(m, p);
      assert UniqueKeys(m[1..]);
      FilterGet(m[1..], p, k);
      if m[0].0 == k {
        assert Keys(m)[0] == k;
        if p(m[0].1) {
          assert r == [m[0]] + rest;
          assert Keys(r)[0] == k;
        } else {
          assert r == rest;
          assert forall j :: 0 <= j < |m| - 1 ==> Keys(m[1..])[j] == m[j + 1].0 != k;
        }
      } else {
        GetTail(m, k);
        if p(m[0].1) {
          assert r == [m[0]] + rest;
          assert r[1..] == rest;
          GetTail(r, k);
        } else {
          assert r == rest;
        }
      }
    }
  }

  /** Two complementary filters split a dictionary: every pair lands in exactly one of them. */
  lemma {:induction false} FilterSplit<V>(m: seq<(string, V)>, p: V -> bool, q: V -> bool)
    requires forall i :: 0 <= i < |m| ==> p(m[i].1) != q(m[i].1)
    ensures |Filter(m, p)| + |Filter(m, q)| == |m|
  {
    if m != [] {
      FilterSplit(m[1..], p, q);
    }
  }

  /** Deduplicating an extended sequence keeps the deduplicated original as its beginning. */
  lemma {:induction false} DedupPrefix(a: seq<string>, b: seq<string>)
    ensures |Dedup(a)| <= |Dedup(a + b)| && Dedup(a + b)[..|Dedup(a)|] == Dedup(a)
  {
    if b == [] {
      assert a + b == a;
    } else {
      var b' := b[..|b| - 1];
      DedupPrefix(a, b');
      assert a + b == (a + b') + [b[|b| - 1]];
      assert (a + b)[..|a + b| - 1] == a + b';
    }
  }

  /** When the extension shares no key with the original, deduplication handles the two parts separately. */
  lemma {:induction false} DedupDisjoint(a: seq<string>, b: seq<string>)
    requires forall k :: k in b ==> k !in a
    ensures Dedup(a + b) == Dedup(a) + Dedup(b)
  {
    if b == [] {
      assert a + b == a;
    } else {
      var b' := b[..|b| - 1];
      var x := b[|b| - 1];
      assert x in b;
      DedupDisjoint(a, b');
      var ab := a + b';
      assert (a + b)[..|a + b| - 1] == ab && (a + b)[|a + b| - 1] == x;
      assert Dedup(a + b) == if x in Dedup(ab) then Dedup(ab) else Dedup(ab) + [x];
      assert x !in a;
      assert x in Dedup(ab) <==> x in Dedup(b');
      if x !in Dedup(b') {
        assert Dedup(a) + Dedup(b') + [x] == Dedup(a) + (Dedup(b') + [x]);
      }
    }
  }

  /** The last value for a key that the appended part binds comes from that part. */
  lemma {:induction false} LastValueAppend<V>(a: seq<(string, V)>, b: seq<(string, V)>, k: string)
    requires HasKey(b, k)
    ensures HasKey(a + b, k) && LastValue(a + b, k) == LastValue(b, k)
    decreases |b|
  {
    var ab := a + b;
    KeysAppend(a, b);
    assert HasKey(ab, k);
    assert ab[|ab| - 1] == b[|b| - 1];
    if b[|b| - 1].0 != k {
      var b' := b[..|b| - 1];
      LastValueInit(b, k);
      LastValueAppend(a, b', k);
      InitAppend(a, b);
      LastValueInit(ab, k);
    }
  }

  lemma InitAppend<T>(a: seq<T>, b: seq<T>)
    requires |b| > 0
    ensures (a + b)[..|a + b| - 1] == a + b[..|b| - 1]
  {
  }

  lemma KeysInit<V>(m: seq<(string, V)>)
    requires |m| > 0
    ensures Keys(m) == Keys(m[..|m| - 1]) + [m[|m| - 1].0]
  {
    var init := m[..|m| - 1];
    var ks := Keys(init) + [m[|m| - 1].0];
    forall i | 0 <= i < |m| ensures Keys(m)[i] == ks[i] {
      if i < |m| - 1 {
        assert ks[i] == Keys(init)[i] == init[i].0;
      }
    }
  }

  /** In a dictionary every key's last value is the one it is bound to. */
  lemma {:induction false} LastValueUnique<V>(m: seq<(string, V)>, j: nat)
    requires UniqueKeys(m) && j < |m|
    ensures HasKey(m, m[j].0) && LastValue(m, m[j].0) == m[j].1
    decreases |m|
  {
    var n := |m| - 1;
    assert Keys(m)[j] == m[j].0;
    if j < n {
      UniqueInit(m);
      assert m[..n][j] == m[j];
      assert m[n].0 != m[j].0;
      LastValueUnique(m[..n], j);
      LastValueInit(m, m[j].0);
    }
  }

  /** Past a last pair with another key, the last value of `k` is found among the pairs before it. */
  lemma LastValueInit<V>(m: seq<(string, V)>, k: string)
    requires HasKey(m, k) && m[|m| - 1].0 != k
    ensures HasKey(m[..|m| - 1], k) && LastValue(m, k) == LastValue(m[..|m| - 1], k)
  {
    KeysInit(m);
  }

  lemma KeysAppend<V>(a: seq<(string, V)>, b: seq<(string, V)>)
    ensures Keys(a + b) == Keys(a) + Keys(b)
  {
    assert forall i :: 0 <= i < |a + b| ==> Keys(a + b)[i] == (Keys(a) + Keys(b))[i];
  }

  /** A dictionary built from `a + b` lists the keys of `a` first, each once. */
  lemma FromPairsPrefix<V>(a: seq<(string, V)>, b: seq<(string, V)>)
    ensures var ka := Dedup(Keys(a));
            |ka| <= |FromPairs(a + b)| && Keys(FromPairs(a + b))[..|ka|] == ka
  {
    FromPairsKeys(a + b);
    KeysAppend(a, b);
    DedupPrefix(Keys(a), Keys(b));
  }

  /** A dictionary built from `a + b`, where `b` has no key of `a`, lists the keys of `a` and then those of `b`. */
  lemma FromPairsDisjoint<V>(a: seq<(string, V)>, b: seq<(string, V)>)
    requires forall k :: k in Keys(b) ==> k !in Keys(a)
    ensures Keys(FromPairs(a + b)) == Dedup(Keys(a)) + Dedup(Keys(b))
  {
    FromPairsKeys(a + b);
    KeysAppend(a, b);
    DedupDisjoint(Keys(a), Keys(b));
  }

  /** In a dictionary, the key at position `j` is bound to the value at position `j`. */
  lemma GetAt<V>(m: seq<(string, V)>, j: nat)
    requires UniqueKeys(m) && j < |m|
    ensures HasKey(m, m[j].0) && Position(Keys(m), m[j].0) == j && Get(m, m[j].0) == m[j].1
  {
    assert Keys(m)[j] == m[j].0;
  }

  /** Appending a pair: the keys grow by its key, and the last value of that key is its value. */
  lemma LastValueSnoc<V>(m: seq<(string, V)>, k: string, v: V, n: string)
    ensures HasKey(m + [(k, v)], n) <==> HasKey(m, n) || n == k
    ensures HasKey(m + [(k, v)], n) ==> LastValue(m + [(k, v)], n) == if n == k then v else LastValue(m, n)
  {
    KeysAppend(m, [(k, v)]);
    assert (m + [(k, v)])[..|m|] == m;
  }

  /** Inserting a new key appends its pair. */
  lemma PutNew<V>(m: seq<(string, V)>, k: string, v: V)
    requires !HasKey(m, k)
    ensures Put(m, k, v) == m + [(k, v)]
  {
  }

  /** In a dictionary, the pairs before the last form a dictionary without the last key. */
  lemma UniqueInit<V>(ps: seq<(string, V)>)
    requires UniqueKeys(ps) && |ps| > 0
    ensures UniqueKeys(ps[..|ps| - 1]) && !HasKey(ps[..|ps| - 1], ps[|ps| - 1].0)
  {
    var n := |ps| - 1;
    assert forall i :: 0 <= i < n ==> Keys(ps[..n])[i] == ps[i].0 != ps[n].0;
  }

  /** Building a dictionary from pairs whose keys are already unique gives the pairs back. */
  lemma {:induction false} FromPairsOfDictionary<V>(ps: seq<(string, V)>)
    requires UniqueKeys(ps)
    ensures FromPairs(ps) == ps
  {
    if ps != [] {
      var n := |ps| - 1;
      var init := ps[..n];
      UniqueInit(ps);
      FromPairsOfDictionary(init);
      assert FromPairs(ps) == Put(init, ps[n].0, ps[n].1);
      PutNew(init, ps[n].0, ps[n].1);
      assert init + [(ps[n].0, ps[n].1)] == ps;
    }
  }
}
