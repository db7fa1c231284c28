/** Python's built-in containers, as the repository uses them.

    A `dict` keeps its keys in insertion order and holds each key once: `d[k] = v`
    replaces the value of a key that is already present without moving it, and
    appends a key that is not. `Dict<V>` models such a dictionary as a sequence of
    pairs; `Assign` models a dictionary whose order nobody observes as a `map`
    filled by a run of assignments. */
module Collections {

  datatype Option<T> = None | Some(value: T)

  /** A value, or the message of the exception the source raises instead. */
  datatype Result<T> = Ok(value: T) | Err(message: string)

  datatype Pair<V> = Pair(key: string, val: V)

  /** An insertion-ordered `dict` with string keys. */
  type Dict<V> = seq<Pair<V>>

  function Keys<V>(d: Dict<V>): (ks: seq<string>)
    ensures |ks| == |d|
    ensures forall i :: 0 <= i < |d| ==> ks[i] == d[i].key
  {
    seq(|d|, i requires 0 <= i < |d| => d[i].key)
  }

  function KeySet<V>(d: Dict<V>): set<string>
  {
    set i | 0 <= i < |d| :: d[i].key
  }

  /** What every Python dictionary satisfies: no key occurs twice. */
  predicate UniqueKeys<V>(d: Dict<V>)
  {
    forall i, j :: 0 <= i < j < |d| ==> d[i].key != d[j].key
  }

  /** The position of the first entry with key `k`. */
  function IndexOf<V>(d: Dict<V>, k: string): (r: Option<nat>)
    ensures r.Some? ==> r.value < |d| && d[r.value].key == k
    ensures r.Some? ==> forall j :: 0 <= j < r.value ==> d[j].key != k
    ensures r.None? <==> k !in KeySet(d)
  {
    if d == [] then None
    else if d[0].key == k then Some(0)
    else
      match IndexOf(d[1..], k)
      case None =>
        assert forall j :: 1 <= j < |d| ==> d[j] == d[1..][j - 1];
        None
      case Some(j) => Some(j + 1)
  }

  /** `d.get(k)`. */
  function Get<V>(d: Dict<V>, k: string): Option<V>
  {
    match IndexOf(d, k)
    case None => None
    case Some(i) => Some(d[i].val)
  }

  /** `d[k] = v`: replaces the value of `k` in place, or appends `k` at the end. */
  function Put<V>(d: Dict<V>, k: string, v: V): (r: Dict<V>)
    ensures Get(r, k) == Some(v)
    ensures forall k' :: k' != k ==> Get(r, k') == Get(d, k')
    ensures KeySet(r) == KeySet(d) + {k}
    ensures k in KeySet(d) ==> Keys(r) == Keys(d)
    ensures k !in KeySet(d) ==> r == d + [Pair(k, v)]
    ensures UniqueKeys(d) ==> UniqueKeys(r)
    ensures forall i :: 0 <= i < |r| ==> r[i] == Pair(k, v) || r[i] in d
  {
    match IndexOf(d, k)
    case Some(i) =>
      var r := d[i := Pair(k, v)];
      ReplaceAt(d, i, k, v);
      SameKeysSameIndex(d, r);
      r
    case None =>
      var r := d + [Pair(k, v)];
      AppendKeepsIndex(d, [Pair(k, v)]);
      assert IndexOf([Pair(k, v)], k) == Some(0);
      assert IndexOf(r, k) == Some(|d|);
      r
  }

  /** Replacing the value at a key's position keeps every key where it was. */
  lemma ReplaceAt<V>(d: Dict<V>, i: nat, k: string, v: V)
    requires i < |d| && d[i].key == k
    ensures var r := d[i := Pair(k, v)];
      Keys(r) == Keys(d) && KeySet(r) == KeySet(d) && (UniqueKeys(d) ==> UniqueKeys(r)) &&
      forall j :: 0 <= j < |r| ==> r[j] == Pair(k, v) || r[j] in d
  {
    var r := d[i := Pair(k, v)];
    assert forall j :: 0 <= j < |d| ==> r[j].key == d[j].key;
  }

  /** `del d[k]`, which here also accepts a missing key. */
  function Remove<V>(d: Dict<V>, k: string): (r: Dict<V>)
    ensures KeySet(r) == KeySet(d) - {k}
    ensures Get(r, k) == None
    ensures forall k' :: k' != k ==> Get(r, k') == Get(d, k')
    ensures UniqueKeys(d) ==> UniqueKeys(r)
  {
    if d == [] then []
    else
      var rest := Remove(d[1..], k);
      SplitFirst(d);
      KeySetCons(d[0], d[1..]);
      UniqueTail(d);
      if d[0].key == k then
        assert forall k' :: k' != k ==> Get(rest, k') == Get(d, k') by {
          forall k' | k' != k ensures Get(rest, k') == Get(d, k') {
            GetTail(d, k');
          }
        }
        rest
      else
        var r := [d[0]] + rest;
        ConsFacts(d[0], rest);
        assert forall k' :: k' != d[0].key ==> Get(d[1..], k') == Get(d, k') by {
          forall k' | k' != d[0].key ensures Get(d[1..], k') == Get(d, k') {
            GetTail(d, k');
          }
        }
        r
  }

  /** A non-empty sequence is its first element followed by the rest. */
  lemma SplitFirst<T>(s: seq<T>)
    requires s != []
    ensures s == [s[0]] + s[1..]
  {
  }

  /** Unique keys stay unique without the first entry, whose key is not among
      the rest. */
  lemma UniqueTail<V>(d: Dict<V>)
    requires d != []
    ensures UniqueKeys(d) ==> UniqueKeys(d[1..]) && d[0].key !in KeySet(d[1..])
  {
    assert forall j :: 0 <= j < |d| - 1 ==> d[1..][j] == d[j + 1];
  }

  /** Putting an entry in front: its key joins the keys, the other keys are
      looked up as before, and a new key keeps the keys unique. */
  lemma ConsFacts<V>(x: Pair<V>, s: Dict<V>)
    ensures KeySet([x] + s) == {x.key} + KeySet(s)
    ensures forall k :: k != x.key ==> Get([x] + s, k) == Get(s, k)
    ensures UniqueKeys(s) && x.key !in KeySet(s) ==> UniqueKeys([x] + s)
  {
    KeySetCons(x, s);
    var r := [x] + s;
    assert r[1..] == s;
    forall k | k != x.key ensures Get(r, k) == Get(s, k) {
      GetTail(r, k);
    }
    assert forall j :: 1 <= j < |r| ==> r[j] == s[j - 1];
  }


  /** The key-to-value view of a dictionary, for properties that ignore order. */
  function AsMap<V>(d: Dict<V>): (m: map<string, V>)
    ensures m.Keys == KeySet(d)
  {
    map k | k in KeySet(d) :: Get(d, k).value
  }

  /** The dictionary left by running `m[k] = v` for each pair in turn on an empty one. */
  function Assign<K(==), V>(ps: seq<(K, V)>): (m: map<K, V>)
    ensures m.Keys == set i | 0 <= i < |ps| :: ps[i].0
  {
    if ps == [] then map[]
    else
      var init := ps[..|ps| - 1];
      var m := Assign(init)[ps[|ps| - 1].0 := ps[|ps| - 1].1];
      assert (set i | 0 <= i < |ps| :: ps[i].0) == (set i | 0 <= i < |init| :: init[i].0) + {ps[|ps| - 1].0} by {
        assert forall i :: 0 <= i < |init| ==> init[i] == ps[i];
      }
      m
  }

  predicate DistinctKeys<K(==), V>(ps: seq<(K, V)>)
  {
    forall i, j :: 0 <= i < j < |ps| ==> ps[i].0 != ps[j].0
  }

  // ----- lemmas about dictionaries -----

  lemma SameKeysSameIndex<V>(a: Dict<V>, b: Dict<V>)
    requires Keys(a) == Keys(b)
    ensures forall k :: IndexOf(a, k) == IndexOf(b, k)
  {
    forall k ensures IndexOf(a, k) == IndexOf(b, k) {
      assert forall j :: 0 <= j < |a| ==> a[j].key == b[j].key by {
        forall j | 0 <= j < |a| ensures a[j].key == b[j].key {
          assert Keys(a)[j] == Keys(b)[j];
        }
      }
      assert KeySet(a) == KeySet(b);
      var ia := IndexOf(a, k);
      if ia.Some? {
        assert b[ia.value].key == k;
        assert forall j :: 0 <= j < ia.value ==> b[j].key != k;
      }
    }
  }

  /** Appending entries never changes where an existing key is found. */
  lemma AppendKeepsIndex<V>(a: Dict<V>, b: Dict<V>)
    ensures forall k :: k in KeySet(a) ==> IndexOf(a + b, k) == IndexOf(a, k)
    ensures forall k :: k !in KeySet(a) && k in KeySet(b) ==>
      IndexOf(a + b, k).Some? && IndexOf(a + b, k).value == |a| + IndexOf(b, k).value
    ensures KeySet(a + b) == KeySet(a) + KeySet(b)
  {
    var ab := a + b;
    assert forall j :: 0 <= j < |a| ==> ab[j] == a[j];
    assert forall j :: 0 <= j < |b| ==> ab[|a| + j] == b[j];
    assert KeySet(ab) == KeySet(a) + KeySet(b) by {
      forall x | x in KeySet(ab) ensures x in KeySet(a) + KeySet(b) {
        var j :| 0 <= j < |ab| && ab[j].key == x;
        if j >= |a| { assert b[j - |a|].key == x; }
      }
    }
    forall k | k in KeySet(a) ensures IndexOf(ab, k) == IndexOf(a, k) {
      var i := IndexOf(a, k).value;
      assert ab[i].key == k;
      assert forall j :: 0 <= j < i ==> ab[j].key != k;
    }
    forall k | k !in KeySet(a) && k in KeySet(b)
      ensures IndexOf(ab, k).Some? && IndexOf(ab, k).value == |a| + IndexOf(b, k).value
    {
      var i := IndexOf(b, k).value;
      assert ab[|a| + i].key == k;
      assert forall j :: 0 <= j < |a| ==> ab[j].key != k;
      assert forall j :: |a| <= j < |a| + i ==> ab[j].key == b[j - |a|].key != k;
    }
  }

  lemma KeySetSnoc<V>(d: Dict<V>, x: Pair<V>)
    ensures KeySet(d + [x]) == KeySet(d) + {x.key}
  {
    AppendKeepsIndex(d, [x]);
    assert KeySet([x]) == {x.key} by {
      assert [x][0].key == x.key;
    }
  }

  lemma GetTail<V>(d: Dict<V>, k: string)
    requires d != [] && d[0].key != k
    ensures Get(d, k) == Get(d[1..], k)
  {
    assert forall j :: 1 <= j < |d| ==> d[j] == d[1..][j - 1];
    match IndexOf(d[1..], k)
    case None =>
    case Some(j) =>
      assert d[j + 1].key == k;
      assert forall i :: 1 <= i < j + 1 ==> d[i].key == d[1..][i - 1].key != k;
  }

  lemma KeySetCons<V>(x: Pair<V>, s: Dict<V>)
    ensures KeySet([x] + s) == {x.key} + KeySet(s)
  {
    var xs := [x] + s;
    forall y | y in KeySet(xs) ensures y in {x.key} + KeySet(s) {
      var j :| 0 <= j < |xs| && xs[j].key == y;
      if j > 0 { assert s[j - 1].key == y; }
    }
    forall y | y in KeySet(s) ensures y in KeySet(xs) {
      var j :| 0 <= j < |s| && s[j].key == y;
      assert xs[j + 1].key == y;
    }
    assert xs[0].key == x.key;
  }

  /** In a dictionary without repeated keys, each entry is what `get` finds for its key. */
  lemma GetUnique<V>(d: Dict<V>, i: nat)
    requires UniqueKeys(d) && i < |d|
    ensures Get(d, d[i].key) == Some(d[i].val)
  {
    assert forall j :: 0 <= j < i ==> d[j].key != d[i].key;
  }

  lemma GetAppendFound<V>(a: Dict<V>, b: Dict<V>, k: string)
    requires k in KeySet(a)
    ensures Get(a + b, k) == Get(a, k)
  {
    AppendKeepsIndex(a, b);
    assert (a + b)[IndexOf(a, k).value] == a[IndexOf(a, k).value];
  }

  lemma GetAppendNew<V>(a: Dict<V>, k: string, v: V)
    requires k !in KeySet(a)
    ensures Get(a + [Pair(k, v)], k) == Some(v)
  {
    AppendKeepsIndex(a, [Pair(k, v)]);
    assert IndexOf([Pair(k, v)], k) == Some(0);
  }

  lemma AsMapPut<V>(d: Dict<V>, k: string, v: V)
    ensures AsMap(Put(d, k, v)) == AsMap(d)[k := v]
  {
    var m, n := AsMap(Put(d, k, v)), AsMap(d)[k := v];
    assert m.Keys == n.Keys;
    forall k' | k' in m.Keys ensures m[k'] == n[k'] {
    }
  }

  lemma AsMapRemove<V>(d: Dict<V>, k: string)
    ensures AsMap(Remove(d, k)) == AsMap(d) - {k}
  {
  }

  /** A dictionary has as many keys as entries. */
  lemma {:induction false} KeySetSize<V>(d: Dict<V>)
    requires UniqueKeys(d)
    ensures |KeySet(d)| == |d|
  {
    if d != [] {
      var init, x := d[..|d| - 1], d[|d| - 1];
      UniqueInit(d);
      KeySetSize(init);
      SplitLast(d);
      KeySetSnoc(init, x);
    }
  }

  /** Dropping the last entry keeps the keys unique, and the last key is not
      among the others. */
  lemma UniqueInit<V>(d: Dict<V>)
    requires UniqueKeys(d) && d != []
    ensures UniqueKeys(d[..|d| - 1]) && d[|d| - 1].key !in KeySet(d[..|d| - 1])
  {
    assert forall i :: 0 <= i < |d| - 1 ==> d[..|d| - 1][i] == d[i];
  }

  lemma SubsetSameSize<T>(a: set<T>, b: set<T>)
    requires a <= b && |a| == |b|
    ensures a == b
  {
    assert a * b == a;
    assert a + b == b;
    assert |b - a| == 0;
  }

  // ----- lemmas about `Assign` -----

  /** The last assignment to a key decides its value. */
  lemma {:induction false} AssignLastWins<K, V>(ps: seq<(K, V)>, i: nat)
    requires i < |ps|
    requires forall j :: i < j < |ps| ==> ps[j].0 != ps[i].0
    ensures ps[i].0 in Assign(ps) && Assign(ps)[ps[i].0] == ps[i].1
  {
    if i < |ps| - 1 {
      var init := ps[..|ps| - 1];
      AssignLastWins(init, i);
    }
  }

  /** Running two batches of assignments is updating with the second batch's result. */
  lemma {:induction false} AssignAppend<K, V>(a: seq<(K, V)>, b: seq<(K, V)>)
    ensures Assign(a + b) == Assign(a) + Assign(b)
  {
    if b == [] {
      assert a + b == a;
    } else {
      var b' := b[..|b| - 1];
      assert (a + b)[..|a + b| - 1] == a + b';
      AssignAppend(a, b');
    }
  }

  /** Assigning one pair ahead of a batch: the batch overrides it. */
  lemma AssignCons<K, V>(acc: map<K, V>, p: (K, V), ps: seq<(K, V)>)
    ensures acc[p.0 := p.1] + Assign(ps) == acc + Assign([p] + ps)
  {
    AssignAppend([p], ps);
    assert [p][..0] == [];
    assert Assign([p]) == map[p.0 := p.1];
  }

  /** Assigning one batch after another is assigning their concatenation. */
  lemma AssignThen<K, V>(acc: map<K, V>, a: seq<(K, V)>, b: seq<(K, V)>, ab: seq<(K, V)>)
    requires ab == a + b
    ensures (acc + Assign(a)) + Assign(b) == acc + Assign(ab)
  {
    AssignAppend(a, b);
    MergeAssociative(acc, Assign(a), Assign(b));
  }

  lemma MergeIntoEmpty<K, V>(m: map<K, V>)
    ensures map[] + m == m
  {
  }

  lemma MergeUpdate<K, V>(x: map<K, V>, y: map<K, V>, k: K, v: V)
    ensures (x + y)[k := v] == x + y[k := v]
  {
  }

  lemma MergeAssociative<K, V>(x: map<K, V>, y: map<K, V>, z: map<K, V>)
    ensures (x + y) + z == x + (y + z)
  {
  }

  /** With no key assigned twice, the dictionary has one entry per assignment. */
  lemma {:induction false} AssignDistinctSize<K, V>(ps: seq<(K, V)>)
    requires DistinctKeys(ps)
    ensures |Assign(ps)| == |ps|
  {
    if ps != [] {
      var init := ps[..|ps| - 1];
      AssignDistinctSize(init);
      var k := ps[|ps| - 1].0;
      assert forall i :: 0 <= i < |init| ==> init[i].0 == ps[i].0 != k;
      assert Assign(ps).Keys == Assign(init).Keys + {k};
    }
  }

  // ----- sequence steps, stated apart so that no other fact is in scope -----

  /** Appending one element keeps the prefix and puts the element last. */
  lemma SnocParts<T>(a: seq<T>, x: T)
    ensures (a + [x])[..|a|] == a && (a + [x])[|a|] == x && |a + [x]| == |a| + 1
  {
  }

  /** The keys of a non-empty dictionary: its first key, then the keys of the rest. */
  lemma KeysTail<V>(d: Dict<V>)
    requires d != []
    ensures Keys(d)[0] == d[0].key && Keys(d)[1..] == Keys(d[1..])
  {
  }

  /** A non-empty sequence is its prefix followed by its last element. */
  lemma SplitLast<T>(s: seq<T>)
    requires s != []
    ensures s == s[..|s| - 1] + [s[|s| - 1]]
  {
  }

  /** Appending a first element and then the rest appends the whole. */
  lemma SnocRest<T>(d: seq<T>, a: seq<T>)
    requires a != []
    ensures d + [a[0]] + a[1..] == d + a
  {
    assert a == [a[0]] + a[1..];
  }
}
