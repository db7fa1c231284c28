/** The variable taxonomy of a public-libraries survey year.

    A `Variables` object is a dictionary of attributes whose values are either a
    leaf, mapping a column's short code to its long name, or a nested `Variables`
    object, a named category of columns. */
module PlsVariables {
  import opened Collections

  datatype Child = Leaf(name: string) | Sub(tree: Dict<Child>)

  /** The attribute dictionary of one `Variables` object, in insertion order. */
  type Tree = Dict<Child>

  /** No category holds the same key twice, at any depth. */
  predicate WellFormed(t: Tree)
    decreases t
  {
    UniqueKeys(t) && forall i :: 0 <= i < |t| ==> ChildWellFormed(t[i].val)
  }

  predicate ChildWellFormed(c: Child)
    decreases c
  {
    c.Sub? ==> WellFormed(c.tree)
  }

  lemma WellFormedPut(t: Tree, k: string, c: Child)
    requires WellFormed(t) && ChildWellFormed(c)
    ensures WellFormed(Put(t, k, c))
  {
  }

  lemma WellFormedInit(t: Tree)
    requires WellFormed(t) && t != []
    ensures WellFormed(t[..|t| - 1]) && ChildWellFormed(t[|t| - 1].val)
    ensures t[|t| - 1].key !in KeySet(t[..|t| - 1])
  {
  }

  // ----- nested dictionaries: `to_dict()` and `from_dict` -----

  /** A value of the nested dictionaries `to_dict()` returns and `from_dict` reads. */
  datatype Value = Str(s: string) | Nested(dict: Dict<Value>)

  /** `to_dict()`: the nested dictionary with the same keys, in the same order. */
  function ToDict(t: Tree): (d: Dict<Value>)
    ensures KeySet(d) == KeySet(t)
    decreases t
  {
    if t == [] then []
    else
      var init, e := t[..|t| - 1], t[|t| - 1];
      KeySetSnoc(init, e);
      assert t == init + [e];
      Put(ToDict(init), e.key, ValueOf(e.val))
  }

  function ValueOf(c: Child): Value
    decreases c
  {
    match c
    case Leaf(s) => Str(s)
    case Sub(s) => Nested(ToDict(s))
  }

  /** `from_dict(d)`: the tree that runs `variables[k] = v` for each item of `d`,
      turning every nested dictionary into a nested `Variables`. */
  function TreeOf(d: Dict<Value>): (t: Tree)
    ensures WellFormed(t)
    decreases d
  {
    if d == [] then []
    else
      var t := Put(TreeOf(d[..|d| - 1]), d[|d| - 1].key, ChildOf(d[|d| - 1].val));
      WellFormedPut(TreeOf(d[..|d| - 1]), d[|d| - 1].key, ChildOf(d[|d| - 1].val));
      t
  }

  function ChildOf(v: Value): (c: Child)
    ensures ChildWellFormed(c)
    decreases v
  {
    match v
    case Str(s) => Leaf(s)
    case Nested(d) => Sub(TreeOf(d))
  }

  /** `from_dict(t.to_dict())` rebuilds the very same tree. */
  lemma {:induction false} FromDictToDict(t: Tree)
    requires WellFormed(t)
    ensures TreeOf(ToDict(t)) == t
    decreases t
  {
    if t != [] {
      var init, e := t[..|t| - 1], t[|t| - 1];
      WellFormedInit(t);
      FromDictToDict(init);
      ChildFromDictToDict(e.val);
      var di, x := ToDict(init), Pair(e.key, ValueOf(e.val));
      assert ToDict(t) == di + [x];
      SnocParts(di, x);
      assert TreeOf(di + [x]) == Put(init, e.key, e.val);
      SplitLast(t);
    }
  }

  lemma {:induction false} ChildFromDictToDict(c: Child)
    requires ChildWellFormed(c)
    ensures ChildOf(ValueOf(c)) == c
    decreases c
  {
    if c.Sub? {
      FromDictToDict(c.tree);
    }
  }

  // ----- the leaves of a tree -----

  /** A leaf of the taxonomy: the keys of the categories above it, its short code
      and its long name. */
  datatype LeafRef = LeafRef(path: seq<string>, code: string, name: string)

  /** The leaves under `t`, in the order the source's loops visit them, for a tree
      that sits below the categories `path`. */
  function Leaves(t: Tree, path: seq<string>): (ls: seq<LeafRef>)
    ensures forall l :: l in ls ==> path <= l.path
    decreases t
  {
    if t == [] then [] else Leaves(t[..|t| - 1], path) + EntryLeaves(t[|t| - 1], path)
  }

  function EntryLeaves(e: Pair<Child>, path: seq<string>): (ls: seq<LeafRef>)
    ensures forall l :: l in ls ==> path <= l.path
    decreases e
  {
    match e.val
    case Leaf(s) => [LeafRef(path, e.key, s)]
    case Sub(s) =>
      var ls := Leaves(s, path + [e.key]);
      assert forall l :: l in ls ==> path <= path + [e.key] <= l.path;
      ls
  }

  lemma LeavesSnoc(t: Tree, e: Pair<Child>, path: seq<string>)
    ensures Leaves(t + [e], path) == Leaves(t, path) + EntryLeaves(e, path)
  {
    assert (t + [e])[..|t|] == t;
  }

  /** The keys of the categories on a path, each followed by `_`. */
  function PathPrefix(path: seq<string>): string
  {
    if path == [] then "" else PathPrefix(path[..|path| - 1]) + path[|path| - 1] + "_"
  }

  lemma PathPrefixSnoc(path: seq<string>, k: string)
    ensures PathPrefix(path + [k]) == PathPrefix(path) + k + "_"
  {
    assert (path + [k])[..|path|] == path;
  }

  // ----- `to_dict(flatten=True)` -----

  /** `__to_flat_dict(key_prefix)`. */
  function FlatDict(t: Tree, prefix: string): map<string, string>
    decreases t
  {
    if t == [] then map[] else FlatDict(t[..|t| - 1], prefix) + FlatEntry(t[|t| - 1], prefix)
  }

  function FlatEntry(e: Pair<Child>, prefix: string): map<string, string>
    decreases e
  {
    match e.val
    case Leaf(s) => map[prefix + e.key := s]
    case Sub(s) => FlatDict(s, prefix + e.key + "_")
  }

  /** The key `to_dict(flatten=True)` gives a leaf. */
  function FlatKey(l: LeafRef, prefix: string): string
  {
    prefix + PathPrefix(l.path) + l.code
  }

  function FlatPairs(ls: seq<LeafRef>, prefix: string): (ps: seq<(string, string)>)
    ensures |ps| == |ls|
    ensures forall i :: 0 <= i < |ls| ==> ps[i] == (FlatKey(ls[i], prefix), ls[i].name)
  {
    seq(|ls|, i requires 0 <= i < |ls| => (FlatKey(ls[i], prefix), ls[i].name))
  }

  lemma FlatPairsAppend(a: seq<LeafRef>, b: seq<LeafRef>, prefix: string)
    ensures FlatPairs(a + b, prefix) == FlatPairs(a, prefix) + FlatPairs(b, prefix)
  {
  }

  /** `__to_flat_dict` assigns, leaf by leaf in visiting order, the leaf's long
      name to the key made of the prefix, the category path and the short code. */
  lemma {:induction false} FlatDictIsLeafAssignments(t: Tree, prefix: string, path: seq<string>)
    ensures FlatDict(t, prefix + PathPrefix(path)) == Assign(FlatPairs(Leaves(t, path), prefix))
    decreases t
  {
    if t != [] {
      var init, e := t[..|t| - 1], t[|t| - 1];
      FlatDictIsLeafAssignments(init, prefix, path);
      FlatEntryIsLeafAssignments(e, prefix, path);
      FlatPairsAppend(Leaves(init, path), EntryLeaves(e, path), prefix);
      AssignAppend(FlatPairs(Leaves(init, path), prefix), FlatPairs(EntryLeaves(e, path), prefix));
    }
  }

  lemma {:induction false} FlatEntryIsLeafAssignments(e: Pair<Child>, prefix: string, path: seq<string>)
    ensures FlatEntry(e, prefix + PathPrefix(path)) == Assign(FlatPairs(EntryLeaves(e, path), prefix))
    decreases e
  {
    match e.val
    case Leaf(s) =>
      var ps := FlatPairs(EntryLeaves(e, path), prefix);
      assert ps == [(prefix + PathPrefix(path) + e.key, s)];
      assert ps[..0] == [];
    case Sub(s) =>
      FlatDictIsLeafAssignments(s, prefix, path + [e.key]);
      PathPrefixSnoc(path, e.key);
      assert prefix + PathPrefix(path + [e.key]) == prefix + PathPrefix(path) + e.key + "_";
  }

  lemma FlatDictAtTop(t: Tree)
    ensures FlatDict(t, "") == Assign(FlatPairs(Leaves(t, []), ""))
    ensures forall l: LeafRef :: FlatKey(l, "") == PathPrefix(l.path) + l.code
  {
    FlatDictIsLeafAssignments(t, "", []);
    assert "" + PathPrefix([]) == "";
  }

  /** The flat dictionary has exactly one key per leaf path: the ancestor keys
      each followed by `_`, then the leaf's code. */
  lemma FlatDictKeys(t: Tree)
    ensures FlatDict(t, "").Keys == set l | l in Leaves(t, []) :: PathPrefix(l.path) + l.code
  {
    FlatDictAtTop(t);
    FlatPairsKeys(Leaves(t, []));
  }

  /** The first components of the top-level pairs are the leaves' flat keys. */
  lemma FlatPairsKeys(ls: seq<LeafRef>)
    ensures (set i | 0 <= i < |FlatPairs(ls, "")| :: FlatPairs(ls, "")[i].0)
         == set l | l in ls :: PathPrefix(l.path) + l.code
  {
    FlatDictAtTop([]);
    var ps := FlatPairs(ls, "");
    var byIndex := set i | 0 <= i < |ps| :: ps[i].0;
    var byLeaf := set l | l in ls :: PathPrefix(l.path) + l.code;
    forall x | x in byLeaf ensures x in byIndex {
      var l :| l in ls && x == PathPrefix(l.path) + l.code;
      var i :| 0 <= i < |ls| && ls[i] == l;
      assert ps[i].0 == x;
    }
    forall x | x in byIndex ensures x in byLeaf {
      var i :| 0 <= i < |ps| && ps[i].0 == x;
      assert ls[i] in ls;
    }
  }

  /** Each leaf's long name is kept unchanged under its flat key, unless a leaf
      visited later has the same flat key. */
  lemma FlatDictLeafValue(t: Tree, i: nat)
    requires i < |Leaves(t, [])|
    requires forall j :: i < j < |Leaves(t, [])| ==>
      FlatKey(Leaves(t, [])[j], "") != FlatKey(Leaves(t, [])[i], "")
    ensures var l := Leaves(t, [])[i];
      PathPrefix(l.path) + l.code in FlatDict(t, "") &&
      FlatDict(t, "")[PathPrefix(l.path) + l.code] == l.name
  {
    FlatDictAtTop(t);
    var ls := Leaves(t, []);
    var ps := FlatPairs(ls, "");
    assert forall j :: i < j < |ps| ==> ps[j].0 != ps[i].0;
    AssignLastWins(ps, i);
  }

  /** With no two leaf paths flattening to the same key, there are as many flat
      entries as leaves. */
  lemma FlatDictSize(t: Tree)
    requires forall i, j :: 0 <= i < j < |Leaves(t, [])| ==>
      FlatKey(Leaves(t, [])[i], "") != FlatKey(Leaves(t, [])[j], "")
    ensures |FlatDict(t, "")| == |Leaves(t, [])|
  {
    FlatDictAtTop(t);
    var ps := FlatPairs(Leaves(t, []), "");
    assert DistinctKeys(ps);
    AssignDistinctSize(ps);
  }

  // ----- `flatten(val_prefix)` -----

  /** `flatten(val_prefix)`. */
  function Flatten(t: Tree, prefix: string): map<string, string>
    decreases t
  {
    if t == [] then map[] else Flatten(t[..|t| - 1], prefix) + FlattenEntry(t[|t| - 1], prefix)
  }

  function FlattenEntry(e: Pair<Child>, prefix: string): map<string, string>
    decreases e
  {
    match e.val
    case Leaf(v) => map[e.key := if e.key == v then e.key else prefix + v]
    case Sub(s) => Flatten(s, prefix + e.key + "_")
  }

  /** The renamed column of a leaf: its code when it was never renamed, otherwise
      the prefix, the category path and the long name. */
  function FlatValue(l: LeafRef, prefix: string): string
  {
    if l.code == l.name then l.code else prefix + PathPrefix(l.path) + l.name
  }

  function FlattenPairs(ls: seq<LeafRef>, prefix: string): (ps: seq<(string, string)>)
    ensures |ps| == |ls|
    ensures forall i :: 0 <= i < |ls| ==> ps[i] == (ls[i].code, FlatValue(ls[i], prefix))
  {
    seq(|ls|, i requires 0 <= i < |ls| => (ls[i].code, FlatValue(ls[i], prefix)))
  }

  lemma FlattenPairsAppend(a: seq<LeafRef>, b: seq<LeafRef>, prefix: string)
    ensures FlattenPairs(a + b, prefix) == FlattenPairs(a, prefix) + FlattenPairs(b, prefix)
  {
  }

  /** `flatten` assigns, leaf by leaf in visiting order, the leaf's renamed column
      to its bare code. */
  lemma {:induction false} FlattenIsLeafAssignments(t: Tree, prefix: string, path: seq<string>)
    ensures Flatten(t, prefix + PathPrefix(path)) == Assign(FlattenPairs(Leaves(t, path), prefix))
    decreases t
  {
    if t != [] {
      var init, e := t[..|t| - 1], t[|t| - 1];
      FlattenIsLeafAssignments(init, prefix, path);
      FlattenEntryIsLeafAssignments(e, prefix, path);
      FlattenPairsAppend(Leaves(init, path), EntryLeaves(e, path), prefix);
      AssignAppend(FlattenPairs(Leaves(init, path), prefix), FlattenPairs(EntryLeaves(e, path), prefix));
    }
  }

  lemma {:induction false} FlattenEntryIsLeafAssignments(e: Pair<Child>, prefix: string, path: seq<string>)
    ensures FlattenEntry(e, prefix + PathPrefix(path)) == Assign(FlattenPairs(EntryLeaves(e, path), prefix))
    decreases e
  {
    match e.val
    case Leaf(v) =>
      var ps := FlattenPairs(EntryLeaves(e, path), prefix);
      assert ps == [(e.key, FlatValue(LeafRef(path, e.key, v), prefix))];
      assert ps[..0] == [];
    case Sub(s) =>
      FlattenIsLeafAssignments(s, prefix, path + [e.key]);
      PathPrefixSnoc(path, e.key);
      assert prefix + PathPrefix(path + [e.key]) == prefix + PathPrefix(path) + e.key + "_";
  }

  lemma FlattenAtTop(t: Tree, prefix: string)
    ensures Flatten(t, prefix) == Assign(FlattenPairs(Leaves(t, []), prefix))
  {
    FlattenIsLeafAssignments(t, prefix, []);
    assert prefix + PathPrefix([]) == prefix;
  }

  /** The keys of `flatten()` are exactly the short codes of the leaves at any
      depth, never prefixed. */
  lemma FlattenKeys(t: Tree, prefix: string)
    ensures Flatten(t, prefix).Keys == set l | l in Leaves(t, []) :: l.code
  {
    FlattenAtTop(t, prefix);
    var ls := Leaves(t, []);
    var ps := FlattenPairs(ls, prefix);
    var byIndex := set i | 0 <= i < |ps| :: ps[i].0;
    var byLeaf := set l | l in ls :: l.code;
    forall x | x in byLeaf ensures x in byIndex {
      var l :| l in ls && x == l.code;
      var i :| 0 <= i < |ls| && ls[i] == l;
      assert ps[i].0 == x;
    }
    forall x | x in byIndex ensures x in byLeaf {
      var i :| 0 <= i < |ps| && ps[i].0 == x;
      assert ls[i] in ls;
    }
  }

  /** A leaf's code maps to its renamed column, unless a leaf visited later has
      the same code (the later one wins, as `dict.update` does). */
  lemma FlattenLeafValue(t: Tree, prefix: string, i: nat)
    requires i < |Leaves(t, [])|
    requires forall j :: i < j < |Leaves(t, [])| ==> Leaves(t, [])[j].code != Leaves(t, [])[i].code
    ensures var l := Leaves(t, [])[i];
      l.code in Flatten(t, prefix) && Flatten(t, prefix)[l.code] == FlatValue(l, prefix)
  {
    FlattenAtTop(t, prefix);
    AssignLastWins(FlattenPairs(Leaves(t, []), prefix), i);
  }

  /** No short code occurs twice anywhere in the tree. */
  predicate DistinctCodes(t: Tree)
  {
    forall i, j :: 0 <= i < j < |Leaves(t, [])| ==> Leaves(t, [])[i].code != Leaves(t, [])[j].code
  }

  /** With distinct codes, `flatten()` has one entry per leaf. */
  lemma FlattenSize(t: Tree, prefix: string)
    requires DistinctCodes(t)
    ensures |Flatten(t, prefix)| == |Leaves(t, [])|
  {
    FlattenAtTop(t, prefix);
    AssignDistinctSize(FlattenPairs(Leaves(t, []), prefix));
  }

  /** The example of `flatten`'s documentation: two renamed codes two categories
      deep. */
  lemma FlattenDocExample()
    ensures Flatten([Pair("First", Sub([Pair("Second", Sub([Pair("CODE_1", Leaf("Value1")),
                                                               Pair("CODE_2", Leaf("Value2"))]))]))], "")
         == map["CODE_1" := "First_Second_Value1", "CODE_2" := "First_Second_Value2"]
  {
    var p := "First_Second_";
    var e1, e2 := Pair("CODE_1", Leaf("Value1")), Pair("CODE_2", Leaf("Value2"));
    var inner: Tree := [e1, e2];
    var mid: Tree := [Pair("Second", Sub(inner))];
    var t: Tree := [Pair("First", Sub(mid))];
    assert "" + "First" + "_" == "First_";
    assert "First_" + "Second" + "_" == p;
    assert "CODE_1"[0] != "Value1"[0] && "CODE_2"[0] != "Value2"[0];
    assert p + "Value1" == "First_Second_Value1" && p + "Value2" == "First_Second_Value2";
    assert FlattenEntry(e1, p) == map["CODE_1" := "First_Second_Value1"];
    assert FlattenEntry(e2, p) == map["CODE_2" := "First_Second_Value2"];
    assert inner[..1] == [e1] && [e1][..0] == [];
    assert Flatten([e1], p) == map["CODE_1" := "First_Second_Value1"];
    assert Flatten(inner, p) == map["CODE_1" := "First_Second_Value1", "CODE_2" := "First_Second_Value2"];
    assert mid[..0] == [];
    assert Flatten(mid, "First_") == Flatten(inner, p);
    assert t[..0] == [];
  }

  // ----- `invert(val_prefix)` -----

  /** The key a child has in the inverted tree: a leaf's long name, or the
      category's own key. */
  function OutKey(e: Pair<Child>): string
  {
    if e.val.Leaf? then e.val.name else e.key
  }

  /** The entry `invert` stores for one child. */
  function InvertedEntry(e: Pair<Child>, prefix: string): Pair<Child>
    decreases e, 0
  {
    match e.val
    case Leaf(v) => Pair(v, Leaf(if e.key == v then e.key else prefix + v))
    case Sub(s) => Pair(e.key, Sub(Invert(s, prefix + e.key + "_")))
  }

  /** `invert(val_prefix)`: `inverted[k'] = v'` for each child in turn, with the
      key and value of `InvertedEntry`. */
  function Invert(t: Tree, prefix: string): (r: Tree)
    ensures WellFormed(r)
    ensures KeySet(r) == set i | 0 <= i < |t| :: OutKey(t[i])
    decreases t, 1
  {
    if t == [] then []
    else
      var init, e := t[..|t| - 1], t[|t| - 1];
      var acc := Invert(init, prefix);
      var x := InvertedEntry(e, prefix);
      assert x.key == OutKey(e);
      assert ChildWellFormed(x.val);
      WellFormedPut(acc, x.key, x.val);
      SplitLast(t);
      OutKeysSnoc(t, init, e);
      Put(acc, x.key, x.val)
  }

  /** The inverted keys of a tree are those of all but its last child, plus the
      last one's. */
  lemma OutKeysSnoc(t: Tree, init: Tree, e: Pair<Child>)
    requires t == init + [e]
    ensures (set i | 0 <= i < |t| :: OutKey(t[i]))
         == (set i | 0 <= i < |init| :: OutKey(init[i])) + {OutKey(e)}
  {
    var left, right := set i | 0 <= i < |t| :: OutKey(t[i]), set i | 0 <= i < |init| :: OutKey(init[i]);
    forall k | k in left ensures k in right + {OutKey(e)} {
      var i :| 0 <= i < |t| && OutKey(t[i]) == k;
      if i < |init| {
        assert t[i] == init[i];
      }
    }
    forall k | k in right ensures k in left {
      var i :| 0 <= i < |init| && OutKey(init[i]) == k;
      assert t[i] == init[i];
    }
    assert t[|init|] == e;
  }

  /** Every leaf of the tree maps its code to itself: nothing was renamed. */
  predicate SelfNamed(t: Tree)
    decreases t
  {
    forall i :: 0 <= i < |t| ==> ChildSelfNamed(t[i])
  }

  predicate ChildSelfNamed(e: Pair<Child>)
    decreases e
  {
    match e.val
    case Leaf(v) => v == e.key
    case Sub(s) => SelfNamed(s)
  }

  /** Inverting a tree in which nothing was renamed gives the same tree back. */
  lemma {:induction false} InvertSelfNamed(t: Tree, prefix: string)
    requires WellFormed(t) && SelfNamed(t)
    ensures Invert(t, prefix) == t
    decreases t
  {
    if t != [] {
      var init, e := t[..|t| - 1], t[|t| - 1];
      WellFormedInit(t);
      SelfNamedInit(t);
      InvertSelfNamed(init, prefix);
      if e.val.Sub? {
        InvertSelfNamed(e.val.tree, prefix + e.key + "_");
      }
      assert InvertedEntry(e, prefix) == e;
      assert Invert(t, prefix) == Put(init, e.key, e.val);
      SplitLast(t);
    }
  }

  lemma SelfNamedInit(t: Tree)
    requires SelfNamed(t) && t != []
    ensures SelfNamed(t[..|t| - 1]) && ChildSelfNamed(t[|t| - 1])
  {
    assert forall i :: 0 <= i < |t| - 1 ==> t[..|t| - 1][i] == t[i];
  }

  /** Inverting never gives two children of one category the same key: no two
      leaves share a long name, no leaf's long name is a sibling category's key,
      no two sibling categories share a key, at any depth. */
  predicate Invertible(t: Tree)
    decreases t
  {
    (forall i, j :: 0 <= i < j < |t| ==> OutKey(t[i]) != OutKey(t[j])) &&
    forall i :: 0 <= i < |t| ==> ChildInvertible(t[i].val)
  }

  predicate ChildInvertible(c: Child)
    decreases c
  {
    c.Sub? ==> Invertible(c.tree)
  }

  /** A leaf as it reappears in the inverted tree: same place, keyed by its long
      name, holding its renamed column. */
  function Swapped(ls: seq<LeafRef>, prefix: string): (r: seq<LeafRef>)
    ensures |r| == |ls|
    ensures forall i :: 0 <= i < |ls| ==> r[i] == LeafRef(ls[i].path, ls[i].name, FlatValue(ls[i], prefix))
  {
    seq(|ls|, i requires 0 <= i < |ls| => LeafRef(ls[i].path, ls[i].name, FlatValue(ls[i], prefix)))
  }

  lemma SwappedAppend(a: seq<LeafRef>, b: seq<LeafRef>, prefix: string)
    ensures Swapped(a + b, prefix) == Swapped(a, prefix) + Swapped(b, prefix)
  {
  }

  /** With the last child's new key not yet taken, inverting appends its entry. */
  lemma InvertSnoc(t: Tree, prefix: string)
    requires t != []
    requires forall i :: 0 <= i < |t| - 1 ==> OutKey(t[i]) != OutKey(t[|t| - 1])
    ensures Invert(t, prefix) == Invert(t[..|t| - 1], prefix) + [InvertedEntry(t[|t| - 1], prefix)]
  {
    var init, e := t[..|t| - 1], t[|t| - 1];
    assert InvertedEntry(e, prefix).key !in KeySet(Invert(init, prefix)) by {
      assert forall i :: 0 <= i < |init| ==> OutKey(init[i]) == OutKey(t[i]);
    }
  }

  /** When inverting keeps all keys apart, the inverted tree has the same leaves
      in the same order and at the same category paths, each keyed by its long
      name and holding its renamed column. */
  lemma {:induction false} InvertLeaves(t: Tree, prefix: string, path: seq<string>)
    requires Invertible(t)
    ensures Leaves(Invert(t, prefix + PathPrefix(path)), path) == Swapped(Leaves(t, path), prefix)
    decreases t, 1
  {
    if t != [] {
      var init, e := t[..|t| - 1], t[|t| - 1];
      var p := prefix + PathPrefix(path);
      assert Invertible(init) && ChildInvertible(e.val) by {
        assert forall i :: 0 <= i < |init| ==> init[i] == t[i];
      }
      InvertLeaves(init, prefix, path);
      InvertSnoc(t, p);
      LeavesSnoc(Invert(init, p), InvertedEntry(e, p), path);
      SwappedAppend(Leaves(init, path), EntryLeaves(e, path), prefix);
      InvertEntryLeaves(e, prefix, path);
    }
  }

  lemma {:induction false} InvertEntryLeaves(e: Pair<Child>, prefix: string, path: seq<string>)
    requires ChildInvertible(e.val)
    ensures EntryLeaves(InvertedEntry(e, prefix + PathPrefix(path)), path) == Swapped(EntryLeaves(e, path), prefix)
    decreases e, 0
  {
    var p := prefix + PathPrefix(path);
    match e.val
    case Leaf(v) =>
      var l := LeafRef(path, e.key, v);
      assert EntryLeaves(e, path) == [l];
      assert EntryLeaves(InvertedEntry(e, p), path) == [LeafRef(path, v, FlatValue(l, prefix))];
    case Sub(s) =>
      var q := p + e.key + "_";
      PathPrefixSnoc(path, e.key);
      assert prefix + PathPrefix(path + [e.key]) == q;
      InvertLeaves(s, prefix, path + [e.key]);
      assert InvertedEntry(e, p) == Pair(e.key, Sub(Invert(s, q)));
      assert EntryLeaves(InvertedEntry(e, p), path) == Leaves(Invert(s, q), path + [e.key]);
  }

  /** Inverting keeps the number of leaves. */
  lemma InvertLeafCount(t: Tree, prefix: string)
    requires Invertible(t)
    ensures |Leaves(Invert(t, prefix), [])| == |Leaves(t, [])|
  {
    InvertLeaves(t, prefix, []);
    assert prefix + PathPrefix([]) == prefix;
  }

  /** `flatten` and `invert` agree: with no code repeated and nothing clashing in
      the inverted tree, every leaf reappears in `invert()` at the same category
      path, under its long name, holding exactly what `flatten()` maps its code
      to. */
  lemma FlattenAgreesWithInvert(t: Tree, prefix: string)
    requires Invertible(t) && DistinctCodes(t)
    ensures var ls, inv := Leaves(t, []), Leaves(Invert(t, prefix), []);
      |inv| == |ls| &&
      forall i :: 0 <= i < |ls| ==>
        ls[i].code in Flatten(t, prefix) &&
        inv[i] == LeafRef(ls[i].path, ls[i].name, Flatten(t, prefix)[ls[i].code])
  {
    var ls := Leaves(t, []);
    InvertLeaves(t, prefix, []);
    assert prefix + PathPrefix([]) == prefix;
    forall i | 0 <= i < |ls|
      ensures ls[i].code in Flatten(t, prefix) && Flatten(t, prefix)[ls[i].code] == FlatValue(ls[i], prefix)
    {
      FlattenLeafValue(t, prefix, i);
    }
  }

  // ----- `__eq__` -----

  /** `a == b` for two `Variables`: as many attributes, and every attribute of
      `a` present in `b` with an equal value. */
  function Equal(a: Tree, b: Tree): bool
    decreases a
  {
    |b| == |a| && forall i :: 0 <= i < |a| ==> EntryMatches(a[i], b)
  }

  function EntryMatches(e: Pair<Child>, b: Tree): bool
    decreases e
  {
    match Get(b, e.key)
    case None => false
    case Some(c) => ChildEqual(e.val, c)
  }

  /** `v != getattr(o, k, None)` negated: two long names compare as strings, a
      string never equals a `Variables`. */
  function ChildEqual(x: Child, y: Child): bool
    decreases x
  {
    match x
    case Leaf(s) => y == Leaf(s)
    case Sub(s) => y.Sub? && Equal(s, y.tree)
  }

  /** The right operand of `==`: another `Variables` or any other value. */
  datatype Operand = VariablesValue(tree: Tree) | OtherValue

  /** `__eq__`: a `Variables` equals only another `Variables` with as many
      attributes and with every attribute of its own among them. */
  function Eq(self: Tree, o: Operand): (r: bool)
    ensures r ==> o.VariablesValue? && |o.tree| == |self| && KeySet(self) <= KeySet(o.tree)
  {
    match o
    case OtherValue => false
    case VariablesValue(t) =>
      var r := Equal(self, t);
      assert r ==> KeySet(self) <= KeySet(t) by {
        if r {
          forall k | k in KeySet(self) ensures k in KeySet(t) {
            var i :| 0 <= i < |self| && self[i].key == k;
            assert EntryMatches(self[i], t);
          }
        }
      }
      r
  }

  lemma {:induction false} EqualReflexive(t: Tree)
    requires WellFormed(t)
    ensures Equal(t, t)
    decreases t
  {
    forall i | 0 <= i < |t| ensures EntryMatches(t[i], t) {
      GetUnique(t, i);
      ChildEqualReflexive(t[i].val);
    }
  }

  lemma {:induction false} ChildEqualReflexive(c: Child)
    requires ChildWellFormed(c)
    ensures ChildEqual(c, c)
    decreases c
  {
    if c.Sub? {
      EqualReflexive(c.tree);
    }
  }

  /** Equality is symmetric. */
  lemma {:induction false} EqualSymmetric(a: Tree, b: Tree)
    requires WellFormed(a) && WellFormed(b) && Equal(a, b)
    ensures Equal(b, a)
    decreases a
  {
    assert KeySet(a) <= KeySet(b) by {
      forall k | k in KeySet(a) ensures k in KeySet(b) {
        var i :| 0 <= i < |a| && a[i].key == k;
        assert EntryMatches(a[i], b);
      }
    }
    KeySetSize(a);
    KeySetSize(b);
    SubsetSameSize(KeySet(a), KeySet(b));
    forall j | 0 <= j < |b| ensures EntryMatches(b[j], a) {
      assert b[j].key in KeySet(a);
      var i :| 0 <= i < |a| && a[i].key == b[j].key;
      GetUnique(a, i);
      GetUnique(b, j);
      assert EntryMatches(a[i], b);
      ChildEqualSymmetric(a[i].val, b[j].val);
    }
  }

  lemma {:induction false} ChildEqualSymmetric(x: Child, y: Child)
    requires ChildWellFormed(x) && ChildWellFormed(y) && ChildEqual(x, y)
    ensures ChildEqual(y, x)
    decreases x
  {
    if x.Sub? {
      EqualSymmetric(x.tree, y.tree);
    }
  }

  /** Equality ignores the order of attributes. */
  lemma EqualIgnoresOrder(a: Tree, b: Tree)
    requires WellFormed(a) && WellFormed(b) && multiset(a) == multiset(b)
    ensures Equal(a, b)
  {
    assert |a| == |multiset(a)| == |multiset(b)| == |b|;
    forall i | 0 <= i < |a| ensures EntryMatches(a[i], b) {
      assert a[i] in multiset(b);
      var j :| 0 <= j < |b| && b[j] == a[i];
      GetUnique(b, j);
      ChildEqualReflexive(a[i].val);
    }
  }

  /** Equality is transitive. */
  lemma {:induction false} EqualTransitive(a: Tree, b: Tree, c: Tree)
    requires WellFormed(a) && WellFormed(b) && WellFormed(c)
    requires Equal(a, b) && Equal(b, c)
    ensures Equal(a, c)
    decreases a
  {
    forall i | 0 <= i < |a| ensures EntryMatches(a[i], c) {
      assert EntryMatches(a[i], b);
      var j := IndexOf(b, a[i].key).value;
      assert EntryMatches(b[j], c);
      ChildEqualTransitive(a[i].val, b[j].val, Get(c, a[i].key).value);
    }
  }

  lemma {:induction false} ChildEqualTransitive(x: Child, y: Child, z: Child)
    requires ChildWellFormed(x) && ChildWellFormed(y) && ChildWellFormed(z)
    requires ChildEqual(x, y) && ChildEqual(y, z)
    ensures ChildEqual(x, z)
    decreases x
  {
    if x.Sub? {
      EqualTransitive(x.tree, y.tree, z.tree);
    }
  }

  /** Replacing one attribute's value by an equal value gives an equal tree. */
  lemma EqualReplaceChild(t: Tree, i: nat, c: Child)
    requires WellFormed(t) && i < |t| && ChildWellFormed(c) && ChildEqual(t[i].val, c)
    ensures Equal(t, t[i := Pair(t[i].key, c)])
  {
    var u := t[i := Pair(t[i].key, c)];
    ReplaceAt(t, i, t[i].key, c);
    forall j | 0 <= j < |t| ensures EntryMatches(t[j], u) {
      GetUnique(u, j);
      if j != i {
        ChildEqualReflexive(t[j].val);
      }
    }
  }

  /** Equality ignores the order of attributes inside a nested category too. */
  lemma EqualPermutedSub(t: Tree, i: nat, s: Tree)
    requires WellFormed(t) && i < |t| && t[i].val.Sub?
    requires WellFormed(s) && multiset(s) == multiset(t[i].val.tree)
    ensures Equal(t, t[i := Pair(t[i].key, Sub(s))])
  {
    EqualIgnoresOrder(t[i].val.tree, s);
    EqualReplaceChild(t, i, Sub(s));
  }

  /** `from_dict(v.to_dict()) == v`. */
  lemma FromDictToDictEqual(t: Tree)
    requires WellFormed(t)
    ensures Eq(TreeOf(ToDict(t)), VariablesValue(t))
  {
    FromDictToDict(t);
    EqualReflexive(t);
  }

  /** `v.invert() == v` when nothing in `v` was renamed. */
  lemma InvertSelfNamedEqual(t: Tree)
    requires WellFormed(t) && SelfNamed(t)
    ensures Eq(Invert(t, ""), VariablesValue(t))
  {
    InvertSelfNamed(t, "");
    EqualReflexive(t);
  }

  // ----- the object itself -----

  /** A `Variables` object; its attribute dictionary is updated in place. */
  class Variables {
    var entries: Tree

    ghost predicate Valid()
      reads this
    {
      WellFormed(entries)
    }

    /** `Variables(**kwargs)`: the keyword arguments, in order, become the
        attributes. */
    constructor (kwargs: Tree)
      requires WellFormed(kwargs)
      ensures entries == kwargs && Valid()
    {
      entries := kwargs;
    }

    /** `self[k] = v`: replaces the attribute `k` in place, or adds it last. */
    method SetItem(k: string, v: Child)
      requires Valid() && ChildWellFormed(v)
      modifies this
      ensures entries == Put(old(entries), k, v) && Valid()
    {
      WellFormedPut(entries, k, v);
      entries := Put(entries, k, v);
    }

    /** `Variables.from_dict(d)`. */
    static method FromDict(d: Dict<Value>) returns (v: Variables)
      ensures fresh(v) && v.Valid() && v.entries == TreeOf(d)
      decreases Nested(d)
    {
      v := new Variables([]);
      for i := 0 to |d|
        invariant fresh(v) && v.Valid() && v.entries == TreeOf(d[..i])
      {
        var item := d[i];
        assert d[..i + 1][..i] == d[..i];
        match item.val {
          case Str(s) =>
            v.SetItem(item.key, Leaf(s));
          case Nested(sub) =>
            var nested := FromDict(sub);
            v.SetItem(item.key, Sub(nested.entries));
        }
      }
      assert d[..|d|] == d;
    }
  }
}
