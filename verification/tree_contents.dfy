/** A record's payload: a nested hash whose leaves are blob strings, the
    deletion sentinel `false`, or other values, and its mapping to and from
    the store's blobs and subtrees. */
module TreeContents {
  import opened Outcomes
  import opened Values
  import opened Hashes
  import opened FilePaths
  import opened Store

  /** A value in the payload hash (or in Grit's staging index). */
  datatype Content =
    | Str(data: Data)             // a string: becomes a blob
    | Falsy                       // `false`: deletes an existing blob
    | Nil                         // `nil`
    | Opaque                      // any other Ruby value: ignored when written
    | Nested(entries: Hash<Content>)  // a hash: becomes a subtree

  type Tree = Hash<Content>

  /** One yield of `paths`: a full path and the value found there. */
  datatype Leaf = Leaf(path: string, value: Content)

  /** A leaf located by its key segments instead of a joined path. */
  datatype Spot = Spot(segs: seq<string>, value: Content)

  /** `paths(prefix, h)`: depth first, in hash order, every value that is
      not a hash, with its path joined onto `prefix`; hashes, empty ones
      included, are descended into and never yielded. */
  function Paths(prefix: string, h: Tree): (r: seq<Leaf>)
    ensures forall i :: 0 <= i < |r| ==> !r[i].value.Nested?
    decreases h
  {
    if h == [] then []
    else
      var p := Join(prefix, h[0].key);
      (match h[0].val
       case Nested(sub) => Paths(p, sub)
       case v => [Leaf(p, v)])
      + Paths(prefix, h[1..])
  }

  function Prefix(k: string, spots: seq<Spot>): (r: seq<Spot>)
    ensures |r| == |spots|
    ensures forall i :: 0 <= i < |r| ==> r[i] == Spot([k] + spots[i].segs, spots[i].value)
  {
    if spots == [] then [] else [Spot([k] + spots[0].segs, spots[0].value)] + Prefix(k, spots[1..])
  }

  /** The leaves of `h` by key segments, in the order `paths` visits them. */
  function Leaves(h: Tree): (r: seq<Spot>)
    ensures forall i :: 0 <= i < |r| ==> |r[i].segs| > 0 && !r[i].value.Nested?
  {
    if h == [] then []
    else HeadLeaves(h[0]) + Leaves(h[1..])
  }

  /** The leaves contributed by one entry of a hash. */
  function HeadLeaves(p: Pair<Content>): (r: seq<Spot>)
    ensures forall i :: 0 <= i < |r| ==> |r[i].segs| > 0 && r[i].segs[0] == p.key && !r[i].value.Nested?
    decreases p, 0
  {
    match p.val
    case Nested(sub) => Prefix(p.key, Leaves(sub))
    case v => [Spot([p.key], v)]
  }

  /** Rendering leaves as `paths` does: the segments joined onto a prefix. */
  function Render(prefix: string, spots: seq<Spot>): (r: seq<Leaf>)
    ensures |r| == |spots|
    ensures forall i :: 0 <= i < |r| ==> r[i] == Leaf(JoinAll(prefix, spots[i].segs), spots[i].value)
  {
    if spots == [] then [] else [Leaf(JoinAll(prefix, spots[0].segs), spots[0].value)] + Render(prefix, spots[1..])
  }

  /** The value at a key path (`h[s1][s2]...`), if every step is a hash. */
  function At(h: Tree, segs: seq<string>): (r: Option<Content>)
    ensures r.Some? ==> |segs| > 0 && HasKey(h, segs[0])
    decreases |segs|
  {
    if segs == [] then None
    else
      var v := Get(h, segs[0]);
      if |segs| == 1 then v
      else if v.Some? && v.value.Nested? then At(v.value.entries, segs[1..])
      else None
  }

  /** Every hash in the payload binds each key once. */
  predicate DeepUnique(h: Tree) {
    && UniqueKeys(h)
    && forall i :: 0 <= i < |h| ==> (h[i].val.Nested? ==> DeepUnique(h[i].val.entries))
  }

  /** Every key, at every level, is a valid path segment. */
  predicate ValidKeys(h: Tree) {
    forall i :: 0 <= i < |h| ==> ValidName(h[i].key) && (h[i].val.Nested? ==> ValidKeys(h[i].val.entries))
  }

  /** A payload that a save stores faithfully: unique valid keys, every leaf
      a string, and no empty hash (an empty hash yields no path). */
  predicate Storable(h: Tree) {
    && UniqueKeys(h)
    && forall i :: 0 <= i < |h| ==>
         && ValidName(h[i].key)
         && (h[i].val.Str? || h[i].val.Nested?)
         && (h[i].val.Nested? ==> h[i].val.entries != [] && Storable(h[i].val.entries))
  }

  lemma StorableIsDeepUnique(h: Tree)
    requires Storable(h)
    ensures DeepUnique(h) && ValidKeys(h)
  {
    forall i | 0 <= i < |h| && h[i].val.Nested? ensures DeepUnique(h[i].val.entries) && ValidKeys(h[i].val.entries) {
      StorableIsDeepUnique(h[i].val.entries);
    }
  }

  lemma RenderAppend(prefix: string, a: seq<Spot>, b: seq<Spot>)
    ensures Render(prefix, a + b) == Render(prefix, a) + Render(prefix, b)
  {
  }

  lemma RenderPrefix(prefix: string, k: string, spots: seq<Spot>)
    ensures Render(prefix, Prefix(k, spots)) == Render(Join(prefix, k), spots)
  {
    var l := Render(prefix, Prefix(k, spots));
    var r := Render(Join(prefix, k), spots);
    forall i | 0 <= i < |l| ensures l[i] == r[i] {
      assert ([k] + spots[i].segs)[1..] == spots[i].segs;
    }
  }

  /** Each yielded path is the prefix joined, with `/`, to the key segments
      leading to a leaf, and the leaves come in `Leaves` order. */
  lemma {:induction false} PathsRender(prefix: string, h: Tree)
    ensures Paths(prefix, h) == Render(prefix, Leaves(h))
    decreases h
  {
    if h != [] {
      PathsRender(prefix, h[1..]);
      RenderAppend(prefix, HeadLeaves(h[0]), Leaves(h[1..]));
      match h[0].val
      case Nested(sub) =>
        PathsRender(Join(prefix, h[0].key), sub);
        RenderPrefix(prefix, h[0].key, Leaves(sub));
      case v =>
        assert JoinAll(prefix, [h[0].key]) == Join(prefix, h[0].key);
    }
  }

  /** The facts about a deeply unique hash that induction on it needs. */
  lemma DeepUniqueSplit(h: Tree)
    requires DeepUnique(h) && h != []
    ensures DeepUnique(h[1..]) && !HasKey(h[1..], h[0].key)
    ensures h[0].val.Nested? ==> DeepUnique(h[0].val.entries)
  {
    assert h == [h[0]] + h[1..];
    UniqueCons(h[0], h[1..]);
    forall j | 0 <= j < |h[1..]| ensures h[1..][j] == h[j + 1] { }
  }

  /** In a hash with unique keys, a key path leads into the first entry
      exactly when it starts with that entry's key. */
  lemma AtCons(h: Tree, segs: seq<string>)
    requires DeepUnique(h) && h != [] && |segs| > 0
    ensures segs[0] != h[0].key ==> At(h, segs) == At(h[1..], segs)
    ensures segs[0] == h[0].key && |segs| == 1 ==> At(h, segs) == Some(h[0].val)
    ensures segs[0] == h[0].key && |segs| > 1 ==>
      At(h, segs) == (if h[0].val.Nested? then At(h[0].val.entries, segs[1..]) else None)
  {
    DeepUniqueSplit(h);
    GetAt(h, 0);
    if segs[0] != h[0].key {
      assert Get(h, segs[0]) == Get(h[1..], segs[0]);
    }
  }

  /** Soundness: every spot `Leaves` reports holds that value in the hash. */
  lemma {:induction false} LeavesSound(h: Tree, i: int)
    requires DeepUnique(h) && 0 <= i < |Leaves(h)|
    ensures At(h, Leaves(h)[i].segs) == Some(Leaves(h)[i].value)
  {
    DeepUniqueSplit(h);
    var head := HeadLeaves(h[0]);
    var s := Leaves(h)[i];
    if i < |head| {
      assert s == head[i];
      AtCons(h, s.segs);
      if h[0].val.Nested? {
        var sub := h[0].val.entries;
        LeavesSound(sub, i);
        assert s.segs[1..] == Leaves(sub)[i].segs;
      }
    } else {
      assert s == Leaves(h[1..])[i - |head|];
      LeavesSound(h[1..], i - |head|);
      AtCons(h, s.segs);
    }
  }

  /** Completeness: every non-hash value reachable by a key path is
      reported by `Leaves` at that path. */
  lemma {:induction false} LeavesComplete(h: Tree, segs: seq<string>, v: Content)
    requires DeepUnique(h) && At(h, segs) == Some(v) && !v.Nested?
    ensures exists i :: 0 <= i < |Leaves(h)| && Leaves(h)[i] == Spot(segs, v)
  {
    DeepUniqueSplit(h);
    var head := HeadLeaves(h[0]);
    AtCons(h, segs);
    if segs[0] == h[0].key {
      if |segs| == 1 {
        assert segs == [h[0].key];
        assert head == [Spot(segs, v)];
        LeavesHead(h, 0);
      } else {
        var sub := h[0].val.entries;
        assert head == Prefix(h[0].key, Leaves(sub));
        LeavesComplete(sub, segs[1..], v);
        var i :| 0 <= i < |Leaves(sub)| && Leaves(sub)[i] == Spot(segs[1..], v);
        assert [h[0].key] + segs[1..] == segs;
        assert head[i] == Spot(segs, v);
        LeavesHead(h, i);
      }
    } else {
      LeavesComplete(h[1..], segs, v);
      var i :| 0 <= i < |Leaves(h[1..])| && Leaves(h[1..])[i] == Spot(segs, v);
      LeavesTail(h, i);
    }
  }

  lemma LeavesHead(h: Tree, i: int)
    requires h != [] && 0 <= i < |HeadLeaves(h[0])|
    ensures i < |Leaves(h)| && Leaves(h)[i] == HeadLeaves(h[0])[i]
  {
    assert Leaves(h) == HeadLeaves(h[0]) + Leaves(h[1..]);
  }

  lemma LeavesTail(h: Tree, i: int)
    requires h != [] && 0 <= i < |Leaves(h[1..])|
    ensures |HeadLeaves(h[0])| + i < |Leaves(h)| && Leaves(h)[|HeadLeaves(h[0])| + i] == Leaves(h[1..])[i]
  {
    assert Leaves(h) == HeadLeaves(h[0]) + Leaves(h[1..]);
  }

  /** Every spot of `Leaves` starts with a key of the hash. */
  lemma {:induction false} LeavesStartWithKeys(h: Tree, i: int)
    requires 0 <= i < |Leaves(h)|
    ensures HasKey(h, Leaves(h)[i].segs[0])
  {
    var head := HeadLeaves(h[0]);
    if i < |head| {
      assert h[0].key == Leaves(h)[i].segs[0];
    } else {
      LeavesStartWithKeys(h[1..], i - |head|);
      assert h == [h[0]] + h[1..];
      HasKeyCons(h[0], h[1..], Leaves(h)[i].segs[0]);
    }
  }

  /** No leaf is reported twice: `paths` yields once per leaf. */
  lemma {:induction false} LeavesDistinct(h: Tree, i: int, j: int)
    requires DeepUnique(h) && 0 <= i < j < |Leaves(h)|
    ensures Leaves(h)[i].segs != Leaves(h)[j].segs
  {
    DeepUniqueSplit(h);
    var head := HeadLeaves(h[0]);
    if j < |head| {
      var sub := h[0].val.entries;
      LeavesDistinct(sub, i, j);
      assert Leaves(h)[i].segs[1..] == Leaves(sub)[i].segs;
      assert Leaves(h)[j].segs[1..] == Leaves(sub)[j].segs;
    } else if i >= |head| {
      LeavesDistinct(h[1..], i - |head|, j - |head|);
    } else {
      LeavesStartWithKeys(h[1..], j - |head|);
    }
  }

  /** The nodes a payload is saved as, in order: a string becomes a blob, a
      hash a subtree, anything else is not written. */
  function Nodes(h: Tree): Contents {
    if h == [] then []
    else EntryNodes(h[0]) + Nodes(h[1..])
  }

  /** The node (if any) one entry of a payload is saved as. */
  function EntryNodes(p: Pair<Content>): Contents
    decreases p, 0
  {
    match p.val
    case Str(d) => [GBlob(p.key, d)]
    case Nested(sub) => [GTree(p.key, Nodes(sub))]
    case _ => []
  }

  /** `hash_from_git`: each blob becomes its data, each subtree a nested
      hash, assigned under the node's name in order. */
  function HashFromGit(nodes: Contents): Tree {
    HashFromGitInto([], nodes)
  }

  function HashFromGitInto(acc: Tree, nodes: Contents): Tree
    decreases nodes
  {
    if nodes == [] then acc
    else HashFromGitInto(Put(acc, nodes[0].name, NodeValue(nodes[0])), nodes[1..])
  }

  /** The payload value a stored node reads back as. */
  function NodeValue(node: GitNode): Content
    decreases node
  {
    match node
    case GBlob(_, d) => Content.Str(d)
    case GTree(_, c) => Nested(HashFromGitInto([], c))
  }

  /** `HashWithIndifferentAccess.new(h)`: every pair is assigned in order
      (a repeated key keeps its first position and its last value) and
      nested hashes are converted too. */
  function Convert(h: Tree): Tree {
    ConvertInto([], h)
  }

  function ConvertInto(acc: Tree, h: Tree): Tree
    decreases h
  {
    if h == [] then acc
    else ConvertInto(Put(acc, h[0].key, ConvertValue(h[0].val)), h[1..])
  }

  function ConvertValue(v: Content): Content
    decreases v
  {
    match v
    case Nested(sub) => Nested(ConvertInto([], sub))
    case other => other
  }

  /** No key of `h` is bound in `acc`. */
  ghost predicate Fresh(acc: Tree, h: Tree) {
    forall k :: HasKey(h, k) ==> !HasKey(acc, k)
  }

  /** One step of assigning the entries of `h`, in order, onto `acc`. */
  lemma FreshStep(acc: Tree, h: Tree)
    requires UniqueKeys(acc) && UniqueKeys(h) && Fresh(acc, h) && h != []
    ensures !HasKey(acc, h[0].key)
    ensures UniqueKeys(acc + [h[0]]) && Fresh(acc + [h[0]], h[1..])
  {
    assert h == [h[0]] + h[1..];
    UniqueCons(h[0], h[1..]);
    assert HasKey(h, h[0].key);
    var a := acc + [h[0]];
    forall k | HasKey(h[1..], k) ensures !HasKey(a, k) {
      HasKeyCons(h[0], h[1..], k);
      HasKeyCons(h[0], [], k);
      assert [h[0]] == [h[0]] + [];
      AppendHasKey(acc, [h[0]], k);
    }
    AppendUnique(acc, [h[0]]);
  }

  lemma AppendHasKey(a: Tree, b: Tree, k: string)
    ensures HasKey(a + b, k) <==> HasKey(a, k) || HasKey(b, k)
  {
    if HasKey(a + b, k) {
      var i :| 0 <= i < |a + b| && (a + b)[i].key == k;
      if i >= |a| { assert b[i - |a|].key == k; }
    }
    if HasKey(b, k) {
      var i :| 0 <= i < |b| && b[i].key == k;
      assert (a + b)[|a| + i].key == k;
    }
    if HasKey(a, k) {
      var i :| 0 <= i < |a| && a[i].key == k;
      assert (a + b)[i].key == k;
    }
  }

  lemma AppendUnique(a: Tree, b: Tree)
    requires UniqueKeys(a) && UniqueKeys(b)
    requires forall k :: HasKey(b, k) ==> !HasKey(a, k)
    ensures UniqueKeys(a + b)
  {
    var c := a + b;
    forall i, j | 0 <= i < j < |c| ensures c[i].key != c[j].key {
      if i < |a| && j >= |a| {
        assert HasKey(b, c[j].key) by { assert b[j - |a|] == c[j]; }
        assert HasKey(a, c[i].key);
      } else if i >= |a| {
        assert b[i - |a|] == c[i] && b[j - |a|] == c[j];
      }
    }
  }

  lemma AppendHead(acc: Tree, h: Tree)
    requires h != []
    ensures acc + [h[0]] + h[1..] == acc + h
  {
    assert h == [h[0]] + h[1..];
  }

  /** Converting a hash that already binds each key once changes nothing:
      `tree=` with such a hash stores exactly its entries. */
  lemma {:induction false} ConvertIntoUnique(acc: Tree, h: Tree)
    requires UniqueKeys(acc) && DeepUnique(h) && Fresh(acc, h)
    ensures ConvertInto(acc, h) == acc + h
    decreases h
  {
    if h != [] {
      DeepUniqueSplit(h);
      FreshStep(acc, h);
      ConvertValueUnique(h[0].val);
      ConvertIntoUnique(acc + [h[0]], h[1..]);
      AppendHead(acc, h);
    }
  }

  lemma {:induction false} ConvertValueUnique(v: Content)
    requires v.Nested? ==> DeepUnique(v.entries)
    ensures ConvertValue(v) == v
    decreases v
  {
    if v.Nested? {
      assert ConvertValue(v) == Nested(ConvertInto([], v.entries));
      ConvertIntoUnique([], v.entries);
      assert [] + v.entries == v.entries;
    }
  }

  /** Assigning a deeply unique value keeps a hash deeply unique. */
  lemma PutDeepUnique(acc: Tree, k: string, v: Content)
    requires DeepUnique(acc) && (v.Nested? ==> DeepUnique(v.entries))
    ensures DeepUnique(Put(acc, k, v))
  {
    var r := Put(acc, k, v);
    PutUnique(acc, k, v);
    forall i | 0 <= i < |r| && r[i].val.Nested? ensures DeepUnique(r[i].val.entries) {
      PutEntries(acc, k, v, i);
      if r[i] != Pair(k, v) {
        var j :| 0 <= j < |acc| && acc[j] == r[i];
      }
    }
  }

  /** `HashWithIndifferentAccess.new` always binds each key once, at every
      level. */
  lemma {:induction false} ConvertIntoDeepUnique(acc: Tree, h: Tree)
    requires DeepUnique(acc)
    ensures DeepUnique(ConvertInto(acc, h))
    decreases h
  {
    if h != [] {
      ConvertValueDeepUnique(h[0].val);
      PutDeepUnique(acc, h[0].key, ConvertValue(h[0].val));
      ConvertIntoDeepUnique(Put(acc, h[0].key, ConvertValue(h[0].val)), h[1..]);
    }
  }

  lemma {:induction false} ConvertValueDeepUnique(v: Content)
    ensures ConvertValue(v).Nested? ==> DeepUnique(ConvertValue(v).entries)
    decreases v
  {
    if v.Nested? {
      ConvertIntoDeepUnique([], v.entries);
    }
  }

  lemma ConvertDeepUnique(h: Tree)
    ensures DeepUnique(Convert(h))
  {
    ConvertIntoDeepUnique([], h);
  }

  lemma ConvertUnique(h: Tree)
    requires DeepUnique(h)
    ensures Convert(h) == h
  {
    ConvertIntoUnique([], h);
  }

  /** The facts about a storable hash that induction on it needs. */
  lemma StorableSplit(h: Tree)
    requires Storable(h) && h != []
    ensures Storable(h[1..]) && UniqueKeys(h)
    ensures h[0].val.Str? || (h[0].val.Nested? && Storable(h[0].val.entries))
  {
    forall j | 0 <= j < |h[1..]| ensures h[1..][j] == h[j + 1] { }
    assert UniqueKeys(h[1..]);
  }

  /** Reading a saved payload back: the nodes a storable payload is saved as
      convert back to the same payload. */
  lemma {:induction false} HashFromGitIntoNodes(acc: Tree, h: Tree)
    requires UniqueKeys(acc) && Storable(h) && Fresh(acc, h)
    ensures HashFromGitInto(acc, Nodes(h)) == acc + h
    decreases h
  {
    if h != [] {
      var p := h[0];
      assert !HasKey(acc, p.key) && UniqueKeys(acc + [p]) && Fresh(acc + [p], h[1..])
        && Storable(h[1..]) && (p.val.Str? || (p.val.Nested? && Storable(p.val.entries))) by {
        StorableSplit(h);
        FreshStep(acc, h);
      }
      assert HashFromGitInto(acc, Nodes(h)) == HashFromGitInto(acc + [p], Nodes(h[1..])) by {
        NodeValueOfEntry(p);
        var n := EntryNodes(p)[0];
        assert Put(acc, n.name, NodeValue(n)) == acc + [p];
        HashFromGitIntoCons(acc, n, Nodes(h[1..]));
        assert Nodes(h) == [n] + Nodes(h[1..]);
      }
      HashFromGitIntoNodes(acc + [p], h[1..]);
      AppendHead(acc, h);
    }
  }

  lemma HashFromGitIntoCons(acc: Tree, n: GitNode, rest: Contents)
    ensures HashFromGitInto(acc, [n] + rest) == HashFromGitInto(Put(acc, n.name, NodeValue(n)), rest)
  {
    assert ([n] + rest)[1..] == rest;
  }

  lemma {:induction false} NodeValueOfEntry(p: Pair<Content>)
    requires p.val.Str? || (p.val.Nested? && Storable(p.val.entries))
    ensures |EntryNodes(p)| == 1 && EntryNodes(p)[0].name == p.key
    ensures NodeValue(EntryNodes(p)[0]) == p.val
    decreases p
  {
    if p.val.Nested? {
      HashFromGitIntoNodes([], p.val.entries);
      assert [] + p.val.entries == p.val.entries;
    }
  }

  lemma HashFromGitNodes(h: Tree)
    requires Storable(h)
    ensures HashFromGit(Nodes(h)) == h
  {
    HashFromGitIntoNodes([], h);
  }

  /** What `tree=` may be given. */
  datatype TreeArg =
    | FromHash(h: Tree)            // a Hash (or HashWithIndifferentAccess)
    | FromNodes(nodes: Contents)   // an Array of Grit trees and blobs
    | FromOther                    // anything else, `nil` included

  /** `tree=(data)`: the argument converted to an indifferent-access hash;
      an array of nodes is read with `hash_from_git` first, and any other
      argument gives an empty hash. */
  function AssignTree(data: TreeArg): (t: Tree)
    ensures data.FromHash? && DeepUnique(data.h) ==> t == data.h
    ensures data.FromOther? ==> t == []
    ensures DeepUnique(t)
  {
    match data
    case FromHash(h) => ConvertUniqueIf(h); Convert(h)
    case FromNodes(nodes) => ConvertDeepUnique(HashFromGit(nodes)); Convert(HashFromGit(nodes))
    case FromOther => []
  }

  lemma ConvertUniqueIf(h: Tree)
    ensures DeepUnique(Convert(h))
    ensures DeepUnique(h) ==> Convert(h) == h
  {
    ConvertDeepUnique(h);
    if DeepUnique(h) {
      ConvertUnique(h);
    }
  }

  /** Reading back the nodes of a saved payload through `tree=` gives the
      payload. */
  lemma AssignTreeNodes(h: Tree)
    requires Storable(h)
    ensures AssignTree(FromNodes(Nodes(h))) == h
  {
    HashFromGitNodes(h);
    StorableIsDeepUnique(h);
    ConvertUnique(h);
  }

  /** Every segment of every leaf of a hash with valid keys is a valid
      path segment. */
  lemma {:induction false} LeavesValid(h: Tree)
    requires ValidKeys(h)
    ensures forall i, j :: 0 <= i < |Leaves(h)| && 0 <= j < |Leaves(h)[i].segs| ==> ValidName(Leaves(h)[i].segs[j])
    decreases h
  {
    if h != [] {
      assert ValidKeys(h[1..]) by {
        forall i | 0 <= i < |h[1..]| ensures h[1..][i] == h[i + 1] { }
      }
      LeavesValid(h[1..]);
      var head := HeadLeaves(h[0]);
      if h[0].val.Nested? {
        LeavesValid(h[0].val.entries);
      }
      forall i, j | 0 <= i < |Leaves(h)| && 0 <= j < |Leaves(h)[i].segs| ensures ValidName(Leaves(h)[i].segs[j]) {
        if i >= |head| {
          assert Leaves(h)[i] == Leaves(h[1..])[i - |head|];
        } else if j > 0 && h[0].val.Nested? {
          assert Leaves(h)[i].segs[j] == Leaves(h[0].val.entries)[i].segs[j - 1];
        }
      }
    }
  }

  /** Assigning a string under a valid name keeps a payload storable. */
  lemma PutStrStorable(h: Tree, k: string, d: Data)
    requires Storable(h) && ValidName(k)
    ensures Storable(Put(h, k, Content.Str(d)))
  {
    var r := Put(h, k, Content.Str(d));
    PutUnique(h, k, Content.Str(d));
    forall i | 0 <= i < |r| ensures ValidName(r[i].key) && (r[i].val.Str? || r[i].val.Nested?)
      && (r[i].val.Nested? ==> r[i].val.entries != [] && Storable(r[i].val.entries))
    {
      PutEntries(h, k, Content.Str(d), i);
      if r[i] != Pair(k, Content.Str(d)) {
        var j :| 0 <= j < |h| && h[j] == r[i];
      }
    }
  }

  /** Deleting a key keeps a payload storable. */
  lemma {:induction false} RemoveStorable(h: Tree, k: string)
    requires Storable(h)
    ensures Storable(Remove(h, k))
  {
    if h != [] {
      StorableSplit(h);
      RemoveStorable(h[1..], k);
      RemoveUnique(h, k);
      var r := Remove(h, k);
      if h[0].key != k {
        assert r == [h[0]] + Remove(h[1..], k);
        forall i | 0 <= i < |r| ensures ValidName(r[i].key) && (r[i].val.Str? || r[i].val.Nested?)
          && (r[i].val.Nested? ==> r[i].val.entries != [] && Storable(r[i].val.entries))
        {
          if i > 0 {
            assert r[i] == Remove(h[1..], k)[i - 1];
          }
        }
      }
    }
  }

  lemma NodesCons(p: Pair<Content>, t: Tree)
    ensures Nodes([p] + t) == EntryNodes(p) + Nodes(t)
  {
    assert ([p] + t)[0] == p && ([p] + t)[1..] == t;
  }

  /** The node a stored string is saved as is found under its key. */
  lemma {:induction false} ChildNodes(h: Tree, k: string, d: Data)
    requires UniqueKeys(h) && Get(h, k) == Some(Content.Str(d))
    ensures Child(Nodes(h), k) == Some(GBlob(k, d))
  {
    var e := EntryNodes(h[0]);
    if h[0].key == k {
      assert e == [GBlob(k, d)];
    } else {
      assert h == [h[0]] + h[1..];
      UniqueCons(h[0], h[1..]);
      ChildNodes(h[1..], k, d);
      assert Child(e, k) == None;
      ChildAppend(e, Nodes(h[1..]), k);
    }
  }
}
