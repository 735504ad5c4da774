/** The writes a `GitModel::Transaction` performs through Grit: paths are
    added to a staging index (a nested hash), the index is written over the
    branch tip's tree, and a commit is made unless nothing changed. */
module Transaction {
  import opened Outcomes
  import opened Values
  import opened Hashes
  import opened FilePaths
  import opened Store
  import opened TreeContents

  /** The staging index: a nested hash of pending writes, whose values
      mean what they mean in a record's tree. */
  type Staging = Tree

  /** `idx[k]` when it is a hash, and an empty hash otherwise. */
  function Sub(idx: Staging, k: string): Staging {
    var v := Get(idx, k);
    if v.Some? && v.value.Nested? then v.value.entries else []
  }

  /** `Grit::Index#add` along key segments: every directory on the way is
      (re)made a hash and the last segment is assigned the value. */
  function AddAt(idx: Staging, segs: seq<string>, v: Content): (r: Staging)
    requires |segs| > 0
    ensures At(r, segs) == Some(v)
    ensures forall k :: k != segs[0] ==> Get(r, k) == Get(idx, k)
    decreases |segs|
  {
    if |segs| == 1 then Put(idx, segs[0], v)
    else
      var t := AddAt(Sub(idx, segs[0]), segs[1..], v);
      var r := Put(idx, segs[0], Nested(t));
      assert Get(r, segs[0]) == Some(Nested(t));
      r
  }

  /** Adding at key segments; no segments stage nothing. */
  function AddSegs(idx: Staging, segs: seq<string>, v: Content): (r: Staging)
    ensures segs != [] ==> At(r, segs) == Some(v)
    ensures segs == [] ==> r == idx
  {
    if segs == [] then idx else AddAt(idx, segs, v)
  }

  /** `index.add(path, data)`: the path is split on `/` as Ruby's
      `String#split` does (trailing empty fields dropped). */
  function Add(idx: Staging, path: string, v: Content): (r: Staging)
    ensures Split(path) != [] ==> At(r, Split(path)) == Some(v)
  {
    AddSegs(idx, Split(path), v)
  }

  /** Adding every leaf, in order. */
  function Stage(idx: Staging, leaves: seq<Leaf>): Staging
    decreases |leaves|
  {
    if leaves == [] then idx else Stage(Add(idx, leaves[0].path, leaves[0].value), leaves[1..])
  }

  /** The contents of the subtree named `name`, or none. */
  function SubContents(c: Contents, name: string): Contents {
    var n := Child(c, name);
    if n.Some? && n.value.GTree? then n.value.contents else []
  }

  /** Writing a node into a tree: it replaces the node of that name, in
      place, or is appended. */
  function Upsert(c: Contents, node: GitNode): (r: Contents)
    ensures Child(r, node.name) == Some(node)
    ensures forall n :: n != node.name ==> Child(r, n) == Child(c, n)
  {
    if c == [] then [node]
    else if c[0].name == node.name then [node] + c[1..]
    else
      assert c == [c[0]] + c[1..];
      [c[0]] + Upsert(c[1..], node)
  }

  lemma SeqAssoc<T>(x: seq<T>, y: seq<T>, z: seq<T>)
    ensures x + (y + z) == x + y + z
  {
  }

  lemma {:induction false} UpsertFresh(c: Contents, node: GitNode)
    requires Child(c, node.name) == None
    ensures Upsert(c, node) == c + [node]
  {
    if c != [] {
      assert c[0].name != node.name;
      assert Child(c[1..], node.name) == None;
      assert Upsert(c, node) == [c[0]] + Upsert(c[1..], node);
      UpsertFresh(c[1..], node);
      assert [c[0]] + c[1..] == c;
      SeqAssoc([c[0]], c[1..], [node]);
    }
  }

  /** A first entry of another name stays in front. */
  lemma UpsertPast(c: Contents, node: GitNode)
    requires c != [] && c[0].name != node.name
    ensures Upsert(c, node) == [c[0]] + Upsert(c[1..], node)
  {
  }

  lemma {:induction false} UpsertAppend(a: Contents, b: Contents, node: GitNode)
    requires Child(a, node.name) == None
    ensures Upsert(a + b, node) == a + Upsert(b, node)
  {
    if a != [] {
      AbsentPast(a, node.name);
      var ab := a + b;
      assert ab[0] == a[0] && ab[1..] == a[1..] + b;
      UpsertPast(ab, node);
      UpsertAppend(a[1..], b, node);
      SeqAssoc([a[0]], a[1..], Upsert(b, node));
      assert [a[0]] + a[1..] == a;
    } else {
      assert a + b == b;
    }
  }

  lemma AbsentPast(c: Contents, name: string)
    requires c != [] && Child(c, name) == None
    ensures c[0].name != name && Child(c[1..], name) == None
  {
  }

  /** Deleting the blob of that name; a subtree of that name stays. */
  function RemoveBlob(c: Contents, name: string): (r: Contents)
    ensures forall i :: 0 <= i < |r| ==> r[i] in c && !(r[i].GBlob? && r[i].name == name)
    ensures forall i :: 0 <= i < |c| && !(c[i].GBlob? && c[i].name == name) ==> c[i] in r
  {
    if c == [] then []
    else if c[0].GBlob? && c[0].name == name then RemoveBlob(c[1..], name)
    else [c[0]] + RemoveBlob(c[1..], name)
  }

  /** `Grit::Index#write_tree(staged, now)`: each staged entry, in order,
      overwrites the current tree: a string becomes a blob, `false` deletes
      the blob of that name, a hash is written recursively over the subtree
      of that name, and anything else is skipped. */
  function WriteTree(staged: Staging, now: Contents): Contents
    decreases staged
  {
    if staged == [] then now else WriteTree(staged[1..], WriteEntry(staged[0], now))
  }

  function WriteEntry(p: Pair<Content>, now: Contents): Contents
    decreases p, 0
  {
    match p.val
    case Str(d) => Upsert(now, GBlob(p.key, d))
    case Falsy => RemoveBlob(now, p.key)
    case Nested(sub) => Upsert(now, GTree(p.key, WriteTree(sub, SubContents(now, p.key))))
    case _ => now
  }

  /** What `execute` returns: a commit, or a falsy value when the written
      tree equals the tip's tree. */
  datatype TxResult = NoChange | Committed(repo: Repo)

  /** `transaction.execute`: the staged index is written over the tip's
      tree (an empty tree when the branch has no commits); a commit moves
      the branch only when the tree changed. */
  function Execute(repo: Repo, branch: string, staged: Staging): (r: TxResult)
    ensures r.Committed? ==> r.repo.heads == repo.heads[branch := WriteTree(staged, CurrentTree(repo, branch).GetOr([]))]
    ensures r.NoChange? <==> WriteTree(staged, CurrentTree(repo, branch).GetOr([])) == CurrentTree(repo, branch).GetOr([])
  {
    var base := CurrentTree(repo, branch).GetOr([]);
    var tree := WriteTree(staged, base);
    if tree == base then NoChange else Committed(Repo(repo.heads[branch := tree]))
  }

  /** The hash at key segments (empty where the path is missing). */
  function SubAt(idx: Staging, segs: seq<string>): Staging
    decreases |segs|
  {
    if segs == [] then idx else SubAt(Sub(idx, segs[0]), segs[1..])
  }

  /** `idx` with the hash at key segments replaced by `t`, every directory
      on the way made a hash. */
  function UpdateAt(idx: Staging, segs: seq<string>, t: Staging): Staging
    decreases |segs|
  {
    if segs == [] then t else Put(idx, segs[0], Nested(UpdateAt(Sub(idx, segs[0]), segs[1..], t)))
  }

  lemma {:induction false} SubAtUpdate(idx: Staging, segs: seq<string>, t: Staging)
    ensures SubAt(UpdateAt(idx, segs, t), segs) == t
    decreases |segs|
  {
    if segs != [] {
      SubAtUpdate(Sub(idx, segs[0]), segs[1..], t);
    }
  }

  lemma {:induction false} UpdateTwice(idx: Staging, segs: seq<string>, t1: Staging, t2: Staging)
    ensures UpdateAt(UpdateAt(idx, segs, t1), segs, t2) == UpdateAt(idx, segs, t2)
    decreases |segs|
  {
    if segs != [] {
      var d := segs[0];
      var u1 := UpdateAt(Sub(idx, d), segs[1..], t1);
      assert Sub(Put(idx, d, Nested(u1)), d) == u1;
      UpdateTwice(Sub(idx, d), segs[1..], t1, t2);
      PutPut(idx, d, Nested(u1), Nested(UpdateAt(Sub(idx, d), segs[1..], t2)));
    }
  }

  /** Adding below a directory is adding into that directory's hash. */
  lemma {:induction false} AddAtSplit(idx: Staging, dir: seq<string>, s: seq<string>, v: Content)
    requires |s| > 0
    ensures AddAt(idx, dir + s, v) == UpdateAt(idx, dir, AddAt(SubAt(idx, dir), s, v))
    decreases |dir|
  {
    if dir == [] {
      assert dir + s == s;
    } else {
      assert (dir + s)[0] == dir[0] && (dir + s)[1..] == dir[1..] + s;
      AddAtSplit(Sub(idx, dir[0]), dir[1..], s, v);
    }
  }

  /** Adding each spot's value at its key segments, in order. */
  function StageSpots(idx: Staging, spots: seq<Spot>): Staging
    decreases |spots|
  {
    if spots == [] then idx else StageSpots(AddSegs(idx, spots[0].segs, spots[0].value), spots[1..])
  }

  /** Adding each spot's value below a common directory. */
  function StageUnder(idx: Staging, dir: seq<string>, spots: seq<Spot>): Staging
    decreases |spots|
  {
    if spots == [] then idx else StageUnder(AddSegs(idx, dir + spots[0].segs, spots[0].value), dir, spots[1..])
  }

  lemma {:induction false} StageSpotsAppend(idx: Staging, a: seq<Spot>, b: seq<Spot>)
    ensures StageSpots(idx, a + b) == StageSpots(StageSpots(idx, a), b)
    decreases |a|
  {
    if a != [] {
      assert (a + b)[0] == a[0] && (a + b)[1..] == a[1..] + b;
      StageSpotsAppend(AddSegs(idx, a[0].segs, a[0].value), a[1..], b);
    } else {
      assert a + b == b;
    }
  }

  /** Staging the paths `paths(dir)` yields is staging the leaves' key
      segments below the directory's fields (a trailing separator on the
      directory adds no empty field). */
  lemma {:induction false} StageRender(idx: Staging, dir: string, spots: seq<Spot>)
    requires forall i :: 0 <= i < |spots| ==> |spots[i].segs| > 0
    requires forall i, j :: 0 <= i < |spots| && 0 <= j < |spots[i].segs| ==> ValidName(spots[i].segs[j])
    ensures Stage(idx, Render(dir, spots)) == StageUnder(idx, Lead(dir), spots)
    decreases |spots|
  {
    if spots != [] {
      SplitJoinAll(dir, spots[0].segs);
      assert Render(dir, spots)[1..] == Render(dir, spots[1..]);
      StageRender(Add(idx, JoinAll(dir, spots[0].segs), spots[0].value), dir, spots[1..]);
    }
  }

  lemma {:induction false} StageUnderUpdate(idx: Staging, dir: seq<string>, t: Staging, spots: seq<Spot>)
    requires forall i :: 0 <= i < |spots| ==> |spots[i].segs| > 0
    ensures StageUnder(UpdateAt(idx, dir, t), dir, spots) == UpdateAt(idx, dir, StageSpots(t, spots))
    decreases |spots|
  {
    if spots != [] {
      var s := spots[0].segs;
      var v := spots[0].value;
      AddAtSplit(UpdateAt(idx, dir, t), dir, s, v);
      SubAtUpdate(idx, dir, t);
      UpdateTwice(idx, dir, t, AddAt(t, s, v));
      StageUnderUpdate(idx, dir, AddAt(t, s, v), spots[1..]);
    }
  }

  /** Staging a non-empty list of spots below a directory writes the
      directory's hash as a whole. */
  lemma StageUnderNonEmpty(idx: Staging, dir: seq<string>, spots: seq<Spot>)
    requires spots != []
    requires forall i :: 0 <= i < |spots| ==> |spots[i].segs| > 0
    ensures StageUnder(idx, dir, spots) == UpdateAt(idx, dir, StageSpots(SubAt(idx, dir), spots))
  {
    var s := spots[0].segs;
    var v := spots[0].value;
    AddAtSplit(idx, dir, s, v);
    StageUnderUpdate(idx, dir, AddAt(SubAt(idx, dir), s, v), spots[1..]);
  }

  lemma {:induction false} StagePrefix(idx: Staging, k: string, spots: seq<Spot>)
    ensures StageSpots(idx, Prefix(k, spots)) == StageUnder(idx, [k], spots)
    decreases |spots|
  {
    if spots != [] {
      StagePrefix(AddSegs(idx, [k] + spots[0].segs, spots[0].value), k, spots[1..]);
    }
  }

  lemma LeavesNonEmpty(h: Tree)
    requires Storable(h) && h != []
    ensures Leaves(h) != []
    decreases h
  {
    if h[0].val.Nested? {
      LeavesNonEmpty(h[0].val.entries);
    }
  }

  /** Staging the leaves of a storable payload into an index that does not
      bind its keys rebuilds the payload. */
  lemma {:induction false} StageLeaves(acc: Staging, h: Tree)
    requires UniqueKeys(acc) && Storable(h) && Fresh(acc, h)
    ensures StageSpots(acc, Leaves(h)) == acc + h
    decreases h
  {
    if h != [] {
      var p := h[0];
      assert !HasKey(acc, p.key) && UniqueKeys(acc + [p]) && Fresh(acc + [p], h[1..])
        && Storable(h[1..]) && (p.val.Str? || (p.val.Nested? && Storable(p.val.entries))) by {
        StorableSplit(h);
        FreshStep(acc, h);
      }
      StageSpotsAppend(acc, HeadLeaves(p), Leaves(h[1..]));
      assert StageSpots(acc, HeadLeaves(p)) == acc + [p] by {
        StageHead(acc, p);
      }
      StageLeaves(acc + [p], h[1..]);
      AppendHead(acc, h);
    }
  }

  lemma {:induction false} StageHead(acc: Staging, p: Pair<Content>)
    requires !HasKey(acc, p.key)
    requires p.val.Str? || (p.val.Nested? && Storable(p.val.entries) && p.val.entries != [])
    ensures StageSpots(acc, HeadLeaves(p)) == acc + [p]
    decreases p
  {
    if p.val.Nested? {
      var sub := p.val.entries;
      LeavesNonEmpty(sub);
      StagePrefix(acc, p.key, Leaves(sub));
      StageUnderNonEmpty(acc, [p.key], Leaves(sub));
      assert Sub(acc, p.key) == [];
      assert Fresh([], sub);
      StageLeaves([], sub);
      assert [] + sub == sub;
    }
  }

  /** No node of `c` is named by a key of `h`. */
  ghost predicate FreshNames(c: Contents, h: Tree) {
    forall k :: HasKey(h, k) ==> Child(c, k) == None
  }

  /** Writing a storable payload where none of its names exist appends its
      nodes in order: writing into an empty tree gives `Nodes`. */
  lemma {:induction false} WriteTreeFresh(c: Contents, h: Tree)
    requires Storable(h) && FreshNames(c, h)
    ensures WriteTree(h, c) == c + Nodes(h)
    decreases h
  {
    if h == [] {
      assert c + [] == c;
    } else {
      var p := h[0];
      var node := EntryNodes(p)[0];
      assert WriteEntry(p, c) == c + [node] && Storable(h[1..]) && FreshNames(c + [node], h[1..]) by {
        FreshNamesStep(c, h);
      }
      WriteTreeFresh(c + [node], h[1..]);
      NodesHead(c, h);
    }
  }

  lemma NodesHead(c: Contents, h: Tree)
    requires Storable(h) && h != []
    ensures |EntryNodes(h[0])| == 1
    ensures c + [EntryNodes(h[0])[0]] + Nodes(h[1..]) == c + Nodes(h)
  {
    assert h[0].val.Str? || h[0].val.Nested?;
    var e := EntryNodes(h[0]);
    assert |e| == 1;
    assert e == [e[0]];
    assert Nodes(h) == e + Nodes(h[1..]);
  }

  lemma FreshNamesStep(c: Contents, h: Tree)
    requires Storable(h) && FreshNames(c, h) && h != []
    ensures |EntryNodes(h[0])| == 1
    ensures WriteEntry(h[0], c) == c + [EntryNodes(h[0])[0]]
    ensures Storable(h[1..]) && FreshNames(c + [EntryNodes(h[0])[0]], h[1..])
    decreases h, 1
  {
    var p := h[0];
    StorableSplit(h);
    assert HasKey(h, p.key) by { assert h[0].key == p.key; }
    var node := EntryNodes(p)[0];
    assert WriteEntry(p, c) == Upsert(c, node) by {
      if p.val.Nested? {
        WriteTreeFresh([], p.val.entries);
        assert [] + Nodes(p.val.entries) == Nodes(p.val.entries);
      }
    }
    UpsertFresh(c, node);
    forall k | HasKey(h[1..], k) ensures Child(c + [node], k) == None {
      assert h == [p] + h[1..];
      HasKeyCons(p, h[1..], k);
      UniqueCons(p, h[1..]);
    }
  }

  /** The contents of the subtree at key segments (empty where missing). */
  function SubContentsAt(c: Contents, segs: seq<string>): Contents
    decreases |segs|
  {
    if segs == [] then c else SubContentsAt(SubContents(c, segs[0]), segs[1..])
  }

  /** Writing an index that holds only the hash `t` at `dir` over a tree,
      then walking to `dir`, finds `t` written over what was there. */
  lemma {:induction false} WalkWritten(name: string, base: Contents, dir: seq<string>, t: Staging)
    requires |dir| > 0
    ensures Walk(Some(GTree(name, WriteTree(UpdateAt([], dir, t), base))), dir)
      == Some(GTree(dir[|dir| - 1], WriteTree(t, SubContentsAt(base, dir))))
    decreases |dir|
  {
    var d := dir[0];
    var u := UpdateAt([], dir[1..], t);
    assert UpdateAt([], dir, t) == [Pair(d, Nested(u))];
    var node := GTree(d, WriteTree(u, SubContents(base, d)));
    assert WriteTree(UpdateAt([], dir, t), base) == Upsert(base, node);
    if |dir| > 1 {
      WalkWritten(d, SubContents(base, d), dir[1..], t);
    }
  }

  lemma {:induction false} WriteTreeAppend(a: Staging, b: Staging, now: Contents)
    ensures WriteTree(a + b, now) == WriteTree(b, WriteTree(a, now))
    decreases a
  {
    if a != [] {
      assert (a + b)[0] == a[0] && (a + b)[1..] == a[1..] + b;
      WriteTreeAppend(a[1..], b, WriteEntry(a[0], now));
    } else {
      assert a + b == b;
    }
  }

  /** Walking a well-formed tree to a subtree reaches the contents
      `SubContentsAt` names, and they are well-formed. */
  lemma {:induction false} WalkSubContents(name: string, base: Contents, dir: seq<string>)
    requires Walk(Some(GTree(name, base)), dir).Some? && Walk(Some(GTree(name, base)), dir).value.GTree?
    ensures SubContentsAt(base, dir) == Walk(Some(GTree(name, base)), dir).value.contents
    ensures WellFormed(base) ==> WellFormed(SubContentsAt(base, dir))
    decreases |dir|
  {
    if dir != [] {
      var n := Child(base, dir[0]);
      if n.None? {
        WalkNone(dir[1..]);
        assert false;
      } else if n.value.GBlob? {
        if |dir| > 1 {
          WalkNone(dir[2..]);
        }
        assert false;
      } else {
        if WellFormed(base) {
          ChildWellFormed(base, dir[0]);
        }
        WalkSubContents(n.value.name, n.value.contents, dir[1..]);
      }
    }
  }

  /** The repository after a transaction: the new commit's, or the old one
      when nothing changed. */
  function After(repo: Repo, r: TxResult): Repo {
    if r.Committed? then r.repo else repo
  }

  /** Whether or not a commit is made, the branch then holds the written
      tree. */
  lemma ExecuteAfter(repo: Repo, branch: string, staged: Staging)
    ensures CurrentTree(After(repo, Execute(repo, branch, staged)), branch).GetOr([])
      == WriteTree(staged, CurrentTree(repo, branch).GetOr([]))
    ensures forall b :: b != branch ==> CurrentTree(After(repo, Execute(repo, branch, staged)), b) == CurrentTree(repo, b)
    ensures branch in repo.heads ==> branch in After(repo, Execute(repo, branch, staged)).heads
  {
  }

  lemma {:induction false} SubAtEmpty(segs: seq<string>)
    ensures SubAt([], segs) == []
    decreases |segs|
  {
    if segs != [] {
      SubAtEmpty(segs[1..]);
    }
  }
}
