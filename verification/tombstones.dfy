/** Deleting records: `delete_tree` stages, below the record's path, a
    tombstone hash built by `build_tree_hash` from the stored tree: every
    blob becomes `false` and every subtree is recursed into. */
module Tombstones {
  import opened Outcomes
  import opened Values
  import opened Hashes
  import opened FilePaths
  import opened Store
  import opened TreeContents
  import opened Transaction

  /** `tree.blobs.each { |b| hash[b.name] = false }`. */
  function MarkBlobs(hash: Tree, c: Contents): Tree
    decreases c
  {
    if c == [] then hash
    else MarkBlobs(if c[0].GBlob? then Put(hash, c[0].name, Falsy) else hash, c[1..])
  }

  /** `tree.trees.each { |t| hash[t.name] = {}; build_tree_hash(hash[t.name], t) }`. */
  function MarkTrees(hash: Tree, c: Contents): Tree
    decreases c, 0
  {
    if c == [] then hash
    else if c[0].GTree? then MarkTrees(Put(hash, c[0].name, Nested(BuildTreeHash([], c[0].contents))), c[1..])
    else MarkTrees(hash, c[1..])
  }

  /** `build_tree_hash(hash, tree)`: blobs first, then subtrees. */
  function BuildTreeHash(hash: Tree, c: Contents): Tree
    decreases c, 1
  {
    MarkTrees(MarkBlobs(hash, c), c)
  }

  /** The tombstone entries for the blobs of `c`, in order. */
  function BlobMarks(c: Contents): Tree {
    if c == [] then []
    else (if c[0].GBlob? then [Pair(c[0].name, Falsy)] else []) + BlobMarks(c[1..])
  }

  /** The tombstone entries for the subtrees of `c`, in order. */
  function TreeMarks(c: Contents): Tree
    decreases c
  {
    if c == [] then []
    else (if c[0].GTree? then [Pair(c[0].name, Nested(BuildTreeHash([], c[0].contents)))] else []) + TreeMarks(c[1..])
  }

  /** The tree with every blob removed, at every depth. */
  function Strip(c: Contents): (r: Contents)
    decreases c
  {
    if c == [] then []
    else (if c[0].GTree? then [GTree(c[0].name, Strip(c[0].contents))] else []) + Strip(c[1..])
  }

  /** No blob anywhere in the tree. */
  predicate NoBlobs(c: Contents) {
    forall i :: 0 <= i < |c| ==> c[i].GTree? && NoBlobs(c[i].contents)
  }

  lemma {:induction false} StripNoBlobs(c: Contents)
    ensures NoBlobs(Strip(c))
    decreases c
  {
    if c != [] {
      StripNoBlobs(c[1..]);
      if c[0].GTree? {
        StripNoBlobs(c[0].contents);
      }
    }
  }

  /** Names within `c` are unique (the first half of `WellFormed`). */
  predicate UniqueNames(c: Contents) {
    forall i, j :: 0 <= i < j < |c| ==> c[i].name != c[j].name
  }

  /** No subtree (`tree`) or no blob (`!tree`) of `c` is named by a key of
      `acc`. */
  predicate KindFresh(acc: Tree, c: Contents, tree: bool) {
    forall i :: 0 <= i < |c| && c[i].GTree? == tree ==> !HasKey(acc, c[i].name)
  }

  lemma KindFreshStep(acc: Tree, c: Contents, tree: bool, p: Pair<Content>)
    requires UniqueNames(c) && KindFresh(acc, c, tree) && c != [] && p.key == c[0].name
    ensures UniqueNames(c[1..]) && KindFresh(acc + [p], c[1..], tree)
  {
    forall i | 0 <= i < |c[1..]| && c[1..][i].GTree? == tree ensures !HasKey(acc + [p], c[1..][i].name) {
      assert c[1..][i] == c[i + 1];
      AppendHasKey(acc, [p], c[i + 1].name);
      HasKeyCons(p, [], c[i + 1].name);
      assert [p] + [] == [p];
    }
  }

  lemma KindFreshTail(acc: Tree, c: Contents, tree: bool)
    requires UniqueNames(c) && KindFresh(acc, c, tree) && c != []
    ensures UniqueNames(c[1..]) && KindFresh(acc, c[1..], tree)
  {
    forall i | 0 <= i < |c[1..]| ensures c[1..][i] == c[i + 1] { }
  }

  lemma {:induction false} MarkBlobsFresh(acc: Tree, c: Contents)
    requires UniqueNames(c) && KindFresh(acc, c, false)
    ensures MarkBlobs(acc, c) == acc + BlobMarks(c)
    decreases c
  {
    if c == [] {
      assert acc + [] == acc;
    } else if c[0].GBlob? {
      var p := Pair(c[0].name, Falsy);
      assert MarkBlobs(acc, c) == MarkBlobs(acc + [p], c[1..]) by {
        assert !HasKey(acc, c[0].name);
      }
      KindFreshStep(acc, c, false, p);
      MarkBlobsFresh(acc + [p], c[1..]);
      assert BlobMarks(c) == [p] + BlobMarks(c[1..]);
      ConsAssoc(acc, p, BlobMarks(c[1..]));
      assert MarkBlobs(acc, c) == acc + [p] + BlobMarks(c[1..]);
    } else {
      KindFreshTail(acc, c, false);
      MarkBlobsFresh(acc, c[1..]);
      assert MarkBlobs(acc, c) == MarkBlobs(acc, c[1..]);
      assert BlobMarks(c) == [] + BlobMarks(c[1..]) == BlobMarks(c[1..]);
    }
  }

  lemma {:induction false} MarkTreesFresh(acc: Tree, c: Contents)
    requires UniqueNames(c) && KindFresh(acc, c, true)
    ensures MarkTrees(acc, c) == acc + TreeMarks(c)
    decreases c
  {
    if c == [] {
      assert acc + [] == acc;
    } else if c[0].GTree? {
      var p := Pair(c[0].name, Nested(BuildTreeHash([], c[0].contents)));
      assert MarkTrees(acc, c) == MarkTrees(acc + [p], c[1..]) by {
        assert !HasKey(acc, c[0].name);
      }
      assert UniqueNames(c[1..]) && KindFresh(acc + [p], c[1..], true) by {
        KindFreshStep(acc, c, true, p);
      }
      MarkTreesFresh(acc + [p], c[1..]);
      assert TreeMarks(c) == [p] + TreeMarks(c[1..]);
      ConsAssoc(acc, p, TreeMarks(c[1..]));
      assert MarkTrees(acc, c) == acc + [p] + TreeMarks(c[1..]);
    } else {
      KindFreshTail(acc, c, true);
      MarkTreesFresh(acc, c[1..]);
      assert MarkTrees(acc, c) == MarkTrees(acc, c[1..]);
      assert TreeMarks(c) == [] + TreeMarks(c[1..]) == TreeMarks(c[1..]);
    }
  }

  /** Blob names and subtree names of `c` never meet in the tombstone
      hash when names are unique. */
  lemma BlobMarksKeys(c: Contents, k: string)
    ensures HasKey(BlobMarks(c), k) ==> exists i :: 0 <= i < |c| && c[i].GBlob? && c[i].name == k
    decreases c
  {
    if c != [] && HasKey(BlobMarks(c), k) {
      var head := if c[0].GBlob? then [Pair(c[0].name, Falsy)] else [];
      AppendHasKey(head, BlobMarks(c[1..]), k);
      if HasKey(BlobMarks(c[1..]), k) {
        BlobMarksKeys(c[1..], k);
        var i :| 0 <= i < |c[1..]| && c[1..][i].GBlob? && c[1..][i].name == k;
        assert c[i + 1] == c[1..][i];
      } else {
        assert c[0].GBlob? && c[0].name == k;
      }
    }
  }

  lemma BuildTreeHashEmpty(c: Contents)
    requires UniqueNames(c)
    ensures BuildTreeHash([], c) == BlobMarks(c) + TreeMarks(c)
  {
    MarkBlobsFresh([], c);
    assert [] + BlobMarks(c) == BlobMarks(c);
    assert KindFresh(BlobMarks(c), c, true) by {
      forall i | 0 <= i < |c| && c[i].GTree? ensures !HasKey(BlobMarks(c), c[i].name) {
        BlobMarksKeys(c, c[i].name);
        assert forall j :: 0 <= j < |c| && c[j].GBlob? ==> c[j].name != c[i].name;
      }
    }
    MarkTreesFresh(BlobMarks(c), c);
  }

  /** The names of the blobs directly in `c`. */
  function BlobNames(c: Contents): (r: set<string>)
    ensures forall i :: 0 <= i < |c| && c[i].GBlob? ==> c[i].name in r
  {
    if c == [] then {}
    else (if c[0].GBlob? then {c[0].name} else {}) + BlobNames(c[1..])
  }

  /** `c` without the blobs whose names are in `names`. */
  function KeepNotIn(c: Contents, names: set<string>): Contents {
    if c == [] then []
    else (if c[0].GBlob? && c[0].name in names then [] else [c[0]]) + KeepNotIn(c[1..], names)
  }

  lemma {:induction false} RemoveBlobKeep(c: Contents, name: string)
    ensures RemoveBlob(c, name) == KeepNotIn(c, {name})
  {
    if c != [] {
      RemoveBlobKeep(c[1..], name);
    }
  }

  lemma {:induction false} KeepTwice(c: Contents, a: set<string>, b: set<string>)
    ensures KeepNotIn(KeepNotIn(c, a), b) == KeepNotIn(c, a + b)
  {
    if c != [] {
      KeepTwice(c[1..], a, b);
      var head := if c[0].GBlob? && c[0].name in a then [] else [c[0]];
      assert KeepNotIn(c, a) == head + KeepNotIn(c[1..], a);
      KeepAppend(head, KeepNotIn(c[1..], a), b);
    }
  }

  lemma {:induction false} KeepAppend(x: Contents, y: Contents, names: set<string>)
    ensures KeepNotIn(x + y, names) == KeepNotIn(x, names) + KeepNotIn(y, names)
  {
    if x != [] {
      assert (x + y)[0] == x[0] && (x + y)[1..] == x[1..] + y;
      KeepAppend(x[1..], y, names);
    } else {
      assert x + y == y;
    }
  }

  lemma {:induction false} KeepAllBlobs(c: Contents, names: set<string>)
    requires forall i :: 0 <= i < |c| && c[i].GBlob? ==> c[i].name in names
    ensures KeepNotIn(c, names) == Trees(c)
  {
    if c != [] {
      assert forall i :: 0 <= i < |c[1..]| ==> c[1..][i] == c[i + 1];
      KeepAllBlobs(c[1..], names);
    }
  }

  /** Writing the blob tombstones of `d` deletes exactly the blobs with
      those names. */
  lemma {:induction false} WriteBlobMarks(d: Contents, x: Contents)
    ensures WriteTree(BlobMarks(d), x) == KeepNotIn(x, BlobNames(d))
    decreases d
  {
    if d == [] {
      KeepNone(x);
    } else if d[0].GBlob? {
      var p := Pair(d[0].name, Falsy);
      assert BlobMarks(d) == [p] + BlobMarks(d[1..]);
      WriteBlobMarks(d[1..], RemoveBlob(x, d[0].name));
      RemoveBlobKeep(x, d[0].name);
      KeepTwice(x, {d[0].name}, BlobNames(d[1..]));
    } else {
      assert BlobMarks(d) == BlobMarks(d[1..]) && BlobNames(d) == BlobNames(d[1..]);
      WriteBlobMarks(d[1..], x);
    }
  }

  lemma {:induction false} KeepNone(c: Contents)
    ensures KeepNotIn(c, {}) == c
  {
    if c != [] {
      KeepNone(c[1..]);
    }
  }

  /** Writing a subtree's tombstone over that subtree, which the prefix
      does not name, replaces it in place by its stripped self. */
  lemma WriteOverTree(pre: Contents, t: GitNode, rest: Contents)
    requires t.GTree? && Child(pre, t.name) == None
    requires WriteTree(BuildTreeHash([], t.contents), t.contents) == Strip(t.contents)
    ensures WriteEntry(Pair(t.name, Nested(BuildTreeHash([], t.contents))), pre + ([t] + rest))
      == pre + ([GTree(t.name, Strip(t.contents))] + rest)
  {
    ChildAppend(pre, [t] + rest, t.name);
    UpsertAppend(pre, [t] + rest, GTree(t.name, Strip(t.contents)));
  }

  /** The later subtrees of a well-formed `c` stay unnamed in the prefix
      once the first node is appended to it. */
  lemma FreshAfterNode(pre: Contents, node: GitNode, c: Contents)
    requires WellFormed(c) && c != [] && node.name == c[0].name
    requires forall i :: 0 <= i < |c| && c[i].GTree? ==> Child(pre, c[i].name) == None
    ensures forall i :: 0 <= i < |c[1..]| && c[1..][i].GTree? ==> Child(pre + [node], c[1..][i].name) == None
  {
    forall i | 0 <= i < |c[1..]| && c[1..][i].GTree? ensures Child(pre + [node], c[1..][i].name) == None {
      assert c[1..][i] == c[i + 1];
      ChildAppend(pre, [node], c[i + 1].name);
    }
  }

  /** Writing the subtree tombstones of a well-formed `c` over its own
      subtrees (after any prefix not naming them) strips each subtree. */
  lemma {:induction false} WriteTreeMarks(pre: Contents, c: Contents)
    requires WellFormed(c)
    requires forall i :: 0 <= i < |c| && c[i].GTree? ==> Child(pre, c[i].name) == None
    ensures WriteTree(TreeMarks(c), pre + Trees(c)) == pre + Strip(c)
    decreases c, 0
  {
    if c == [] {
      assert pre + [] == pre;
    } else {
      assert WellFormed(c[1..]) by {
        forall i | 0 <= i < |c[1..]| ensures c[1..][i] == c[i + 1] { }
      }
      if c[0].GTree? {
        var t := c[0];
        var rest := Trees(c[1..]);
        var node := GTree(t.name, Strip(t.contents));
        assert Trees(c) == [t] + rest;
        assert TreeMarks(c) == [Pair(t.name, Nested(BuildTreeHash([], t.contents)))] + TreeMarks(c[1..]);
        DeleteSubtree(t.contents);
        WriteOverTree(pre, t, rest);
        SeqConsAssoc(pre, t, rest);
        SeqConsAssoc(pre, node, rest);
        FreshAfterNode(pre, node, c);
        WriteTreeMarks(pre + [node], c[1..]);
        assert Strip(c) == [node] + Strip(c[1..]);
        SeqConsAssoc(pre, node, Strip(c[1..]));
      } else {
        assert TreeMarks(c) == TreeMarks(c[1..]) && Trees(c) == Trees(c[1..]) && Strip(c) == Strip(c[1..]);
        assert forall i :: 0 <= i < |c[1..]| ==> c[1..][i] == c[i + 1];
        WriteTreeMarks(pre, c[1..]);
      }
    }
  }

  /** Writing the tombstone of a well-formed tree over that tree deletes
      every blob, at every depth, and keeps every subtree (emptied of
      blobs). */
  lemma {:induction false} DeleteSubtree(c: Contents)
    requires WellFormed(c)
    ensures WriteTree(BuildTreeHash([], c), c) == Strip(c)
    decreases c, 1
  {
    BuildTreeHashEmpty(c);
    WriteTreeAppend(BlobMarks(c), TreeMarks(c), c);
    WriteBlobMarks(c, c);
    KeepAllBlobs(c, BlobNames(c));
    WriteTreeMarks([], c);
    assert [] + Trees(c) == Trees(c);
    assert [] + Strip(c) == Strip(c);
  }

  /** `delete_tree(path, index, branch)` on a fresh transaction: the
      directories of `path` are made hashes in the empty index and the
      tombstone of the tree stored at `path` is built there. Looking up a
      path on a branch without commits, or building from a missing node or
      a blob, calls a method on the wrong object (`NoMethodError`). */
  function DeleteTree(root: Option<Contents>, path: string): (r: Outcome<Staging>)
    ensures root.None? ==> r == Raise(RuntimeFault)
    ensures root.Some? ==> (r.Ok? <==> Slash(root.value, path).Some? && Slash(root.value, path).value.GTree?)
    ensures r.Raise? ==> r.error == RuntimeFault
    ensures r.Ok? ==> SubAt(r.value, Split(path)) == BuildTreeHash([], Slash(root.value, path).value.contents)
  {
    if root.None? then Raise(RuntimeFault)
    else
      var node := Slash(root.value, path);
      if node.None? || node.value.GBlob? then Raise(RuntimeFault)
      else
        SubAtUpdate([], Split(path), BuildTreeHash([], node.value.contents));
        Ok(UpdateAt([], Split(path), BuildTreeHash([], node.value.contents)))
  }

  /** `Model.delete(id)`: the tombstone of `subdir/id` is committed on
      `branch`. */
  function Delete(repo: Repo, subdir: string, id: string, branch: string): (r: Outcome<TxResult>)
    ensures r.Ok? <==> DeleteTree(CurrentTree(repo, branch), Join(subdir, id)).Ok?
  {
    var staged :- DeleteTree(CurrentTree(repo, branch), Join(subdir, id));
    Ok(Execute(repo, branch, staged))
  }

  /** `Model.delete_all`: the tombstone of the whole `subdir` is committed
      on `branch`. */
  function DeleteAll(repo: Repo, subdir: string, branch: string): (r: Outcome<TxResult>)
    ensures r.Ok? <==> DeleteTree(CurrentTree(repo, branch), subdir).Ok?
  {
    var staged :- DeleteTree(CurrentTree(repo, branch), subdir);
    Ok(Execute(repo, branch, staged))
  }

  /** The subtree `dir/name` of a root, if there is one. */
  function RecordDir(root: Contents, dir: string, name: string): Option<GitNode> {
    Walk(Some(GTree("", root)), [dir, name])
  }

  /** Deleting a stored record leaves its directory in place with every
      blob, at every depth, removed. */
  lemma DeleteRemovesBlobs(repo: Repo, subdir: string, id: string, branch: string)
    requires ValidName(subdir) && ValidName(id)
    requires branch in repo.heads && WellFormed(repo.heads[branch])
    requires RecordDir(repo.heads[branch], subdir, id).Some? && RecordDir(repo.heads[branch], subdir, id).value.GTree?
    ensures Delete(repo, subdir, id, branch).Ok?
    ensures RecordDir(CurrentTree(After(repo, Delete(repo, subdir, id, branch).value), branch).GetOr([]), subdir, id)
      == Some(GTree(id, Strip(RecordDir(repo.heads[branch], subdir, id).value.contents)))
    ensures NoBlobs(Strip(RecordDir(repo.heads[branch], subdir, id).value.contents))
  {
    var root := repo.heads[branch];
    var dir := [subdir, id];
    var cc := RecordDir(root, subdir, id).value.contents;
    SlashJoin(root, subdir, id);
    var t := BuildTreeHash([], cc);
    var staged := UpdateAt([], dir, t);
    assert DeleteTree(CurrentTree(repo, branch), Join(subdir, id)) == Ok(staged);
    ExecuteAfter(repo, branch, staged);
    WalkWritten("", root, dir, t);
    WalkSubContents("", root, dir);
    DeleteSubtree(cc);
    StripNoBlobs(cc);
  }

  /** Deleting every record of a type leaves the type's directory in place
      with every blob below it removed. */
  lemma DeleteAllRemovesBlobs(repo: Repo, subdir: string, branch: string)
    requires ValidName(subdir)
    requires branch in repo.heads && WellFormed(repo.heads[branch])
    requires Child(repo.heads[branch], subdir).Some? && Child(repo.heads[branch], subdir).value.GTree?
    ensures DeleteAll(repo, subdir, branch).Ok?
    ensures Child(CurrentTree(After(repo, DeleteAll(repo, subdir, branch).value), branch).GetOr([]), subdir)
      == Some(GTree(subdir, Strip(Child(repo.heads[branch], subdir).value.contents)))
    ensures NoBlobs(Strip(Child(repo.heads[branch], subdir).value.contents))
  {
    var root := repo.heads[branch];
    var cc := Child(root, subdir).value.contents;
    SlashName(root, subdir);
    var t := BuildTreeHash([], cc);
    var staged := UpdateAt([], [subdir], t);
    assert DeleteTree(CurrentTree(repo, branch), subdir) == Ok(staged);
    ExecuteAfter(repo, branch, staged);
    WalkWritten("", root, [subdir], t);
    WalkSubContents("", root, [subdir]);
    DeleteSubtree(cc);
    StripNoBlobs(cc);
  }

  lemma RecordDirStep(root: Contents, dir: string, name: string)
    ensures RecordDir(root, dir, name) == Step(Child(root, dir), name)
  {
    var segs := [dir, name];
    assert segs[1..] == [name] && [name][1..] == [];
    assert Walk(Some(GTree("", root)), segs) == Walk(Child(root, dir), [name]);
    assert Walk(Child(root, dir), [name]) == Walk(Step(Child(root, dir), name), []);
  }

  /** Writing a hash staged at `dir/name` rewrites only that record's node
      inside that directory's node. */
  lemma WriteRecordPath(root: Contents, dir: string, name: string, t: Staging)
    ensures WriteTree(UpdateAt([], [dir, name], t), root)
      == Upsert(root, GTree(dir, Upsert(SubContents(root, dir),
           GTree(name, WriteTree(t, SubContents(SubContents(root, dir), name))))))
  {
    var segs := [dir, name];
    assert segs[1..] == [name] && [name][1..] == [];
    var inner := [Pair(name, Nested(t))];
    assert UpdateAt([], [name], t) == inner;
    assert UpdateAt([], segs, t) == [Pair(dir, Nested(inner))];
    var sub := SubContents(root, dir);
    var node := GTree(name, WriteTree(t, SubContents(sub, name)));
    assert WriteTree(inner, sub) == Upsert(sub, node) by {
      WriteOne(Pair(name, Nested(t)), sub);
    }
    WriteOne(Pair(dir, Nested(inner)), root);
  }

  lemma WriteOne(p: Pair<Content>, now: Contents)
    ensures WriteTree([p], now) == WriteEntry(p, now)
  {
    assert [p][1..] == [];
  }

  /** Deleting a record changes no other top-level directory and no other
      record of the same type. */
  lemma DeleteKeepsOthers(repo: Repo, subdir: string, id: string, branch: string, other: string)
    requires ValidName(subdir) && ValidName(id)
    requires Delete(repo, subdir, id, branch).Ok?
    ensures var after := CurrentTree(After(repo, Delete(repo, subdir, id, branch).value), branch).GetOr([]);
      && (other != subdir ==> Child(after, other) == Child(repo.heads[branch], other))
      && (other != id ==> RecordDir(after, subdir, other) == RecordDir(repo.heads[branch], subdir, other))
  {
    var root := repo.heads[branch];
    SlashJoin(root, subdir, id);
    RecordDirStep(root, subdir, id);
    var top := Child(root, subdir);
    assert top.Some? && top.value.GTree?;
    var t := BuildTreeHash([], RecordDir(root, subdir, id).value.contents);
    var staged := UpdateAt([], [subdir, id], t);
    assert DeleteTree(CurrentTree(repo, branch), Join(subdir, id)) == Ok(staged);
    ExecuteAfter(repo, branch, staged);
    WriteRecordPath(root, subdir, id, t);
    var inner := GTree(id, WriteTree(t, SubContents(top.value.contents, id)));
    var outer := GTree(subdir, Upsert(top.value.contents, inner));
    var after := Upsert(root, outer);
    assert Child(after, subdir) == Some(outer);
    RecordDirStep(after, subdir, other);
    RecordDirStep(root, subdir, other);
  }

  /** Stripping adds no name the tree did not have. */
  lemma {:induction false} StripNoName(c: Contents, n: string)
    requires !HasChild(c, n)
    ensures Child(Strip(c), n) == None
    decreases c
  {
    if c != [] {
      var head := if c[0].GTree? then [GTree(c[0].name, Strip(c[0].contents))] else [];
      assert c[0].name != n;
      assert Child(head, n) == None;
      assert !HasChild(c[1..], n) by {
        forall i | 0 <= i < |c[1..]| ensures c[1..][i].name != n {
          assert c[1..][i] == c[i + 1];
        }
      }
      StripNoName(c[1..], n);
      ChildAppend(head, Strip(c[1..]), n);
    }
  }

  /** A blob's name is gone from the stripped tree. */
  lemma {:induction false} StripChildBlob(c: Contents, n: string)
    requires WellFormed(c)
    requires Child(c, n).Some? && Child(c, n).value.GBlob?
    ensures Child(Strip(c), n) == None
    decreases c
  {
    var head := if c[0].GTree? then [GTree(c[0].name, Strip(c[0].contents))] else [];
    ChildAppend(head, Strip(c[1..]), n);
    if c[0].name == n {
      assert head == [];
      assert !HasChild(c[1..], n) by {
        forall i | 0 <= i < |c[1..]| ensures c[1..][i].name != n {
          assert c[1..][i] == c[i + 1];
        }
      }
      StripNoName(c[1..], n);
    } else {
      assert WellFormed(c[1..]) by {
        forall i | 0 <= i < |c[1..]| && c[1..][i].GTree? ensures WellFormed(c[1..][i].contents) {
          assert c[1..][i] == c[i + 1];
        }
      }
      assert Child(head, n) == None;
      StripChildBlob(c[1..], n);
    }
  }
}
