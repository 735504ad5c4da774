/** The versioned tree store as Grit presents it: a branch's tip is a root
    tree whose contents are named blobs and subtrees. */
module Store {
  import opened Outcomes
  import opened Values
  import opened FilePaths

  /** A `Grit::Blob` or a `Grit::Tree`. */
  datatype GitNode = GBlob(name: string, data: Data) | GTree(name: string, contents: seq<GitNode>)

  /** The contents of a tree, in Grit's order. */
  type Contents = seq<GitNode>

  /** Each branch that has commits maps to the root tree of its tip; a
      branch without commits is absent. */
  datatype Repo = Repo(heads: map<string, Contents>)

  /** `GitModel.current_tree(branch)`: `nil` when the branch has no commits. */
  function CurrentTree(repo: Repo, branch: string): (t: Option<Contents>)
    ensures t.Some? <==> branch in repo.heads
  {
    if branch in repo.heads then Some(repo.heads[branch]) else None
  }

  predicate HasChild(c: Contents, name: string) {
    exists i :: 0 <= i < |c| && c[i].name == name
  }

  /** `contents.find { |c| c.name == name }`. */
  function Child(c: Contents, name: string): (r: Option<GitNode>)
    ensures r.Some? <==> HasChild(c, name)
    ensures r.Some? ==> r.value.name == name && r.value in c
  {
    if c == [] then None
    else if c[0].name == name then
      assert c[0].name == name;
      Some(c[0])
    else
      var r := Child(c[1..], name);
      assert HasChild(c, name) ==> HasChild(c[1..], name) by {
        if HasChild(c, name) {
          var i :| 0 <= i < |c| && c[i].name == name;
          assert i > 0 && c[1..][i - 1].name == name;
        }
      }
      assert HasChild(c[1..], name) ==> HasChild(c, name) by {
        if HasChild(c[1..], name) {
          var i :| 0 <= i < |c[1..]| && c[1..][i].name == name;
          assert c[i + 1].name == name;
        }
      }
      r
  }

  /** `tree.blobs.any?`: the tree holds at least one blob directly. */
  predicate AnyBlob(c: Contents) {
    exists i :: 0 <= i < |c| && c[i].GBlob?
  }

  /** The names of the subtrees, in order (`tree.trees.map(&:name)`). */
  function TreeNames(c: Contents): (r: seq<string>)
    ensures forall n :: n in r <==> exists i :: 0 <= i < |c| && c[i].GTree? && c[i].name == n
  {
    if c == [] then []
    else
      var rest := TreeNames(c[1..]);
      assert forall i :: 1 <= i < |c| ==> c[i] == c[1..][i - 1];
      (if c[0].GTree? then [c[0].name] else []) + rest
  }

  /** The subtrees, in order (`tree.trees`). */
  function Trees(c: Contents): (r: Contents)
    ensures forall n :: n in r <==> n in c && n.GTree?
  {
    if c == [] then []
    else (if c[0].GTree? then [c[0]] else []) + Trees(c[1..])
  }

  /** Names are unique within every tree (git refuses duplicate entries). */
  predicate WellFormed(c: Contents) {
    && (forall i, j :: 0 <= i < j < |c| ==> c[i].name != c[j].name)
    && (forall i :: 0 <= i < |c| && c[i].GTree? ==> WellFormed(c[i].contents))
  }

  /** One step of `inject` in `Grit::Tree#/`: `acc/x rescue nil`. */
  function Step(acc: Option<GitNode>, name: string): Option<GitNode> {
    match acc
    case Some(GTree(_, c)) => Child(c, name)
    case _ => None
  }

  /** Descending segment by segment from a node. */
  function Walk(acc: Option<GitNode>, segs: seq<string>): Option<GitNode>
    decreases |segs|
  {
    if segs == [] then acc else Walk(Step(acc, segs[0]), segs[1..])
  }

  /** `tree / file` on a tree with contents `c`: a name without a separator
      is looked up directly, a path is split and walked. */
  function Slash(c: Contents, file: string): Option<GitNode> {
    if '/' in file then Walk(Some(GTree("", c)), Split(file)) else Child(c, file)
  }

  lemma {:induction false} ChildAppend(a: Contents, b: Contents, name: string)
    ensures Child(a + b, name) == if Child(a, name).Some? then Child(a, name) else Child(b, name)
  {
    if a != [] {
      assert (a + b)[0] == a[0] && (a + b)[1..] == a[1..] + b;
      ChildAppend(a[1..], b, name);
    } else {
      assert a + b == b;
    }
  }

  lemma SeqConsAssoc<T>(a: seq<T>, x: T, b: seq<T>)
    ensures a + [x] + b == a + ([x] + b)
  {
  }

  /** Nothing is found below a missing node. */
  lemma {:induction false} WalkNone(segs: seq<string>)
    ensures Walk(None, segs) == None
    decreases |segs|
  {
    if segs != [] {
      WalkNone(segs[1..]);
    }
  }

  /** A subtree found in a well-formed tree is well-formed. */
  lemma ChildWellFormed(c: Contents, name: string)
    requires WellFormed(c)
    requires Child(c, name).Some? && Child(c, name).value.GTree?
    ensures WellFormed(Child(c, name).value.contents)
  {
    var n := Child(c, name).value;
    var i :| 0 <= i < |c| && c[i] == n;
  }

  /** A name without a separator is looked up as a one-segment walk. */
  lemma SlashName(c: Contents, name: string)
    requires ValidName(name)
    ensures Slash(c, name) == Walk(Some(GTree("", c)), [name])
    ensures Split(name) == [name]
  {
    FieldsOfName(name);
  }

  /** A record path `subdir/id` is walked as its two segments. */
  lemma SlashJoin(c: Contents, dir: string, name: string)
    requires ValidName(dir) && ValidName(name)
    ensures Split(Join(dir, name)) == [dir, name]
    ensures Slash(c, Join(dir, name)) == Walk(Some(GTree("", c)), [dir, name])
  {
    SplitJoinAll(dir, [name]);
    FieldsOfName(dir);
    assert Join(dir, name) == dir + "/" + name;
    assert Join(dir, name)[|dir|] == '/';
  }
}
