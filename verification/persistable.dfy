/** A persisted record: its in-memory state, the accessors a model class
    declares, and `save`, `load`, `exists?`, `find` and `delete` against
    the store. */
module Persistable {
  import opened Outcomes
  import opened Values
  import opened Hashes
  import opened FilePaths
  import opened Store
  import opened TreeContents
  import opened Transaction
  import opened Tombstones

  /** The blob holding a record's attributes, inside the record's directory. */
  const AttributesFile: string := "attributes.json"

  /** The attributes blob's name is a single path segment. */
  lemma AttributesFileValid()
    ensures ValidName(AttributesFile)
  {
    forall i | 0 <= i < |AttributesFile| ensures AttributesFile[i] != '/' {
    }
  }

  /** The branch Grit's `Repo#commits` lists when asked for any commits. */
  const Master: string := "master"

  /** One declaration in a model class body. */
  datatype Field =
    | Attribute(name: string, default: Val)   // `attribute :name, :default => ...`
    | BlobField(name: string)                 // `blob :name`
    | TreeField(name: string)                 // `tree :name`

  /** A model class: its directory under the repository root (`db_subdir`,
      the tableized class name) and its declarations, in order. */
  datatype ModelClass = ModelClass(subdir: string, fields: seq<Field>)

  /** The instance variables of a record. `path`, `branch` and `tree` are
      memos that are `nil` until first read or assigned. */
  datatype Record = Record(
    id: Option<string>,
    path: Option<string>,
    branch: Option<string>,
    newRecord: bool,
    attributes: Attrs,
    tree: Option<Tree>,
    frozen: bool)

  /** The declaration behind the accessor `name`: a later declaration of the
      same name redefines the methods of an earlier one. */
  function FieldNamed(fields: seq<Field>, name: string): (r: Option<Field>)
    ensures r.Some? ==> r.value in fields && r.value.name == name
    ensures r.None? ==> forall i :: 0 <= i < |fields| ==> fields[i].name != name
    decreases |fields|
  {
    if fields == [] then None
    else if fields[|fields| - 1].name == name then Some(fields[|fields| - 1])
    else FieldNamed(fields[..|fields| - 1], name)
  }

  // ---------------------------------------------------------------------
  // The tree memo and the declared accessors

  /** The `tree` reader: the memo, made an empty hash on first read. Making
      it assigns an instance variable, which a frozen record refuses. */
  function TreeOf(r: Record): (o: Outcome<(Record, Tree)>)
    ensures r.tree.Some? ==> o == Ok((r, r.tree.value))
    ensures o.Raise? <==> r.tree.None? && r.frozen
    ensures o.Raise? ==> o.error == FrozenRecord
    ensures r.tree.None? && !r.frozen ==> o.value.1 == []
    ensures o.Ok? ==> o.value.0.tree == Some(o.value.1) && o.value.0.(tree := r.tree) == r
  {
    if r.tree.Some? then Ok((r, r.tree.value))
    else if r.frozen then Raise(FrozenRecord)
    else Ok((r.(tree := Some([])), []))
  }

  /** Reading the tree again returns the same record and tree: the first
      read memoised it. */
  lemma TreeOfMemoised(r: Record)
    requires TreeOf(r).Ok?
    ensures TreeOf(TreeOf(r).value.0) == TreeOf(r)
  {
  }

  /** The reader `attribute :name` defines: the stored value unless it is
      `nil` or `false`, else the declared default. */
  function AttributeGet(r: Record, name: string, default: Val): (v: Val)
    ensures Truthy(Read(r.attributes, name)) ==> v == r.attributes[name]
    ensures !Truthy(Read(r.attributes, name)) ==> v == default
  {
    var stored := Read(r.attributes, name);
    if Truthy(stored) then stored else default
  }

  /** The writer `attribute :name` defines: stores into the attribute hash,
      which is not itself frozen by `freeze`. */
  function AttributeSet(r: Record, name: string, v: Val): (q: Record)
    ensures q.attributes == r.attributes[name := v]
    ensures q.(attributes := r.attributes) == r
  {
    r.(attributes := r.attributes[name := v])
  }

  /** The reader `blob :name` defines: `tree[name]`. */
  function BlobGet(r: Record, name: string): (o: Outcome<(Record, Option<Content>)>)
    ensures o.Ok? <==> TreeOf(r).Ok?
    ensures o.Ok? ==> o.value.0 == TreeOf(r).value.0 && o.value.1 == Get(TreeOf(r).value.1, name)
  {
    var (q, t) :- TreeOf(r);
    Ok((q, Get(t, name)))
  }

  /** The writer `blob :name` (and `tree :name`) defines: `tree[name] = v`;
      an indifferent-access hash converts a hash value on assignment. */
  function BlobSet(r: Record, name: string, v: Content): (o: Outcome<Record>)
    ensures o.Ok? <==> TreeOf(r).Ok?
    ensures o.Ok? ==> o.value.tree.Some? && Get(o.value.tree.value, name) == Some(ConvertValue(v))
    ensures o.Ok? ==> forall k :: k != name ==> Get(o.value.tree.value, k) == Get(TreeOf(r).value.1, k)
    ensures o.Ok? ==> o.value.(tree := r.tree) == r
  {
    var (q, t) :- TreeOf(r);
    Ok(q.(tree := Some(Put(t, name, ConvertValue(v)))))
  }

  /** Ruby truthiness of a payload value. */
  predicate ContentTruthy(v: Content) {
    !(v.Nil? || v.Falsy?)
  }

  /** The reader `tree :name` defines: `tree[name]`, or a new empty hash
      stored there when the entry is missing, `nil` or `false`. */
  function TreeFieldGet(r: Record, name: string): (o: Outcome<(Record, Content)>)
    ensures o.Ok? <==> TreeOf(r).Ok?
    ensures o.Ok? ==> o.value.0.tree.Some? && Get(o.value.0.tree.value, name) == Some(o.value.1)
    ensures o.Ok? ==> ContentTruthy(o.value.1)
  {
    var (q, t) :- TreeOf(r);
    var stored := Get(t, name);
    if stored.Some? && ContentTruthy(stored.value) then Ok((q, stored.value))
    else Ok((q.(tree := Some(Put(t, name, Nested([])))), Nested([])))
  }

  /** Reading an attribute after writing it gives the value written, or
      the default when the value written is `nil` or `false`. */
  lemma AttributeSetGet(r: Record, name: string, v: Val, default: Val)
    ensures AttributeGet(AttributeSet(r, name, v), name, default) == if Truthy(v) then v else default
  {
    assert Read(AttributeSet(r, name, v).attributes, name) == v;
  }

  /** Writing one attribute leaves the reader of every other unchanged. */
  lemma AttributeSetOther(r: Record, name: string, other: string, v: Val, default: Val)
    requires other != name
    ensures AttributeGet(AttributeSet(r, name, v), other, default) == AttributeGet(r, other, default)
  {
    assert Read(AttributeSet(r, name, v).attributes, other) == Read(r.attributes, other);
  }

  /** Reading a blob after writing it gives the converted value back, from
      the record the write returned. */
  lemma BlobSetGet(r: Record, name: string, v: Content)
    requires BlobSet(r, name, v).Ok?
    ensures BlobGet(BlobSet(r, name, v).value, name) == Ok((BlobSet(r, name, v).value, Some(ConvertValue(v))))
  {
  }

  /** Writing one blob leaves the reader of every other name as it was
      after a plain read of the tree. */
  lemma BlobSetOther(r: Record, name: string, other: string, v: Content)
    requires BlobSet(r, name, v).Ok? && other != name
    ensures BlobGet(BlobSet(r, name, v).value, other).Ok?
    ensures BlobGet(BlobSet(r, name, v).value, other).value.1 == BlobGet(r, other).value.1
  {
  }

  /** Reading a tree field after assigning it a hash gives the converted
      hash back. */
  lemma TreeFieldSetGet(r: Record, name: string, h: Tree)
    requires BlobSet(r, name, Nested(h)).Ok?
    ensures TreeFieldGet(BlobSet(r, name, Nested(h)).value, name)
      == Ok((BlobSet(r, name, Nested(h)).value, ConvertValue(Nested(h))))
  {
    assert ConvertValue(Nested(h)).Nested?;
  }

  /** A tree field read twice gives the same hash: the first read stored
      the empty hash it made. */
  lemma TreeFieldGetTwice(r: Record, name: string)
    requires TreeFieldGet(r, name).Ok?
    ensures TreeFieldGet(TreeFieldGet(r, name).value.0, name) == TreeFieldGet(r, name)
  {
  }

  // ---------------------------------------------------------------------
  // Construction

  /** A value given to `new` for one writer. */
  datatype Arg =
    | IdArg(id: Option<string>)              // `:id => ...`
    | AttributesArg(attrs: Option<Attrs>)    // `:attributes => ...` (`nil` clears)
    | TreeArgument(data: TreeArg)            // `:tree => ...`
    | AttrArg(name: string, value: Val)      // a scalar for a declared accessor
    | PayloadArg(name: string, payload: Content)  // a payload value for a declared accessor

  /** A scalar as a payload value: a string is blob data, `false` the
      deletion sentinel, `nil` itself, anything else is ignored when saved. */
  function ScalarContent(v: Val): (c: Content)
    ensures v.Str? ==> c == Content.Str(Text(v.s))
    ensures v == Bool(false) <==> c.Falsy?
    ensures v.Nil? <==> c.Nil?
  {
    match v
    case Str(s) => Content.Str(Text(s))
    case Nil => Content.Nil
    case Bool(b) => if b then Opaque else Falsy
    case _ => Opaque
  }

  /** `self.send("#{k}=", v)` for one argument of `new`. */
  function Send(cls: ModelClass, r: Record, a: Arg): (o: Outcome<Record>)
    ensures a.IdArg? ==> o == (if r.frozen then Raise(FrozenRecord) else Ok(r.(id := a.id)))
    ensures a.AttributesArg? ==> o == (if r.frozen then Raise(FrozenRecord) else Ok(r.(attributes := a.attrs.GetOr(map[]))))
    ensures a.TreeArgument? ==> o == (if r.frozen then Raise(FrozenRecord) else Ok(r.(tree := Some(AssignTree(a.data)))))
    ensures (a.AttrArg? || a.PayloadArg?) && FieldNamed(cls.fields, a.name).None? ==> o == Raise(RuntimeFault)
    ensures o.Ok? ==> o.value.newRecord == r.newRecord && o.value.path == r.path && o.value.branch == r.branch
    ensures o.Ok? ==> o.value.frozen == r.frozen
  {
    match a
    case IdArg(id) => if r.frozen then Raise(FrozenRecord) else Ok(r.(id := id))
    case AttributesArg(attrs) => if r.frozen then Raise(FrozenRecord) else Ok(r.(attributes := attrs.GetOr(map[])))
    case TreeArgument(data) => if r.frozen then Raise(FrozenRecord) else Ok(r.(tree := Some(AssignTree(data))))
    case AttrArg(name, v) =>
      var f := FieldNamed(cls.fields, name);
      if f.None? then Raise(RuntimeFault)
      else if f.value.Attribute? then Ok(AttributeSet(r, name, v))
      else BlobSet(r, name, ScalarContent(v))
    case PayloadArg(name, v) =>
      var f := FieldNamed(cls.fields, name);
      if f.None? || f.value.Attribute? then Raise(RuntimeFault)
      else BlobSet(r, name, v)
  }

  /** The state `initialize` starts from: a new record with no attributes. */
  const Blank: Record := Record(None, None, None, true, map[], None, false)

  /** Applying the arguments of `new` in order. */
  function SendAll(cls: ModelClass, r: Record, args: seq<Arg>): (o: Outcome<Record>)
    ensures o.Ok? ==> o.value.newRecord == r.newRecord && o.value.path == r.path && o.value.branch == r.branch
    ensures o.Ok? ==> o.value.frozen == r.frozen
    decreases |args|
  {
    if args == [] then Ok(r)
    else
      var q :- Send(cls, r, args[0]);
      SendAll(cls, q, args[1..])
  }

  /** `Model.new(args)`: a new record, with no path or branch chosen yet. */
  function New(cls: ModelClass, args: seq<Arg>): (o: Outcome<Record>)
    ensures args == [] ==> o == Ok(Blank)
    ensures o.Ok? ==> o.value.newRecord && !o.value.frozen && o.value.path.None? && o.value.branch.None?
  {
    SendAll(cls, Blank, args)
  }

  // ---------------------------------------------------------------------
  // Path and branch memos

  /** The `path` reader: the memo, or `subdir/id` remembered on first read.
      Joining a `nil` id raises a `TypeError`. */
  function PathOf(cls: ModelClass, r: Record): (o: Outcome<(Record, string)>)
    ensures r.path.Some? ==> o == Ok((r, r.path.value))
    ensures r.path.None? && r.id.None? ==> o == Raise(RuntimeFault)
    ensures r.path.None? && r.id.Some? && !r.frozen ==> o == Ok((r.(path := Some(Join(cls.subdir, r.id.value))), Join(cls.subdir, r.id.value)))
    ensures o.Ok? ==> o.value.0.path == Some(o.value.1)
  {
    if r.path.Some? then Ok((r, r.path.value))
    else if r.id.None? then Raise(RuntimeFault)
    else if r.frozen then Raise(FrozenRecord)
    else
      var p := Join(cls.subdir, r.id.value);
      Ok((r.(path := Some(p)), p))
  }

  /** The `branch` reader: the memo, or the default branch remembered on
      first read. */
  function BranchOf(r: Record, defaultBranch: string): (o: Outcome<(Record, string)>)
    ensures r.branch.Some? ==> o == Ok((r, r.branch.value))
    ensures r.branch.None? && !r.frozen ==> o == Ok((r.(branch := Some(defaultBranch)), defaultBranch))
    ensures o.Ok? ==> o.value.0.branch == Some(o.value.1)
  {
    if r.branch.Some? then Ok((r, r.branch.value))
    else if r.frozen then Raise(FrozenRecord)
    else Ok((r.(branch := Some(defaultBranch)), defaultBranch))
  }

  // ---------------------------------------------------------------------
  // Existence and saving

  /** `Model.exists?(id, branch)`: the repository has commits and the
      record's `attributes.json` is found on `branch`. Looking it up on a
      branch without commits calls `/` on `nil`. */
  function Exists(cls: ModelClass, repo: Repo, id: string, branch: string): (o: Outcome<bool>)
    ensures Master !in repo.heads ==> o == Ok(false)
    ensures Master in repo.heads && branch !in repo.heads ==> o == Raise(RuntimeFault)
    ensures Master in repo.heads && branch in repo.heads ==>
      o == Ok(Slash(repo.heads[branch], JoinAll(cls.subdir, [id, AttributesFile])).Some?)
  {
    if Master !in repo.heads then Ok(false)
    else if branch !in repo.heads then Raise(RuntimeFault)
    else Ok(Slash(repo.heads[branch], JoinAll(cls.subdir, [id, AttributesFile])).Some?)
  }

  /** What `save` hands back: the record's new state and the transaction's
      result (`NoChange` is the falsy result). */
  datatype SaveEffect = SaveEffect(record: Record, result: TxResult)

  /** What `save` stages: every leaf of the tree under the record's `path`,
      then the encoded attributes at `subdir/id/attributes.json`, last. */
  function SaveLeaves(path: string, tree: Tree, dir: string, attrs: Attrs): (ls: seq<Leaf>)
    ensures |ls| > 0 && ls[|ls| - 1] == Leaf(Join(dir, AttributesFile), Content.Str(Encode(attrs)))
    ensures ls[..|ls| - 1] == Paths(path, tree)
  {
    Paths(path, tree) + [Leaf(Join(dir, AttributesFile), Content.Str(Encode(attrs)))]
  }

  /** The index `save` builds from an empty one. */
  function SaveStaging(path: string, tree: Tree, dir: string, attrs: Attrs): Staging {
    Stage([], SaveLeaves(path, tree, dir, attrs))
  }

  /** The checks `save` makes before staging anything: an id, then
      existence on the default branch matching whether the record is new.
      Passing them yields the id. */
  function SaveCheck(cls: ModelClass, repo: Repo, defaultBranch: string, r: Record): (o: Outcome<string>)
    ensures r.id.None? ==> o == Raise(NullId)
    ensures r.id.Some? && r.newRecord && Exists(cls, repo, r.id.value, defaultBranch) == Ok(true) ==> o == Raise(RecordExists)
    ensures r.id.Some? && !r.newRecord && Exists(cls, repo, r.id.value, defaultBranch) == Ok(false) ==> o == Raise(RecordDoesntExist)
    ensures o.Ok? <==> r.id.Some? && Exists(cls, repo, r.id.value, defaultBranch) == Ok(!r.newRecord)
    ensures o.Ok? ==> o.value == r.id.value
  {
    if r.id.None? then Raise(NullId)
    else
      var found :- Exists(cls, repo, r.id.value, defaultBranch);
      if r.newRecord && found then Raise(RecordExists)
      else if !r.newRecord && !found then Raise(RecordDoesntExist)
      else Ok(r.id.value)
  }

  /** The transaction `save` runs once the checks pass, and the record's
      bookkeeping after it. */
  function SaveWrite(cls: ModelClass, repo: Repo, r: Record, id: string, branch: string): (o: Outcome<SaveEffect>)
    ensures o.Ok? && o.value.result.Committed? ==>
      && o.value.record.path == Some(Join(cls.subdir, id))
      && o.value.record.branch == Some(branch)
      && !o.value.record.newRecord
    ensures o.Ok? && o.value.result.NoChange? ==>
      o.value.record.branch == r.branch && o.value.record.newRecord == r.newRecord
    ensures o.Ok? ==> o.value.record.id == r.id && o.value.record.attributes == r.attributes
    ensures o.Ok? ==> o.value.record.frozen == r.frozen
  {
    var dir := Join(cls.subdir, id);
    var (r1, p) :- PathOf(cls, r);
    var (r2, t) :- TreeOf(r1);
    SaveResult(r2, dir, branch, Execute(repo, branch, SaveStaging(p, t, dir, r2.attributes)))
  }

  /** `if result` after the transaction: a commit moves the record to
      `dir` on the transaction's branch and marks it persisted. */
  function SaveResult(r: Record, dir: string, branch: string, result: TxResult): (o: Outcome<SaveEffect>)
    ensures o.Ok? ==> o.value.result == result
    ensures result.Committed? && r.frozen ==> o == Raise(FrozenRecord)
    ensures o.Ok? && result.Committed? ==>
      o.value.record == r.(path := Some(dir), branch := Some(branch), newRecord := false)
    ensures result.NoChange? ==> o == Ok(SaveEffect(r, result))
  {
    if result.NoChange? then Ok(SaveEffect(r, result))
    else if r.frozen then Raise(FrozenRecord)
    else Ok(SaveEffect(r.(path := Some(dir), branch := Some(branch), newRecord := false), result))
  }

  /** `record.save` with a transaction on `branch`: it checks the id, then
      existence on the default branch, before staging anything; on a
      commit the record remembers its directory and branch and is no
      longer new. */
  function Save(cls: ModelClass, repo: Repo, defaultBranch: string, r: Record, branch: string): (o: Outcome<SaveEffect>)
    ensures SaveCheck(cls, repo, defaultBranch, r).Raise? ==> o == Raise(SaveCheck(cls, repo, defaultBranch, r).error)
    ensures o.Ok? ==> r.id.Some? && Exists(cls, repo, r.id.value, defaultBranch) == Ok(!r.newRecord)
    ensures o.Ok? && o.value.result.Committed? ==>
      && o.value.record.path == Some(Join(cls.subdir, r.id.value))
      && o.value.record.branch == Some(branch)
      && !o.value.record.newRecord
    ensures o.Ok? && o.value.result.NoChange? ==>
      o.value.record.branch == r.branch && o.value.record.newRecord == r.newRecord
    ensures o.Ok? ==> o.value.record.id == r.id && o.value.record.attributes == r.attributes
    ensures o.Ok? ==> o.value.record.frozen == r.frozen
  {
    var id :- SaveCheck(cls, repo, defaultBranch, r);
    SaveWrite(cls, repo, r, id, branch)
  }

  /** `record.save!`: `save`, with a falsy result raised as RecordNotSaved. */
  function SaveBang(cls: ModelClass, repo: Repo, defaultBranch: string, r: Record, branch: string): (o: Outcome<SaveEffect>)
    ensures o == Raise(RecordNotSaved) <==>
      Save(cls, repo, defaultBranch, r, branch) == Raise(RecordNotSaved)
      || (Save(cls, repo, defaultBranch, r, branch).Ok? && Save(cls, repo, defaultBranch, r, branch).value.result.NoChange?)
    ensures o.Ok? <==> Save(cls, repo, defaultBranch, r, branch).Ok? && Save(cls, repo, defaultBranch, r, branch).value.result.Committed?
    ensures o.Ok? ==> o == Save(cls, repo, defaultBranch, r, branch)
  {
    var e :- Save(cls, repo, defaultBranch, r, branch);
    if e.result.NoChange? then Raise(RecordNotSaved) else Ok(e)
  }

  // ---------------------------------------------------------------------
  // Loading

  /** The state a load leaves the record in, and what it raised, if
      anything: the assignments made before a raise stay visible. */
  datatype Loaded = Loaded(record: Record, error: Option<Error>)

  /** `contents.reject { |b| b.name == name }`. */
  function Reject(c: Contents, name: string): (r: Contents)
    ensures |r| <= |c|
  {
    if c == [] then []
    else (if c[0].name == name then [] else [c[0]]) + Reject(c[1..], name)
  }

  /** The nodes kept are exactly those of `c` not named `name`. */
  lemma {:induction false} RejectKeeps(c: Contents, name: string)
    ensures forall i :: 0 <= i < |Reject(c, name)| ==> Reject(c, name)[i] in c && Reject(c, name)[i].name != name
    ensures forall i :: 0 <= i < |c| && c[i].name != name ==> c[i] in Reject(c, name)
  {
    if c != [] {
      RejectKeeps(c[1..], name);
      var x := if c[0].name == name then [] else [c[0]];
      var t := Reject(c[1..], name);
      var r := Reject(c, name);
      assert r == x + t;
      assert c == [c[0]] + c[1..];
      forall i | 0 <= i < |r| ensures r[i] in c && r[i].name != name {
        if i >= |x| {
          assert r[i] == t[i - |x|];
        }
      }
      forall i | 0 <= i < |c| && c[i].name != name ensures c[i] in r {
        if i > 0 {
          assert c[i] == c[1..][i - 1];
        }
      }
    }
  }

  /** The body of `load(dir, branch)`, with the error raised when the
      record's directory holds no `attributes.json` blob as a parameter. */
  function LoadWith(r: Record, repo: Repo, dir: string, branch: string, noAttributes: Error): (l: Loaded)
    ensures r.frozen ==> l == Loaded(r, Some(FrozenRecord))
    ensures !r.frozen ==> l.record.path == Some(StripDotDot(dir)) && l.record.branch == Some(branch)
    ensures !r.frozen && branch !in repo.heads ==> l == Loaded(r.(path := Some(StripDotDot(dir)), branch := Some(branch)), Some(RecordNotFound))
    ensures !r.frozen && branch in repo.heads ==> l.record.id == Some(Basename(StripDotDot(dir))) && !l.record.newRecord
    ensures !r.frozen && branch in repo.heads && Slash(repo.heads[branch], StripDotDot(dir)).None? ==> l.error == Some(RecordNotFound)
    ensures l.error.None? ==> l.record.tree.Some? && !HasKey(l.record.tree.value, AttributesFile)
  {
    if r.frozen then Loaded(r, Some(FrozenRecord))
    else
      var d := StripDotDot(dir);
      var r1 := r.(path := Some(d), branch := Some(branch));
      if branch !in repo.heads then Loaded(r1, Some(RecordNotFound))
      else
        var r2 := r1.(id := Some(Basename(d)), newRecord := false);
        var raw := Slash(repo.heads[branch], d);
        if raw.None? then Loaded(r2, Some(RecordNotFound))
        else if raw.value.GBlob? then Loaded(r2, Some(RuntimeFault))
        else
          var blob := Child(raw.value.contents, AttributesFile);
          if blob.None? then Loaded(r2, Some(noAttributes))
          else if blob.value.GTree? then Loaded(r2, Some(RuntimeFault))
          else
            var attrs := Decode(blob.value.data);
            if attrs.Raise? then Loaded(r2, Some(attrs.error))
            else
              var rest := Reject(raw.value.contents, AttributesFile);
              RejectAbsent(raw.value.contents, AttributesFile);
              Loaded(r2.(attributes := attrs.value, tree := Some(AssignTree(FromNodes(rest)))), None)
  }

  /** Reading back nodes none of which has a name gives a hash without that
      key. */
  lemma RejectAbsent(c: Contents, name: string)
    ensures !HasKey(AssignTree(FromNodes(Reject(c, name))), name)
  {
    var rest := Reject(c, name);
    RejectKeeps(c, name);
    HashFromGitAbsent([], rest, name);
    ConvertKeys(HashFromGit(rest), name);
  }

  lemma {:induction false} HashFromGitAbsent(acc: Tree, nodes: Contents, name: string)
    requires !HasKey(acc, name)
    requires forall i :: 0 <= i < |nodes| ==> nodes[i].name != name
    ensures !HasKey(HashFromGitInto(acc, nodes), name)
    decreases nodes
  {
    if nodes != [] {
      var next := Put(acc, nodes[0].name, NodeValue(nodes[0]));
      assert Get(next, name) == Get(acc, name);
      HashFromGitAbsent(next, nodes[1..], name);
    }
  }

  /** Conversion binds exactly the keys it is given. */
  lemma ConvertKeys(h: Tree, name: string)
    ensures HasKey(Convert(h), name) <==> HasKey(h, name)
  {
    ConvertIntoKeys([], h, name);
  }

  lemma {:induction false} ConvertIntoKeys(acc: Tree, h: Tree, name: string)
    ensures HasKey(ConvertInto(acc, h), name) <==> HasKey(acc, name) || HasKey(h, name)
    decreases h
  {
    if h != [] {
      var next := Put(acc, h[0].key, ConvertValue(h[0].val));
      assert ConvertInto(acc, h) == ConvertInto(next, h[1..]);
      PutKeys(acc, h[0].key, ConvertValue(h[0].val), name);
      ConvertIntoKeys(next, h[1..], name);
      assert h == [h[0]] + h[1..];
      HasKeyCons(h[0], h[1..], name);
    }
  }

  /** `load` as written: a record directory without an `attributes.json`
      blob (the empty directory `delete` leaves behind) reaches
      `nil.data`, a NoMethodError. */
  function LoadAsWritten(r: Record, repo: Repo, dir: string, branch: string): (l: Loaded)
    ensures !r.frozen && branch in repo.heads
      && Slash(repo.heads[branch], StripDotDot(dir)).Some?
      && Slash(repo.heads[branch], StripDotDot(dir)).value.GTree?
      && Child(Slash(repo.heads[branch], StripDotDot(dir)).value.contents, AttributesFile).None?
      ==> l.error == Some(RuntimeFault)
  {
    LoadWith(r, repo, dir, branch, RuntimeFault)
  }

  /** `load` as intended: a directory without the attributes blob is no
      record, so it raises RecordNotFound like a missing directory. */
  function Load(r: Record, repo: Repo, dir: string, branch: string): (l: Loaded)
    ensures !r.frozen && branch in repo.heads
      && Slash(repo.heads[branch], StripDotDot(dir)).Some?
      && Slash(repo.heads[branch], StripDotDot(dir)).value.GTree?
      && Child(Slash(repo.heads[branch], StripDotDot(dir)).value.contents, AttributesFile).None?
      ==> l.error == Some(RecordNotFound)
  {
    LoadWith(r, repo, dir, branch, RecordNotFound)
  }

  /** Both loads agree everywhere except on that one error. */
  lemma LoadAgrees(r: Record, repo: Repo, dir: string, branch: string)
    ensures LoadAsWritten(r, repo, dir, branch).record == Load(r, repo, dir, branch).record
    ensures LoadAsWritten(r, repo, dir, branch).error != Load(r, repo, dir, branch).error ==>
      LoadAsWritten(r, repo, dir, branch).error == Some(RuntimeFault)
      && Load(r, repo, dir, branch).error == Some(RecordNotFound)
  {
  }

  /** `Model.find(id, branch)`: a new record loaded from `subdir/id`, with
      the error a directory without `attributes.json` raises as a
      parameter, as in LoadWith. */
  function FindWith(cls: ModelClass, repo: Repo, id: string, branch: string, noAttributes: Error): (o: Outcome<Record>)
    ensures branch !in repo.heads ==> o == Raise(RecordNotFound)
    ensures o.Ok? <==> LoadWith(Blank, repo, Join(cls.subdir, id), branch, noAttributes).error.None?
    ensures o.Ok? ==> o.value == LoadWith(Blank, repo, Join(cls.subdir, id), branch, noAttributes).record
    ensures o.Raise? ==> Some(o.error) == LoadWith(Blank, repo, Join(cls.subdir, id), branch, noAttributes).error
  {
    var l := LoadWith(Blank, repo, Join(cls.subdir, id), branch, noAttributes);
    if l.error.Some? then Raise(l.error.value) else Ok(l.record)
  }

  /** `Model.find(id, branch)` as written, through LoadAsWritten. */
  function FindAsWritten(cls: ModelClass, repo: Repo, id: string, branch: string): (o: Outcome<Record>)
    ensures branch !in repo.heads ==> o == Raise(RecordNotFound)
    ensures o.Ok? ==> o.value == LoadAsWritten(Blank, repo, Join(cls.subdir, id), branch).record
    ensures o.Raise? ==> Some(o.error) == LoadAsWritten(Blank, repo, Join(cls.subdir, id), branch).error
  {
    FindWith(cls, repo, id, branch, RuntimeFault)
  }

  /** `Model.find(id, branch)` as intended, through Load. */
  function Find(cls: ModelClass, repo: Repo, id: string, branch: string): (o: Outcome<Record>)
    ensures branch !in repo.heads ==> o == Raise(RecordNotFound)
    ensures o.Ok? ==> o.value == Load(Blank, repo, Join(cls.subdir, id), branch).record
    ensures o.Raise? ==> Some(o.error) == Load(Blank, repo, Join(cls.subdir, id), branch).error
  {
    FindWith(cls, repo, id, branch, RecordNotFound)
  }

  /** `record.reload`: `load(path, branch)`, reading both memos first, with
      the error for a directory without `attributes.json` as a parameter. */
  function ReloadWith(cls: ModelClass, r: Record, repo: Repo, defaultBranch: string, noAttributes: Error): (l: Loaded)
    ensures r.path.None? && r.id.None? ==> l.error == Some(RuntimeFault)
    ensures r.path.Some? && r.branch.Some? ==> l == LoadWith(r, repo, r.path.value, r.branch.value, noAttributes)
    ensures r.path.Some? && r.branch.None? && r.frozen ==> l == Loaded(r, Some(FrozenRecord))
    ensures r.path.Some? && r.branch.None? && !r.frozen ==> l == LoadWith(r.(branch := Some(defaultBranch)), repo, r.path.value, defaultBranch, noAttributes)
  {
    var p := PathOf(cls, r);
    if p.Raise? then Loaded(r, Some(p.error))
    else
      var (r1, path) := p.value;
      var b := BranchOf(r1, defaultBranch);
      if b.Raise? then Loaded(r1, Some(b.error))
      else
        var (r2, branch) := b.value;
        LoadWith(r2, repo, path, branch, noAttributes)
  }

  /** `record.reload` as written, through LoadAsWritten. */
  function ReloadAsWritten(cls: ModelClass, r: Record, repo: Repo, defaultBranch: string): (l: Loaded)
    ensures r.path.None? && r.id.None? ==> l.error == Some(RuntimeFault)
    ensures r.path.Some? && r.branch.Some? ==> l == LoadAsWritten(r, repo, r.path.value, r.branch.value)
  {
    ReloadWith(cls, r, repo, defaultBranch, RuntimeFault)
  }

  /** `record.reload` as intended, through Load. */
  function Reload(cls: ModelClass, r: Record, repo: Repo, defaultBranch: string): (l: Loaded)
    ensures r.path.None? && r.id.None? ==> l.error == Some(RuntimeFault)
    ensures r.path.Some? && r.branch.Some? ==> l == Load(r, repo, r.path.value, r.branch.value)
  {
    ReloadWith(cls, r, repo, defaultBranch, RecordNotFound)
  }

  /** A reload that succeeds does not depend on the attributes held in
      memory: every one of them is replaced by what the store holds. */
  lemma ReloadIgnoresAttributes(cls: ModelClass, r: Record, a: Attrs, repo: Repo, defaultBranch: string)
    ensures Reload(cls, r.(attributes := a), repo, defaultBranch).error == Reload(cls, r, repo, defaultBranch).error
    ensures Reload(cls, r, repo, defaultBranch).error.None? ==>
      Reload(cls, r.(attributes := a), repo, defaultBranch).record == Reload(cls, r, repo, defaultBranch).record
  {
    var p, p' := PathOf(cls, r), PathOf(cls, r.(attributes := a));
    assert p.Raise? <==> p'.Raise?;
    if p.Ok? {
      var (r1, path) := p.value;
      assert p'.value == (r1.(attributes := a), path);
      var b, b' := BranchOf(r1, defaultBranch), BranchOf(r1.(attributes := a), defaultBranch);
      assert b.Raise? <==> b'.Raise?;
      if b.Ok? {
        var (r2, branch) := b.value;
        assert b'.value == (r2.(attributes := a), branch);
        LoadIgnoresAttributes(r2, a, repo, path, branch);
      }
    }
  }

  /** What a load reads does not depend on the attributes held before. */
  lemma LoadIgnoresAttributes(r: Record, a: Attrs, repo: Repo, dir: string, branch: string)
    ensures Load(r.(attributes := a), repo, dir, branch).error == Load(r, repo, dir, branch).error
    ensures Load(r, repo, dir, branch).error.None? ==>
      Load(r.(attributes := a), repo, dir, branch).record == Load(r, repo, dir, branch).record
  {
  }

  /** `record.delete`: the record is frozen, then its directory deleted. */
  function DeleteRecord(cls: ModelClass, r: Record, repo: Repo, branch: string): (o: (Record, Outcome<TxResult>))
    ensures o.0 == r.(frozen := true)
    ensures r.id.None? ==> o.1 == Raise(RuntimeFault)
    ensures r.id.Some? ==> o.1 == Delete(repo, cls.subdir, r.id.value, branch)
  {
    (r.(frozen := true), if r.id.None? then Raise(RuntimeFault) else Delete(repo, cls.subdir, r.id.value, branch))
  }

  // ---------------------------------------------------------------------
  // Saving then loading

  /** The directory a save of payload `t` with attributes `a` writes: the
      payload with the encoded attributes assigned to `attributes.json`. */
  function SavedPayload(t: Tree, a: Attrs): Tree {
    Put(t, AttributesFile, Content.Str(Encode(a)))
  }

  /** A record directory's nodes, minus the attributes blob, are the nodes
      of the payload without that key. */
  lemma {:induction false} RejectNodes(h: Tree, name: string)
    ensures Reject(Nodes(h), name) == Nodes(Remove(h, name))
    decreases h
  {
    if h != [] {
      var e := EntryNodes(h[0]);
      RejectAppend(e, Nodes(h[1..]), name);
      RejectNodes(h[1..], name);
      if h[0].key == name {
        assert Reject(e, name) == [] by {
          if e != [] {
            assert e[1..] == [];
          }
        }
      } else {
        assert Reject(e, name) == e by {
          if e != [] {
            assert e[1..] == [];
          }
        }
        NodesCons(h[0], Remove(h[1..], name));
      }
    }
  }

  lemma {:induction false} RejectAppend(a: Contents, b: Contents, name: string)
    ensures Reject(a + b, name) == Reject(a, name) + Reject(b, name)
  {
    if a != [] {
      var x := if a[0].name == name then [] else [a[0]];
      assert (a + b)[0] == a[0] && (a + b)[1..] == a[1..] + b;
      assert Reject(a + b, name) == x + Reject(a[1..] + b, name);
      assert Reject(a, name) == x + Reject(a[1..], name);
      RejectAppend(a[1..], b, name);
      SeqAssoc(x, Reject(a[1..], name), Reject(b, name));
    } else {
      assert a + b == b;
    }
  }

  /** The leaf `save` stages for the attributes blob, by segments. */
  function AttributesSpot(a: Attrs): Spot {
    Spot([AttributesFile], Content.Str(Encode(a)))
  }

  lemma SaveLeavesRender(dir: string, t: Tree, a: Attrs)
    ensures SaveLeaves(dir, t, dir, a) == Render(dir, Leaves(t) + [AttributesSpot(a)])
  {
    var last := [AttributesSpot(a)];
    PathsRender(dir, t);
    assert Render(dir, last) == [Leaf(Join(dir, AttributesFile), Content.Str(Encode(a)))] by {
      assert JoinAll(dir, [AttributesFile]) == JoinAll(Join(dir, AttributesFile), []);
    }
    RenderAppend(dir, Leaves(t), last);
  }

  lemma SaveSpotsValid(t: Tree, a: Attrs, spots: seq<Spot>)
    requires Storable(t) && spots == Leaves(t) + [AttributesSpot(a)]
    ensures forall i :: 0 <= i < |spots| ==> |spots[i].segs| > 0
    ensures forall i, j :: 0 <= i < |spots| && 0 <= j < |spots[i].segs| ==> ValidName(spots[i].segs[j])
  {
    StorableIsDeepUnique(t);
    LeavesValid(t);
    forall i, j | 0 <= i < |spots| && 0 <= j < |spots[i].segs| ensures ValidName(spots[i].segs[j]) {
      if i < |Leaves(t)| {
        assert spots[i] == Leaves(t)[i];
      }
    }
  }

  lemma SaveSpotsStaged(t: Tree, a: Attrs)
    requires Storable(t)
    ensures StageSpots([], Leaves(t) + [AttributesSpot(a)]) == SavedPayload(t, a)
  {
    var last := [AttributesSpot(a)];
    StageSpotsAppend([], Leaves(t), last);
    StageLeaves([], t);
    assert [] + t == t;
    assert StageSpots(t, last) == AddAt(t, [AttributesFile], Content.Str(Encode(a)));
  }

  /** Saving a fresh record stages its payload, with the attributes blob
      assigned last, as the one hash below `subdir/id`. */
  lemma SaveStagingShape(subdir: string, id: string, t: Tree, a: Attrs)
    requires ValidName(subdir) && ValidName(id) && Storable(t)
    ensures SaveStaging(Join(subdir, id), t, Join(subdir, id), a) == UpdateAt([], [subdir, id], SavedPayload(t, a))
  {
    var spots := Leaves(t) + [AttributesSpot(a)];
    SaveStagingUnder(subdir, id, t, a);
    SaveSpotsValid(t, a, spots);
    StageUnderNonEmpty([], [subdir, id], spots);
    SubAtEmpty([subdir, id]);
    SaveSpotsStaged(t, a);
  }

  /** The paths a save stages, below `subdir/id`, are the payload's leaves
      and the attributes blob, staged under those two segments. */
  lemma SaveStagingUnder(subdir: string, id: string, t: Tree, a: Attrs)
    requires ValidName(subdir) && ValidName(id) && Storable(t)
    ensures SaveStaging(Join(subdir, id), t, Join(subdir, id), a) == StageUnder([], [subdir, id], Leaves(t) + [AttributesSpot(a)])
  {
    var dir := Join(subdir, id);
    var spots := Leaves(t) + [AttributesSpot(a)];
    SaveLeavesRender(dir, t, a);
    SaveSpotsValid(t, a, spots);
    StageRender([], dir, spots);
    FieldsJoin(subdir, id);
    FieldsOfName(subdir);
    FieldsOfName(id);
    JoinEnds(subdir, id);
    assert Lead(dir) == Fields(dir) == [subdir, id];
  }

  /** Writing that index over a branch where the record's directory is
      missing or empty creates the directory with exactly the saved
      payload's nodes. */
  lemma SaveWrites(base: Contents, subdir: string, id: string, x: Tree)
    requires Storable(x) && SubContentsAt(base, [subdir, id]) == []
    ensures RecordDir(WriteTree(UpdateAt([], [subdir, id], x), base), subdir, id) == Some(GTree(id, Nodes(x)))
  {
    WalkWritten("", base, [subdir, id], x);
    assert FreshNames([], x);
    WriteTreeFresh([], x);
    assert [] + Nodes(x) == Nodes(x);
  }

  /** Loading a record directory holding the saved payload's nodes reads
      back the attributes through the codec and the payload without the
      attributes key, replacing whatever the record held before. */
  lemma LoadSaved(q: Record, repo: Repo, subdir: string, id: string, branch: string, t: Tree, a: Attrs)
    requires !q.frozen
    requires ValidName(subdir) && ValidName(id) && NoDotDot(subdir) && NoDotDot(id)
    requires Storable(t)
    requires branch in repo.heads
    requires RecordDir(repo.heads[branch], subdir, id) == Some(GTree(id, Nodes(SavedPayload(t, a))))
    ensures Load(q, repo, Join(subdir, id), branch) == Loaded(Record(Some(id), Some(Join(subdir, id)), Some(branch), false,
      Decode(Encode(a)).value, Some(Remove(t, AttributesFile)), false), None)
  {
    var dir := Join(subdir, id);
    var x := SavedPayload(t, a);
    NoDotDotJoin(subdir, id);
    StripDotDotClean(dir);
    BasenameJoin(subdir, id);
    SlashJoin(repo.heads[branch], subdir, id);
    PutUnique(t, AttributesFile, Content.Str(Encode(a)));
    ChildNodes(x, AttributesFile, Encode(a));
    DecodeEncode(a);
    LoadFound(q, repo, dir, branch, id, Nodes(x), Encode(a));
    RejectNodes(x, AttributesFile);
    RemovePut(t, AttributesFile, Content.Str(Encode(a)));
    RemoveStorable(t, AttributesFile);
    AssignTreeNodes(Remove(t, AttributesFile));
  }

  /** Loading a clean path that names a directory with a decodable
      attributes blob overwrites everything the record held but `frozen`. */
  lemma LoadFound(q: Record, repo: Repo, dir: string, branch: string, name: string, c: Contents, d: Data)
    requires !q.frozen && branch in repo.heads && StripDotDot(dir) == dir
    requires Slash(repo.heads[branch], dir) == Some(GTree(name, c))
    requires Child(c, AttributesFile) == Some(GBlob(AttributesFile, d)) && Decode(d).Ok?
    ensures Load(q, repo, dir, branch) == Loaded(Record(Some(Basename(dir)), Some(dir), Some(branch), false,
      Decode(d).value, Some(AssignTree(FromNodes(Reject(c, AttributesFile)))), false), None)
  {
  }

  /** Writing the saved payload where the record's directory was missing
      or empty changes the tree. */
  lemma SaveChangesTree(base: Contents, subdir: string, id: string, x: Tree)
    requires Storable(x) && HasKey(x, AttributesFile) && SubContentsAt(base, [subdir, id]) == []
    ensures WriteTree(UpdateAt([], [subdir, id], x), base) != base
  {
    var written := WriteTree(UpdateAt([], [subdir, id], x), base);
    SaveWrites(base, subdir, id, x);
    if written == base {
      WalkSubContents("", base, [subdir, id]);
      var i :| 0 <= i < |x| && x[i].key == AttributesFile;
      NodesSplit(x, i);
      assert false;
    }
  }

  /** For a fresh record that passes the checks, `save` executes exactly
      the staging of its payload below `subdir/id`. */
  lemma SaveExecutes(cls: ModelClass, repo: Repo, defaultBranch: string, r: Record, branch: string)
    requires r.id.Some? && r.newRecord && !r.frozen
    requires ValidName(cls.subdir) && ValidName(r.id.value)
    requires r.path.None? || r.path == Some(Join(cls.subdir, r.id.value))
    requires Storable(r.tree.GetOr([]))
    requires Exists(cls, repo, r.id.value, defaultBranch) == Ok(false)
    ensures Save(cls, repo, defaultBranch, r, branch).Ok?
    ensures Save(cls, repo, defaultBranch, r, branch).value.result
      == Execute(repo, branch, UpdateAt([], [cls.subdir, r.id.value], SavedPayload(r.tree.GetOr([]), r.attributes)))
  {
    SaveStagingShape(cls.subdir, r.id.value, r.tree.GetOr([]), r.attributes);
  }

  /** The preconditions of a first save that succeeds: a fresh, unfrozen
      record with a valid id and a storable payload, absent from the
      default branch, whose directory on `branch` is missing or empty. */
  ghost predicate FreshSave(cls: ModelClass, repo: Repo, defaultBranch: string, r: Record, branch: string) {
    && r.id.Some? && r.newRecord && !r.frozen
    && ValidName(cls.subdir) && ValidName(r.id.value) && NoDotDot(cls.subdir) && NoDotDot(r.id.value)
    && (r.path.None? || r.path == Some(Join(cls.subdir, r.id.value)))
    && Storable(r.tree.GetOr([]))
    && Exists(cls, repo, r.id.value, defaultBranch) == Ok(false)
    && SubContentsAt(CurrentTree(repo, branch).GetOr([]), [cls.subdir, r.id.value]) == []
  }

  /** Such a save commits, and the branch then holds the record's
      directory with exactly the saved payload's nodes. */
  lemma SaveCommits(cls: ModelClass, repo: Repo, defaultBranch: string, r: Record, branch: string)
    requires FreshSave(cls, repo, defaultBranch, r, branch)
    ensures Save(cls, repo, defaultBranch, r, branch).Ok?
    ensures Save(cls, repo, defaultBranch, r, branch).value.result.Committed?
    ensures branch in Save(cls, repo, defaultBranch, r, branch).value.result.repo.heads
    ensures RecordDir(Save(cls, repo, defaultBranch, r, branch).value.result.repo.heads[branch], cls.subdir, r.id.value)
      == Some(GTree(r.id.value, Nodes(SavedPayload(r.tree.GetOr([]), r.attributes))))
  {
    var id := r.id.value;
    var t := r.tree.GetOr([]);
    var x := SavedPayload(t, r.attributes);
    var base := CurrentTree(repo, branch).GetOr([]);
    var staged := UpdateAt([], [cls.subdir, id], x);
    SaveExecutes(cls, repo, defaultBranch, r, branch);
    AttributesFileValid();
    PutStrStorable(t, AttributesFile, Encode(r.attributes));
    SaveWrites(base, cls.subdir, id, x);
    SaveChangesTree(base, cls.subdir, id, x);
    var res := Execute(repo, branch, staged);
    assert res.Committed? && res.repo.heads[branch] == WriteTree(staged, base);
  }

  /** A fresh record with a valid id, saved where it does not exist yet,
      commits, and finding it on that branch gives back its id, its
      attributes through the codec, and its payload without the
      `attributes.json` key (a payload key of that name never reaches the
      store: the attributes blob is staged after it). */
  lemma SaveThenFind(cls: ModelClass, repo: Repo, defaultBranch: string, r: Record, branch: string)
    requires FreshSave(cls, repo, defaultBranch, r, branch)
    ensures Save(cls, repo, defaultBranch, r, branch).Ok?
    ensures Save(cls, repo, defaultBranch, r, branch).value.result.Committed?
    ensures Find(cls, Save(cls, repo, defaultBranch, r, branch).value.result.repo, r.id.value, branch)
      == Ok(Record(r.id, Some(Join(cls.subdir, r.id.value)), Some(branch), false,
           Decode(Encode(r.attributes)).value, Some(Remove(r.tree.GetOr([]), AttributesFile)), false))
    ensures SymbolFree(r.attributes) ==> Decode(Encode(r.attributes)).value == r.attributes
  {
    SaveCommits(cls, repo, defaultBranch, r, branch);
    var after := Save(cls, repo, defaultBranch, r, branch).value.result.repo;
    LoadSaved(Blank, after, cls.subdir, r.id.value, branch, r.tree.GetOr([]), r.attributes);
    DecodeEncode(r.attributes);
  }

  /** After such a save, edits to the record's attributes and payload are
      discarded by `reload`, which reads back what was saved. */
  lemma SaveThenReload(cls: ModelClass, repo: Repo, defaultBranch: string, r: Record, branch: string, a: Attrs, t: Option<Tree>)
    requires FreshSave(cls, repo, defaultBranch, r, branch)
    ensures Save(cls, repo, defaultBranch, r, branch).Ok?
    ensures var e := Save(cls, repo, defaultBranch, r, branch).value;
      Reload(cls, e.record.(attributes := a, tree := t), After(repo, e.result), defaultBranch)
      == Loaded(Record(r.id, Some(Join(cls.subdir, r.id.value)), Some(branch), false,
           Decode(Encode(r.attributes)).value, Some(Remove(r.tree.GetOr([]), AttributesFile)), false), None)
  {
    SaveCommits(cls, repo, defaultBranch, r, branch);
    var e := Save(cls, repo, defaultBranch, r, branch).value;
    var q := e.record.(attributes := a, tree := t);
    assert q.path == Some(Join(cls.subdir, r.id.value)) && q.branch == Some(branch) && !q.frozen;
    LoadSaved(q, e.result.repo, cls.subdir, r.id.value, branch, r.tree.GetOr([]), r.attributes);
  }

  lemma NodesSplit(h: Tree, i: int)
    requires Storable(h) && 0 <= i < |h|
    ensures Nodes(h) != []
  {
    if i == 0 {
      assert |EntryNodes(h[0])| == 1;
    } else {
      StorableSplit(h);
      NodesSplit(h[1..], i - 1);
      assert Nodes(h) == EntryNodes(h[0]) + Nodes(h[1..]);
    }
  }

  // ---------------------------------------------------------------------
  // Loading a deleted record

  /** A record saved on `branch` (its directory holds the attributes blob)
      and then deleted: the directory is left behind without that blob. As
      written, loading it raises a NoMethodError. */
  lemma DeletedLoadAsWritten(r: Record, repo: Repo, subdir: string, id: string, branch: string)
    requires !r.frozen
    requires ValidName(subdir) && ValidName(id) && NoDotDot(subdir) && NoDotDot(id)
    requires branch in repo.heads && WellFormed(repo.heads[branch])
    requires RecordDir(repo.heads[branch], subdir, id).Some? && RecordDir(repo.heads[branch], subdir, id).value.GTree?
    requires Child(RecordDir(repo.heads[branch], subdir, id).value.contents, AttributesFile).Some?
    requires Child(RecordDir(repo.heads[branch], subdir, id).value.contents, AttributesFile).value.GBlob?
    ensures Delete(repo, subdir, id, branch).Ok?
    ensures LoadAsWritten(r, After(repo, Delete(repo, subdir, id, branch).value), Join(subdir, id), branch).error
      == Some(RuntimeFault)
  {
    DeletedDir(repo, subdir, id, branch);
  }

  /** As intended, loading the deleted record raises RecordNotFound, as
      `find` of an id never saved does. */
  lemma DeletedLoad(r: Record, repo: Repo, subdir: string, id: string, branch: string)
    requires !r.frozen
    requires ValidName(subdir) && ValidName(id) && NoDotDot(subdir) && NoDotDot(id)
    requires branch in repo.heads && WellFormed(repo.heads[branch])
    requires RecordDir(repo.heads[branch], subdir, id).Some? && RecordDir(repo.heads[branch], subdir, id).value.GTree?
    requires Child(RecordDir(repo.heads[branch], subdir, id).value.contents, AttributesFile).Some?
    requires Child(RecordDir(repo.heads[branch], subdir, id).value.contents, AttributesFile).value.GBlob?
    ensures Delete(repo, subdir, id, branch).Ok?
    ensures Load(r, After(repo, Delete(repo, subdir, id, branch).value), Join(subdir, id), branch).error
      == Some(RecordNotFound)
  {
    DeletedDir(repo, subdir, id, branch);
  }

  /** The same at the level of `find` and `reload`: as written, finding
      the deleted id, or reloading another instance of the record, raises
      a NoMethodError. */
  lemma DeletedFindAsWritten(cls: ModelClass, r: Record, repo: Repo, id: string, branch: string, defaultBranch: string)
    requires !r.frozen && r.path == Some(Join(cls.subdir, id)) && r.branch == Some(branch)
    requires ValidName(cls.subdir) && ValidName(id) && NoDotDot(cls.subdir) && NoDotDot(id)
    requires branch in repo.heads && WellFormed(repo.heads[branch])
    requires RecordDir(repo.heads[branch], cls.subdir, id).Some? && RecordDir(repo.heads[branch], cls.subdir, id).value.GTree?
    requires Child(RecordDir(repo.heads[branch], cls.subdir, id).value.contents, AttributesFile).Some?
    requires Child(RecordDir(repo.heads[branch], cls.subdir, id).value.contents, AttributesFile).value.GBlob?
    ensures Delete(repo, cls.subdir, id, branch).Ok?
    ensures FindAsWritten(cls, After(repo, Delete(repo, cls.subdir, id, branch).value), id, branch) == Raise(RuntimeFault)
    ensures ReloadAsWritten(cls, r, After(repo, Delete(repo, cls.subdir, id, branch).value), defaultBranch).error == Some(RuntimeFault)
  {
    DeletedLoadAsWritten(Blank, repo, cls.subdir, id, branch);
    DeletedLoadAsWritten(r, repo, cls.subdir, id, branch);
  }

  /** As intended, both raise RecordNotFound. */
  lemma DeletedFind(cls: ModelClass, r: Record, repo: Repo, id: string, branch: string, defaultBranch: string)
    requires !r.frozen && r.path == Some(Join(cls.subdir, id)) && r.branch == Some(branch)
    requires ValidName(cls.subdir) && ValidName(id) && NoDotDot(cls.subdir) && NoDotDot(id)
    requires branch in repo.heads && WellFormed(repo.heads[branch])
    requires RecordDir(repo.heads[branch], cls.subdir, id).Some? && RecordDir(repo.heads[branch], cls.subdir, id).value.GTree?
    requires Child(RecordDir(repo.heads[branch], cls.subdir, id).value.contents, AttributesFile).Some?
    requires Child(RecordDir(repo.heads[branch], cls.subdir, id).value.contents, AttributesFile).value.GBlob?
    ensures Delete(repo, cls.subdir, id, branch).Ok?
    ensures Find(cls, After(repo, Delete(repo, cls.subdir, id, branch).value), id, branch) == Raise(RecordNotFound)
    ensures Reload(cls, r, After(repo, Delete(repo, cls.subdir, id, branch).value), defaultBranch).error == Some(RecordNotFound)
  {
    DeletedLoad(Blank, repo, cls.subdir, id, branch);
    DeletedLoad(r, repo, cls.subdir, id, branch);
  }

  // ---------------------------------------------------------------------
  // Existence after saving and deleting

  /** `exists?` on a repository with commits asks whether the record's
      directory on the branch holds an `attributes.json` node. */
  lemma ExistsReads(cls: ModelClass, repo: Repo, id: string, branch: string)
    requires ValidName(cls.subdir) && ValidName(id)
    requires Master in repo.heads && branch in repo.heads
    ensures var d := RecordDir(repo.heads[branch], cls.subdir, id);
      Exists(cls, repo, id, branch) == Ok(d.Some? && d.value.GTree? && Child(d.value.contents, AttributesFile).Some?)
  {
    var c := repo.heads[branch];
    var p := JoinAll(cls.subdir, [id, AttributesFile]);
    var segs := [cls.subdir, id, AttributesFile];
    AttributesFileValid();
    SplitJoinAll(cls.subdir, [id, AttributesFile]);
    FieldsOfName(cls.subdir);
    assert Split(p) == segs;
    var j := Join(cls.subdir, id);
    assert j == cls.subdir + "/" + id;
    JoinEnds(cls.subdir, id);
    assert [id, AttributesFile][1..] == [AttributesFile];
    assert p == JoinAll(j, [AttributesFile]);
    assert p == JoinAll(Join(j, AttributesFile), []);
    assert p == j + "/" + AttributesFile;
    assert p[|cls.subdir|] == '/';
    var root := Some(GTree("", c));
    var s1 := Step(root, cls.subdir);
    var s2 := Step(s1, id);
    assert segs[1..] == [id, AttributesFile] && [id, AttributesFile][1..] == [AttributesFile];
    assert [cls.subdir, id][1..] == [id] && [id][1..] == [] && [AttributesFile][1..] == [];
    assert RecordDir(c, cls.subdir, id) == Walk(s1, [id]) == Walk(s2, []) == s2;
    assert Walk(root, segs) == Walk(s1, [id, AttributesFile]) == Walk(s2, [AttributesFile]);
    assert Walk(s2, [AttributesFile]) == Walk(Step(s2, AttributesFile), []);
  }

  /** A first save on a branch makes `exists?` true there, provided the
      default branch Grit consults then has commits. */
  lemma SaveThenExists(cls: ModelClass, repo: Repo, defaultBranch: string, r: Record, branch: string)
    requires FreshSave(cls, repo, defaultBranch, r, branch)
    requires Master in repo.heads || branch == Master
    ensures Save(cls, repo, defaultBranch, r, branch).Ok?
    ensures Save(cls, repo, defaultBranch, r, branch).value.result.Committed?
    ensures Exists(cls, Save(cls, repo, defaultBranch, r, branch).value.result.repo, r.id.value, branch) == Ok(true)
  {
    SaveCommits(cls, repo, defaultBranch, r, branch);
    var after := Save(cls, repo, defaultBranch, r, branch).value.result.repo;
    var t := r.tree.GetOr([]);
    var x := SavedPayload(t, r.attributes);
    assert Master in after.heads;
    PutUnique(t, AttributesFile, Content.Str(Encode(r.attributes)));
    ChildNodes(x, AttributesFile, Encode(r.attributes));
    ExistsReads(cls, after, r.id.value, branch);
  }

  /** Deleting a stored record makes `exists?` false on that branch. */
  lemma DeleteThenExists(cls: ModelClass, repo: Repo, id: string, branch: string)
    requires Master in repo.heads
    requires ValidName(cls.subdir) && ValidName(id) && NoDotDot(cls.subdir) && NoDotDot(id)
    requires branch in repo.heads && WellFormed(repo.heads[branch])
    requires RecordDir(repo.heads[branch], cls.subdir, id).Some? && RecordDir(repo.heads[branch], cls.subdir, id).value.GTree?
    requires Child(RecordDir(repo.heads[branch], cls.subdir, id).value.contents, AttributesFile).Some?
    requires Child(RecordDir(repo.heads[branch], cls.subdir, id).value.contents, AttributesFile).value.GBlob?
    ensures Delete(repo, cls.subdir, id, branch).Ok?
    ensures Exists(cls, After(repo, Delete(repo, cls.subdir, id, branch).value), id, branch) == Ok(false)
  {
    DeletedDir(repo, cls.subdir, id, branch);
    var staged := DeleteTree(CurrentTree(repo, branch), Join(cls.subdir, id)).value;
    ExecuteAfter(repo, branch, staged);
    var after := After(repo, Delete(repo, cls.subdir, id, branch).value);
    assert Master in after.heads by {
      if Master != branch {
        assert CurrentTree(after, Master) == CurrentTree(repo, Master);
      }
    }
    SlashJoin(after.heads[branch], cls.subdir, id);
    ExistsReads(cls, after, id, branch);
  }

  /** `record.delete` of a stored record: the instance is frozen, so it
      refuses every later write of an instance variable, and `exists?`
      then reports the record gone. */
  lemma DeleteRecordRemoves(cls: ModelClass, r: Record, repo: Repo, branch: string, id: Option<string>)
    requires Master in repo.heads && r.id.Some?
    requires ValidName(cls.subdir) && ValidName(r.id.value) && NoDotDot(cls.subdir) && NoDotDot(r.id.value)
    requires branch in repo.heads && WellFormed(repo.heads[branch])
    requires RecordDir(repo.heads[branch], cls.subdir, r.id.value).Some?
    requires RecordDir(repo.heads[branch], cls.subdir, r.id.value).value.GTree?
    requires Child(RecordDir(repo.heads[branch], cls.subdir, r.id.value).value.contents, AttributesFile).Some?
    requires Child(RecordDir(repo.heads[branch], cls.subdir, r.id.value).value.contents, AttributesFile).value.GBlob?
    ensures DeleteRecord(cls, r, repo, branch).0.(frozen := r.frozen) == r
    ensures Send(cls, DeleteRecord(cls, r, repo, branch).0, IdArg(id)) == Raise(FrozenRecord)
    ensures DeleteRecord(cls, r, repo, branch).1.Ok?
    ensures Exists(cls, After(repo, DeleteRecord(cls, r, repo, branch).1.value), r.id.value, branch) == Ok(false)
  {
    DeleteThenExists(cls, repo, r.id.value, branch);
  }

  /** After the delete, the record's path names a tree without the
      attributes blob. */
  lemma DeletedDir(repo: Repo, subdir: string, id: string, branch: string)
    requires ValidName(subdir) && ValidName(id) && NoDotDot(subdir) && NoDotDot(id)
    requires branch in repo.heads && WellFormed(repo.heads[branch])
    requires RecordDir(repo.heads[branch], subdir, id).Some? && RecordDir(repo.heads[branch], subdir, id).value.GTree?
    requires Child(RecordDir(repo.heads[branch], subdir, id).value.contents, AttributesFile).Some?
    requires Child(RecordDir(repo.heads[branch], subdir, id).value.contents, AttributesFile).value.GBlob?
    ensures Delete(repo, subdir, id, branch).Ok?
    ensures var after := After(repo, Delete(repo, subdir, id, branch).value);
      && branch in after.heads
      && StripDotDot(Join(subdir, id)) == Join(subdir, id)
      && Slash(after.heads[branch], Join(subdir, id)).Some?
      && Slash(after.heads[branch], Join(subdir, id)).value.GTree?
      && Child(Slash(after.heads[branch], Join(subdir, id)).value.contents, AttributesFile).None?
  {
    var root := repo.heads[branch];
    var cc := RecordDir(root, subdir, id).value.contents;
    DeleteRemovesBlobs(repo, subdir, id, branch);
    var after := After(repo, Delete(repo, subdir, id, branch).value);
    var newRoot := CurrentTree(after, branch).GetOr([]);
    assert RecordDir(newRoot, subdir, id) == Some(GTree(id, Strip(cc)));
    ExecuteAfter(repo, branch, DeleteTree(CurrentTree(repo, branch), Join(subdir, id)).value);
    NoDotDotJoin(subdir, id);
    StripDotDotClean(Join(subdir, id));
    SlashJoin(newRoot, subdir, id);
    WalkWellFormed(root, subdir, id);
    StripChildBlob(cc, AttributesFile);
  }

  /** A record directory found in a well-formed tree is well-formed. */
  lemma WalkWellFormed(root: Contents, subdir: string, id: string)
    requires WellFormed(root)
    requires RecordDir(root, subdir, id).Some? && RecordDir(root, subdir, id).value.GTree?
    ensures WellFormed(RecordDir(root, subdir, id).value.contents)
  {
    var top := Child(root, subdir);
    RecordDirStep(root, subdir, id);
    ChildWellFormed(root, subdir);
    ChildWellFormed(top.value.contents, id);
  }
}
