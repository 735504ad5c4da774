/** `Model.find_all`: control keys, filters answered from the raw listing
    or the attribute index, intersection of the per-condition id lists,
    ordering by id and the limit; plus the query's cache key and
    `Model.all_values_for_attr`. The cache itself is the identity: every
    query is computed afresh. */
module Query {
  import opened Outcomes
  import opened Values
  import opened Hashes
  import opened FilePaths
  import opened Store
  import opened Transaction
  import opened Tombstones
  import opened Persistable
  import opened Ordering

  /** The value of one condition: a literal, or a block together with its
      `hash`. */
  datatype Cond = Lit(v: Val) | Proc(test: Val -> bool, code: int)

  /** The conditions hash given to `find_all`. */
  type Conditions = Hash<Cond>

  /** Ruby truthiness of a condition value: a block is always truthy. */
  predicate CondTruthy(c: Cond) {
    c.Proc? || Truthy(c.v)
  }

  // ---------------------------------------------------------------------
  // The attribute index

  /** The ids whose attribute holds `value`. */
  datatype Bucket = Bucket(value: Val, ids: seq<string>)

  /** `Model.index`: whether it has been generated, and for each attribute
      its buckets in insertion order. */
  datatype Index = Index(generated: bool, buckets: map<string, seq<Bucket>>)

  /** `index.attr_index(attr)`: the attribute's buckets, none for an
      attribute the index has not seen. */
  function AttrIndex(ix: Index, attr: string): seq<Bucket> {
    if attr in ix.buckets then ix.buckets[attr] else []
  }

  /** A hash from values: no value has two buckets. */
  predicate UniqueValues(bs: seq<Bucket>) {
    forall i, j :: 0 <= i < j < |bs| ==> bs[i].value != bs[j].value
  }

  /** `attr_index[v]`: the ids of the bucket for `v`, if there is one. */
  function Lookup(bs: seq<Bucket>, v: Val): (r: Option<seq<string>>)
    ensures r.Some? <==> exists i :: 0 <= i < |bs| && bs[i].value == v
    ensures r.Some? ==> exists i :: 0 <= i < |bs| && bs[i] == Bucket(v, r.value)
  {
    if bs == [] then None
    else if bs[0].value == v then Some(bs[0].ids)
    else
      var r := Lookup(bs[1..], v);
      assert forall i :: 1 <= i < |bs| ==> bs[i] == bs[1..][i - 1];
      r
  }

  /** `attr_index.each { |value, ids| acc += ids.to_a if test(value) }`. */
  function Selected(bs: seq<Bucket>, test: Val -> bool): (ids: seq<string>)
    ensures forall x :: x in ids <==> exists i :: 0 <= i < |bs| && test(bs[i].value) && x in bs[i].ids
  {
    if bs == [] then []
    else
      var rest := Selected(bs[1..], test);
      assert forall i :: 1 <= i < |bs| ==> bs[i] == bs[1..][i - 1];
      (if test(bs[0].value) then bs[0].ids else []) + rest
  }

  /** `Model.all_values_for_attr(attr)`: the indexed values, in order. */
  function AllValuesForAttr(ix: Index, attr: string): (vs: seq<Val>)
    ensures |vs| == |AttrIndex(ix, attr)|
    ensures forall i :: 0 <= i < |vs| ==> vs[i] == AttrIndex(ix, attr)[i].value
  {
    BucketValues(AttrIndex(ix, attr))
  }

  function BucketValues(bs: seq<Bucket>): (vs: seq<Val>)
    ensures |vs| == |bs|
    ensures forall i :: 0 <= i < |bs| ==> vs[i] == bs[i].value
  {
    if bs == [] then [] else [bs[0].value] + BucketValues(bs[1..])
  }

  /** A value is listed by `all_values_for_attr` exactly when a literal
      condition on it finds a bucket. */
  lemma AllValuesFound(ix: Index, attr: string, v: Val)
    ensures v in AllValuesForAttr(ix, attr) <==> Lookup(AttrIndex(ix, attr), v).Some?
  {
    var bs := AttrIndex(ix, attr);
    var vs := AllValuesForAttr(ix, attr);
    if v in vs {
      var i :| 0 <= i < |vs| && vs[i] == v;
      assert bs[i].value == v;
    }
    if Lookup(bs, v).Some? {
      var i :| 0 <= i < |bs| && bs[i].value == v;
      assert vs[i] == v;
    }
  }

  /** With one bucket per value, a literal condition selects what the
      block "equal to that value" selects. */
  lemma {:induction false} LiteralIsEqualityBlock(bs: seq<Bucket>, v: Val)
    requires UniqueValues(bs)
    ensures Lookup(bs, v).GetOr([]) == Selected(bs, u => u == v)
  {
    if bs != [] {
      LiteralIsEqualityBlock(bs[1..], v);
      if bs[0].value == v {
        assert Selected(bs[1..], u => u == v) == [] by {
          forall i | 0 <= i < |bs[1..]| ensures bs[1..][i].value != v {
            assert bs[0].value != bs[i + 1].value;
          }
          EmptySelection(bs[1..], u => u == v);
        }
      }
    }
  }

  lemma {:induction false} EmptySelection(bs: seq<Bucket>, test: Val -> bool)
    requires forall i :: 0 <= i < |bs| ==> !test(bs[i].value)
    ensures Selected(bs, test) == []
  {
    if bs != [] {
      EmptySelection(bs[1..], test);
    }
  }

  // ---------------------------------------------------------------------
  // The raw listing

  /** A subtree named `x` that holds a blob directly: a stored record. */
  predicate Populated(c: Contents, x: string) {
    exists i :: 0 <= i < |c| && c[i].GTree? && c[i].name == x && AnyBlob(c[i].contents)
  }

  /** `trees.each { |t| ids << t.name if t.blobs.any? && keep(t.name) }`. */
  function Listed(c: Contents, keep: string -> bool): (ids: seq<string>)
    ensures forall x :: x in ids <==> Populated(c, x) && keep(x)
  {
    if c == [] then []
    else
      var rest := Listed(c[1..], keep);
      assert forall x :: Populated(c, x) <==> (c[0].GTree? && c[0].name == x && AnyBlob(c[0].contents)) || Populated(c[1..], x) by {
        forall x ensures Populated(c, x) <==> (c[0].GTree? && c[0].name == x && AnyBlob(c[0].contents)) || Populated(c[1..], x) {
          if Populated(c[1..], x) {
            var i :| 0 <= i < |c[1..]| && c[1..][i].GTree? && c[1..][i].name == x && AnyBlob(c[1..][i].contents);
            assert c[i + 1] == c[1..][i];
          }
          if Populated(c, x) {
            var i :| 0 <= i < |c| && c[i].GTree? && c[i].name == x && AnyBlob(c[i].contents);
            if i > 0 {
              assert c[1..][i - 1] == c[i];
            }
          }
        }
      }
      (if c[0].GTree? && AnyBlob(c[0].contents) && keep(c[0].name) then [c[0].name] else []) + rest
  }

  /** `current_tree / db_subdir`, as the contents of a tree. A blob there
      has no `trees` and no `/`. A missing directory is `nil`, and as
      written `nil.trees` and `nil / id` raise; as intended a missing
      directory holds no records. */
  function Subdir(root: Contents, subdir: string, asWritten: bool): (o: Outcome<Contents>)
    ensures Slash(root, subdir).None? ==> o == (if asWritten then Raise(RuntimeFault) else Ok([]))
    ensures Slash(root, subdir).Some? && Slash(root, subdir).value.GTree? ==> o == Ok(Slash(root, subdir).value.contents)
    ensures Slash(root, subdir).Some? && Slash(root, subdir).value.GBlob? ==> o == Raise(RuntimeFault)
  {
    match Slash(root, subdir)
    case None => if asWritten then Raise(RuntimeFault) else Ok([])
    case Some(GBlob(_, _)) => Raise(RuntimeFault)
    case Some(GTree(_, c)) => Ok(c)
  }

  // ---------------------------------------------------------------------
  // Conditions

  /** The ids one condition admits. The `id` condition reads the listing:
      a block is asked about each stored record's id, a literal is looked
      up as a path below the type's directory (only a string can name a
      node). Any other condition needs a generated index: a literal takes
      its bucket, a block the union of the buckets whose value it accepts.
      An attribute the index has never seen has no buckets at all: reading
      them calls `[]` or `each` on nil, a NoMethodError. */
  function CondIds(root: Contents, subdir: string, ix: Index, k: string, c: Cond, asWritten: bool): (o: Outcome<seq<string>>)
    ensures k == "id" ==> (o.Ok? <==> Subdir(root, subdir, asWritten).Ok?)
    ensures k == "id" && o.Ok? && c.Proc? ==>
      forall x :: x in o.value <==> Populated(Subdir(root, subdir, asWritten).value, x) && c.test(Str(x))
    ensures k == "id" && o.Ok? && c.Lit? ==>
      forall x :: x in o.value <==> c.v == Str(x) && Slash(Subdir(root, subdir, asWritten).value, x).Some?
    ensures k != "id" && !ix.generated ==> o == Raise(IndexRequired)
    ensures k != "id" && ix.generated && k !in ix.buckets ==> o == Raise(RuntimeFault)
    ensures k != "id" && ix.generated && k in ix.buckets && c.Lit? ==> o == Ok(Lookup(AttrIndex(ix, k), c.v).GetOr([]))
    ensures k != "id" && ix.generated && k in ix.buckets && c.Proc? ==>
      o.Ok? && (forall x :: x in o.value <==>
        exists i :: 0 <= i < |AttrIndex(ix, k)| && c.test(AttrIndex(ix, k)[i].value) && x in AttrIndex(ix, k)[i].ids)
  {
    if k == "id" then
      var sub :- Subdir(root, subdir, asWritten);
      match c
      case Proc(test, _) => Ok(Listed(sub, x => test(Str(x))))
      case Lit(v) => Ok(if v.Str? && Slash(sub, v.s).Some? then [v.s] else [])
    else if !ix.generated then Raise(IndexRequired)
    else if k !in ix.buckets then Raise(RuntimeFault)
    else
      match c
      case Proc(test, _) => Ok(Selected(AttrIndex(ix, k), test))
      case Lit(v) => Ok(Lookup(AttrIndex(ix, k), v).GetOr([]))
  }

  /** The id list of every condition, in the hash's order; the first
      condition that raises ends the loop. */
  function CondIdsAll(root: Contents, subdir: string, ix: Index, filters: Conditions, asWritten: bool): (o: Outcome<seq<seq<string>>>)
    ensures o.Ok? <==> forall i :: 0 <= i < |filters| ==> CondIds(root, subdir, ix, filters[i].key, filters[i].val, asWritten).Ok?
    ensures o.Ok? ==> |o.value| == |filters|
    ensures o.Ok? ==> forall i :: 0 <= i < |filters| ==> CondIds(root, subdir, ix, filters[i].key, filters[i].val, asWritten) == Ok(o.value[i])
    ensures |filters| > 0 ==> (CondIds(root, subdir, ix, filters[0].key, filters[0].val, asWritten).Raise? ==>
      o == Raise(CondIds(root, subdir, ix, filters[0].key, filters[0].val, asWritten).error))
  {
    if filters == [] then Ok([])
    else
      var first :- CondIds(root, subdir, ix, filters[0].key, filters[0].val, asWritten);
      var rest :- CondIdsAll(root, subdir, ix, filters[1..], asWritten);
      assert forall i :: 1 <= i < |filters| ==> filters[i] == filters[1..][i - 1];
      Ok([first] + rest)
  }

  predicate NoDup(s: seq<string>) {
    forall i, j :: 0 <= i < j < |s| ==> s[i] != s[j]
  }

  /** Ruby's `a & b`: each element of `a` that is also in `b`, once, in
      the order of its first occurrence in `a`. */
  function Amp(a: seq<string>, b: seq<string>): (r: seq<string>)
    ensures forall x :: x in r <==> x in a && x in b
    ensures NoDup(r)
    decreases |a|
  {
    if a == [] then []
    else
      var rest := Amp(a[..|a| - 1], b);
      var x := a[|a| - 1];
      assert a == a[..|a| - 1] + [x];
      if x in b && x !in rest then rest + [x] else rest
  }

  /** `lists.inject { |memo, obj| memo & obj }`: a single list comes back
      as it is; more are intersected from the left. */
  function Meet(lists: seq<seq<string>>): (r: seq<string>)
    requires |lists| > 0
    ensures forall x :: x in r <==> forall i :: 0 <= i < |lists| ==> x in lists[i]
    ensures |lists| > 1 ==> NoDup(r)
    ensures |lists| == 1 ==> r == lists[0]
    decreases |lists|
  {
    if |lists| == 1 then lists[0]
    else
      var init := lists[..|lists| - 1];
      var m := Meet(init);
      assert forall i :: 0 <= i < |init| ==> init[i] == lists[i];
      Amp(m, lists[|lists| - 1])
  }

  /** The ids a query matches before ordering. With no filters, every
      stored record of the type; otherwise the ids every condition
      admits. */
  function MatchingIds(root: Contents, subdir: string, ix: Index, filters: Conditions, asWritten: bool): (o: Outcome<seq<string>>)
    ensures filters == [] ==> (o.Ok? <==> Subdir(root, subdir, asWritten).Ok?)
    ensures filters == [] && o.Ok? ==> forall x :: x in o.value <==> Populated(Subdir(root, subdir, asWritten).value, x)
    ensures filters != [] ==> (o.Ok? <==> CondIdsAll(root, subdir, ix, filters, asWritten).Ok?)
    ensures filters != [] && o.Ok? ==>
      forall x :: x in o.value <==> forall i :: 0 <= i < |filters| ==> x in CondIdsAll(root, subdir, ix, filters, asWritten).value[i]
  {
    if filters == [] then
      var sub :- Subdir(root, subdir, asWritten);
      Ok(Listed(sub, _ => true))
    else
      var lists :- CondIdsAll(root, subdir, ix, filters, asWritten);
      Ok(Meet(lists))
  }

  // ---------------------------------------------------------------------
  // Control keys, order and limit

  /** What `find_all` takes out of the conditions before filtering. */
  datatype Plan = Plan(branch: string, filters: Conditions, order: Option<Cond>, orderBy: Option<Cond>, limit: Option<Cond>)

  /** The keys `find_all` deletes before filtering, in the order it
      deletes them: `branch`, then `cache_key` while the cache key is
      formatted, then `order`, `order_by` and `limit`. */
  const ControlKeys: seq<string> := ["branch", "cache_key", "order", "order_by", "limit"]

  predicate ControlKey(k: string) {
    k in ControlKeys
  }

  /** `conditions.delete(:branch) || GitModel.default_branch`: a branch is
      named by a string. */
  function BranchArg(b: Option<Cond>, defaultBranch: string): (o: Outcome<string>)
    ensures b.None? ==> o == Ok(defaultBranch)
    ensures b.Some? && b.value.Lit? && b.value.v.Str? ==> o == Ok(b.value.v.s)
    ensures b.Some? && !CondTruthy(b.value) ==> o == Ok(defaultBranch)
  {
    match b
    case None => Ok(defaultBranch)
    case Some(Lit(v)) => if v.Str? then Ok(v.s) else if !Truthy(v) then Ok(defaultBranch) else Raise(RuntimeFault)
    case Some(Proc(_, _)) => Raise(RuntimeFault)
  }

  /** Taking the control keys out; what is left are the filters. */
  function PlanOf(conds: Conditions, defaultBranch: string): (o: Outcome<Plan>)
    ensures o.Ok? <==> BranchArg(Get(conds, "branch"), defaultBranch).Ok?
    ensures o.Ok? ==> o.value.branch == BranchArg(Get(conds, "branch"), defaultBranch).value
    ensures o.Ok? ==> forall k :: ControlKey(k) ==> Get(o.value.filters, k) == None
    ensures o.Ok? ==> forall k :: !ControlKey(k) ==> Get(o.value.filters, k) == Get(conds, k)
    ensures o.Ok? ==> (o.value.order == Get(conds, "order") && o.value.orderBy == Get(conds, "order_by")
      && o.value.limit == Get(conds, "limit"))
  {
    var branch :- BranchArg(Get(conds, "branch"), defaultBranch);
    Ok(Plan(branch, Without(conds, ControlKeys), Get(conds, "order"), Get(conds, "order_by"), Get(conds, "limit")))
  }

  /** `order == :asc` or `order == :desc`, after `|| :asc`; any other
      direction is refused. */
  function DirectionOf(order: Option<Cond>): (o: Outcome<Direction>)
    ensures o == Ok(Asc) <==> order.None? || (order.value.Lit? && (!Truthy(order.value.v) || order.value.v == Sym("asc")))
    ensures o == Ok(Desc) <==> order.Some? && order.value.Lit? && order.value.v == Sym("desc")
    ensures o.Raise? ==> o.error == InvalidParams
  {
    match order
    case None => Ok(Asc)
    case Some(Proc(_, _)) => Raise(InvalidParams)
    case Some(Lit(v)) =>
      if !Truthy(v) || v == Sym("asc") then Ok(Asc)
      else if v == Sym("desc") then Ok(Desc)
      else Raise(InvalidParams)
  }

  /** `order_by` is `:id` after `|| :id`. */
  predicate ById(orderBy: Option<Cond>) {
    orderBy.None? || (orderBy.value.Lit? && (!Truthy(orderBy.value.v) || orderBy.value.v == Sym("id")))
  }

  /** No limit: the key is absent, `nil` or `false`. */
  predicate Unlimited(limit: Option<Cond>) {
    limit.None? || !CondTruthy(limit.value)
  }

  /** A limit that is a count of zero or more. */
  predicate Count(limit: Option<Cond>) {
    limit.Some? && limit.value.Lit? && limit.value.v.Int? && limit.value.v.i >= 0
  }

  function Min(a: int, b: int): int {
    if a < b then a else b
  }

  /** `s[0, limit]` under `if limit`. A negative count gives `nil`, which
      the `map` after it cannot take; a value that is no count is a
      TypeError. */
  function Limit<T>(s: seq<T>, limit: Option<Cond>): (o: Outcome<seq<T>>)
    ensures Unlimited(limit) ==> o == Ok(s)
    ensures Count(limit) ==> o.Ok? && |o.value| == Min(limit.value.v.i, |s|)
    ensures o.Ok? ==> |o.value| <= |s| && o.value == s[..|o.value|]
    ensures !Unlimited(limit) && !Count(limit) ==> o == Raise(RuntimeFault)
  {
    if Unlimited(limit) then Ok(s)
    else if Count(limit) then Ok(s[..Min(limit.value.v.i, |s|)])
    else Raise(RuntimeFault)
  }

  /** The ids that get loaded when ordering by id: sorted in the requested
      direction, then cut to the limit. */
  function IdsInOrder(ids: seq<string>, order: Option<Cond>, limit: Option<Cond>): (o: Outcome<seq<string>>)
    ensures DirectionOf(order).Raise? ==> o == Raise(InvalidParams)
    ensures o.Ok? ==> DirectionOf(order).Ok? && Sorted(DirectionOf(order).value, o.value)
    ensures o.Ok? ==> |o.value| <= |ids| && o.value == Sort(DirectionOf(order).value, ids)[..|o.value|]
    ensures o.Ok? ==> multiset(o.value) <= multiset(ids)
    ensures o.Ok? && Unlimited(limit) ==> multiset(o.value) == multiset(ids)
    ensures DirectionOf(order).Ok? && Count(limit) ==> o.Ok? && |o.value| == Min(limit.value.v.i, |ids|)
  {
    var d :- DirectionOf(order);
    var sorted := Sort(d, ids);
    var kept :- Limit(sorted, limit);
    assert sorted == kept + sorted[|kept|..];
    assert Sorted(d, kept) by {
      forall i, j | 0 <= i < j < |kept| ensures Precedes(d, kept[i], kept[j]) {
        assert kept[i] == sorted[i] && kept[j] == sorted[j];
      }
    }
    Ok(kept)
  }

  /** `ids.map { |k| find(k) }` from `branch`, a directory without
      `attributes.json` raising `noAttributes`: the first record that fails
      to load raises. */
  function FindEach(cls: ModelClass, repo: Repo, ids: seq<string>, branch: string, noAttributes: Error): (o: Outcome<seq<Record>>)
    ensures o.Ok? <==> forall i :: 0 <= i < |ids| ==> FindWith(cls, repo, ids[i], branch, noAttributes).Ok?
    ensures o.Ok? ==> |o.value| == |ids|
    ensures o.Ok? ==> forall i :: 0 <= i < |ids| ==> FindWith(cls, repo, ids[i], branch, noAttributes) == Ok(o.value[i])
    ensures o.Raise? ==> exists i :: 0 <= i < |ids| && FindWith(cls, repo, ids[i], branch, noAttributes) == Raise(o.error)
  {
    if ids == [] then Ok([])
    else
      var first :- FindWith(cls, repo, ids[0], branch, noAttributes);
      var rest := FindEach(cls, repo, ids[1..], branch, noAttributes);
      if rest.Raise? then
        RaiseShifts(id => FindWith(cls, repo, id, branch, noAttributes), ids, rest.error);
        Raise(rest.error)
      else
        OkShifts(id => FindWith(cls, repo, id, branch, noAttributes), ids, first, rest.value);
        Ok([first] + rest.value)
  }

  /** The error `find` raises for a directory without `attributes.json`:
      a NoMethodError as written, RecordNotFound as intended. */
  function NoAttributesError(asWritten: bool): Error {
    if asWritten then RuntimeFault else RecordNotFound
  }

  /** A failing load among the later ids is a failing load among all. */
  lemma RaiseShifts<R>(load: string -> Outcome<R>, ids: seq<string>, e: Error)
    requires ids != []
    requires exists j :: 0 <= j < |ids[1..]| && load(ids[1..][j]) == Raise(e)
    ensures exists i :: 0 <= i < |ids| && load(ids[i]) == Raise(e)
  {
    var j :| 0 <= j < |ids[1..]| && load(ids[1..][j]) == Raise(e);
    assert ids[j + 1] == ids[1..][j];
  }

  /** Loading the first id, then the later ones, loads every id in turn. */
  lemma OkShifts<R>(load: string -> Outcome<R>, ids: seq<string>, first: R, rest: seq<R>)
    requires ids != [] && load(ids[0]) == Ok(first) && |rest| == |ids| - 1
    requires forall j :: 0 <= j < |ids[1..]| ==> load(ids[1..][j]) == Ok(rest[j])
    ensures forall i :: 0 <= i < |ids| ==> load(ids[i]) == Ok(([first] + rest)[i])
  {
    var all := [first] + rest;
    forall i | 0 <= i < |ids| ensures load(ids[i]) == Ok(all[i]) {
      if i > 0 {
        assert all[i] == rest[i - 1] && ids[i] == ids[1..][i - 1];
      }
    }
  }

  /** The sort by another attribute compares the records' readers with
      Ruby's `<=>`; it is a parameter here. */
  type Arrange = (Cond, Direction, seq<Record>) -> seq<Record>

  /** The body of `find_all`. As written, the matched ids are loaded with
      `find(k)`, that is from the default branch whatever branch was
      queried, and through the load that reaches `nil.data` on a directory
      without `attributes.json`; as intended, from the branch queried and
      through the corrected load. */
  function FindAllWith(cls: ModelClass, repo: Repo, defaultBranch: string, ix: Index, conds: Conditions,
                       arrange: Arrange, asWritten: bool): (o: Outcome<seq<Record>>)
    ensures PlanOf(conds, defaultBranch).Raise? ==> o == Raise(RuntimeFault)
    ensures PlanOf(conds, defaultBranch).Ok? && PlanOf(conds, defaultBranch).value.branch !in repo.heads ==> o == Ok([])
    ensures o.Ok? && PlanOf(conds, defaultBranch).Ok? && PlanOf(conds, defaultBranch).value.branch in repo.heads ==>
      MatchingIds(repo.heads[PlanOf(conds, defaultBranch).value.branch], cls.subdir, ix, PlanOf(conds, defaultBranch).value.filters, asWritten).Ok?
    ensures (o.Ok? && PlanOf(conds, defaultBranch).Ok? && PlanOf(conds, defaultBranch).value.branch in repo.heads
      && ById(PlanOf(conds, defaultBranch).value.orderBy)) ==>
      var p := PlanOf(conds, defaultBranch).value;
      var ids := MatchingIds(repo.heads[p.branch], cls.subdir, ix, p.filters, asWritten).value;
      && IdsInOrder(ids, p.order, p.limit).Ok?
      && FindEach(cls, repo, IdsInOrder(ids, p.order, p.limit).value, if asWritten then defaultBranch else p.branch,
                  NoAttributesError(asWritten)) == o
  {
    var p :- PlanOf(conds, defaultBranch);
    if p.branch !in repo.heads then Ok([])
    else
      var ids :- MatchingIds(repo.heads[p.branch], cls.subdir, ix, p.filters, asWritten);
      var from := if asWritten then defaultBranch else p.branch;
      if ById(p.orderBy) then
        var kept :- IdsInOrder(ids, p.order, p.limit);
        FindEach(cls, repo, kept, from, NoAttributesError(asWritten))
      else
        var found :- FindEach(cls, repo, ids, from, NoAttributesError(asWritten));
        var d :- DirectionOf(p.order);
        Limit(arrange(p.orderBy.value, d, found), p.limit)
  }

  /** `Model.find_all(conditions)` as written. */
  function FindAllAsWritten(cls: ModelClass, repo: Repo, defaultBranch: string, ix: Index, conds: Conditions, arrange: Arrange): (o: Outcome<seq<Record>>)
    ensures PlanOf(conds, defaultBranch).Ok? && PlanOf(conds, defaultBranch).value.branch !in repo.heads ==> o == Ok([])
  {
    FindAllWith(cls, repo, defaultBranch, ix, conds, arrange, true)
  }

  /** `Model.find_all(conditions)` as intended. */
  function FindAll(cls: ModelClass, repo: Repo, defaultBranch: string, ix: Index, conds: Conditions, arrange: Arrange): (o: Outcome<seq<Record>>)
    ensures PlanOf(conds, defaultBranch).Ok? && PlanOf(conds, defaultBranch).value.branch !in repo.heads ==> o == Ok([])
  {
    FindAllWith(cls, repo, defaultBranch, ix, conds, arrange, false)
  }

  // ---------------------------------------------------------------------
  // The cache key

  /** `"#{val}"` of a condition value, a block shown by its hash. */
  function CondString(c: Cond): string {
    match c
    case Lit(v) => ToS(v)
    case Proc(_, code) => "proc-" + ToS(Int(code))
  }

  /** `"#{key}:#{val};"`. */
  function EntryKey(p: Pair<Cond>): (s: string)
    ensures |s| >= 2 && s[|s| - 1] == ';'
  {
    p.key + ":" + CondString(p.val) + ";"
  }

  /** One entry after another, in the hash's order. */
  function EntriesKey(h: Conditions): (s: string)
    ensures |s| >= 2 * |h|
    ensures s == [] <==> h == []
  {
    if h == [] then [] else EntryKey(h[0]) + EntriesKey(h[1..])
  }

  /** The key spells the entries one after another. */
  lemma {:induction false} EntriesKeyAppend(a: Conditions, b: Conditions)
    ensures EntriesKey(a + b) == EntriesKey(a) + EntriesKey(b)
  {
    if a != [] {
      assert (a + b)[0] == a[0] && (a + b)[1..] == a[1..] + b;
      EntriesKeyAppend(a[1..], b);
      assert EntryKey(a[0]) + (EntriesKey(a[1..]) + EntriesKey(b)) == (EntryKey(a[0]) + EntriesKey(a[1..])) + EntriesKey(b);
    } else {
      assert a + b == b;
    }
  }

  /** `format_conditions_hash_for_cache_key(hash)`: the key, and the hash
      after `cache_key` is deleted from it. An explicit cache key that is
      truthy is the key; otherwise every remaining entry is spelled out. */
  function FormatConditionsHashForCacheKey(h: Conditions): (r: (string, Conditions))
    ensures !HasKey(r.1, "cache_key")
    ensures forall k :: k != "cache_key" ==> Get(r.1, k) == Get(h, k)
    ensures Get(h, "cache_key").Some? && CondTruthy(Get(h, "cache_key").value) ==> r.0 == CondString(Get(h, "cache_key").value)
    ensures !(Get(h, "cache_key").Some? && CondTruthy(Get(h, "cache_key").value)) ==> r.0 == EntriesKey(r.1)
  {
    var explicit := Get(h, "cache_key");
    var rest := Remove(h, "cache_key");
    if explicit.Some? && CondTruthy(explicit.value) then (CondString(explicit.value), rest)
    else (EntriesKey(rest), rest)
  }

  /** The key `find_all` caches its result under. */
  function FindAllCacheKey(cls: ModelClass, conds: Conditions): (key: string)
    ensures cls.subdir + "-find_all-" <= key
  {
    cls.subdir + "-find_all-" + FormatConditionsHashForCacheKey(Remove(conds, "branch")).0
  }

  /** An explicit cache key decides the key whatever the filters are; it
      is how queries with blocks, whose hashes differ from run to run, are
      given a stable key. */
  lemma ExplicitKeyDecides(cls: ModelClass, a: Conditions, b: Conditions, key: string)
    requires Get(a, "cache_key") == Some(Lit(Str(key))) && Get(b, "cache_key") == Some(Lit(Str(key)))
    ensures FindAllCacheKey(cls, a) == FindAllCacheKey(cls, b) == cls.subdir + "-find_all-" + key
  {
    ExplicitKeyOf(cls, a, key);
    ExplicitKeyOf(cls, b, key);
  }

  lemma ExplicitKeyOf(cls: ModelClass, c: Conditions, key: string)
    requires Get(c, "cache_key") == Some(Lit(Str(key)))
    ensures FindAllCacheKey(cls, c) == cls.subdir + "-find_all-" + key
  {
    var rest := Remove(c, "branch");
    assert Get(rest, "cache_key") == Some(Lit(Str(key)));
    assert CondTruthy(Lit(Str(key))) && CondString(Lit(Str(key))) == key;
    assert FormatConditionsHashForCacheKey(rest).0 == key;
  }

  /** Without a `branch` or a `cache_key` entry, the key spells out every
      filter as `key:value;`, in the order the query lists them. */
  lemma PlainKeySpellsEntries(cls: ModelClass, c: Conditions)
    requires !HasKey(c, "branch") && !HasKey(c, "cache_key")
    ensures FindAllCacheKey(cls, c) == cls.subdir + "-find_all-" + EntriesKey(c)
  {
    RemoveAbsent(c, "branch");
    RemoveAbsent(c, "cache_key");
    assert Get(c, "cache_key") == None;
  }

  /** The branch is deleted from the conditions before the key is formed:
      naming a branch, or deleting it, leaves the key as it was. The cache
      itself is per branch. */
  lemma BranchLeavesKey(cls: ModelClass, c: Conditions, b: Cond)
    ensures FindAllCacheKey(cls, Put(c, "branch", b)) == FindAllCacheKey(cls, c)
    ensures FindAllCacheKey(cls, Remove(c, "branch")) == FindAllCacheKey(cls, c)
  {
    RemovePut(c, "branch", b);
    var r := Remove(c, "branch");
    assert !HasKey(r, "branch") by { assert Get(r, "branch") == None; }
    RemoveAbsent(r, "branch");
  }

  /** A worked key: a string, an integer and a block, with the branch
      left out. */
  lemma KeyExample(cls: ModelClass, test: Val -> bool)
    ensures FindAllCacheKey(cls, [Pair("author", Lit(Str("ann"))), Pair("branch", Lit(Str("dev"))),
                                  Pair("year", Lit(Int(7))), Pair("title", Proc(test, -12))])
      == cls.subdir + "-find_all-author:ann;year:7;title:proc--12;"
  {
    var c := [Pair("author", Lit(Str("ann"))), Pair("branch", Lit(Str("dev"))),
              Pair("year", Lit(Int(7))), Pair("title", Proc(test, -12))];
    var rest := [Pair("author", Lit(Str("ann"))), Pair("year", Lit(Int(7))), Pair("title", Proc(test, -12))];
    ExampleRemove(c[0], c[1], c[2], c[3]);
    assert c == [c[0], c[1], c[2], c[3]];
    ExampleNoKey(rest[0], rest[1], rest[2], "cache_key");
    ExampleSpelling(rest[0], rest[1], rest[2]);
  }

  lemma ExampleNoKey(p0: Pair<Cond>, p1: Pair<Cond>, p2: Pair<Cond>, k: string)
    requires p0.key != k && p1.key != k && p2.key != k
    ensures Get([p0, p1, p2], k) == None && Remove([p0, p1, p2], k) == [p0, p1, p2]
  {
    var c := [p0, p1, p2];
    assert c[1..] == [p1, p2] && [p1, p2][1..] == [p2] && [p2][1..] == [];
    assert Get(c, k) == None;
    RemoveAbsent(c, k);
  }

  lemma ExampleRemove(p0: Pair<Cond>, p1: Pair<Cond>, p2: Pair<Cond>, p3: Pair<Cond>)
    requires p1.key == "branch" && p0.key != "branch" && p2.key != "branch" && p3.key != "branch"
    ensures Remove([p0, p1, p2, p3], "branch") == [p0, p2, p3]
  {
    var c := [p0, p1, p2, p3];
    assert c[1..] == [p1, p2, p3] && [p1, p2, p3][1..] == [p2, p3] && [p2, p3][1..] == [p3] && [p3][1..] == [];
    assert Remove([p3], "branch") == [p3];
    assert Remove([p2, p3], "branch") == [p2, p3];
  }

  lemma ExampleSpelling(p0: Pair<Cond>, p1: Pair<Cond>, p2: Pair<Cond>)
    requires p0 == Pair("author", Lit(Str("ann"))) && p1 == Pair("year", Lit(Int(7)))
    requires p2.key == "title" && p2.val.Proc? && p2.val.code == -12
    ensures EntriesKey([p0, p1, p2]) == "author:ann;year:7;title:proc--12;"
  {
    ExampleEntries(p0, p1, p2);
    var k0, k1, k2 := EntryKey(p0), EntryKey(p1), EntryKey(p2);
    assert [p0, p1, p2][1..] == [p1, p2] && [p1, p2][1..] == [p2] && [p2][1..] == [];
    assert EntriesKey([p2]) == k2;
    assert EntriesKey([p1, p2]) == k1 + k2;
    assert EntriesKey([p0, p1, p2]) == k0 + (k1 + k2);
  }

  lemma ExampleEntries(p0: Pair<Cond>, p1: Pair<Cond>, p2: Pair<Cond>)
    requires p0 == Pair("author", Lit(Str("ann"))) && p1 == Pair("year", Lit(Int(7)))
    requires p2.key == "title" && p2.val.Proc? && p2.val.code == -12
    ensures EntryKey(p0) == "author:ann;" && EntryKey(p1) == "year:7;" && EntryKey(p2) == "title:proc--12;"
  {
    assert CondString(p1.val) == "7" by { assert NatToString(7) == "7"; }
    assert CondString(p2.val) == "proc--12" by { NegativeTwelve(); }
  }

  lemma NegativeTwelve()
    ensures ToS(Int(-12)) == "-12"
  {
    assert NatToString(1) == "1";
    assert NatToString(12) == NatToString(1) + ['2'];
  }

  // ---------------------------------------------------------------------
  // Properties of a query

  /** A query is unfiltered exactly when it holds nothing but control
      keys. */
  lemma FiltersEmpty(conds: Conditions, defaultBranch: string)
    requires PlanOf(conds, defaultBranch).Ok?
    ensures PlanOf(conds, defaultBranch).value.filters == [] <==>
      forall i :: 0 <= i < |conds| ==> ControlKey(conds[i].key)
  {
    var f := PlanOf(conds, defaultBranch).value.filters;
    if f != [] {
      var k := f[0].key;
      assert HasKey(f, k) by {
        assert f[0].key == k;
      }
      assert !ControlKey(k) && Get(conds, k).Some?;
      var i :| 0 <= i < |conds| && conds[i].key == k;
    }
    if exists i :: 0 <= i < |conds| && !ControlKey(conds[i].key) {
      var i :| 0 <= i < |conds| && !ControlKey(conds[i].key);
      var k := conds[i].key;
      assert HasKey(conds, k);
      assert Get(f, k).Some?;
    }
  }

  /** A filter on another attribute, reached before any other condition,
      needs a generated index. */
  lemma NoIndexRaises(cls: ModelClass, repo: Repo, defaultBranch: string, ix: Index, conds: Conditions, arrange: Arrange)
    requires PlanOf(conds, defaultBranch).Ok?
    requires PlanOf(conds, defaultBranch).value.branch in repo.heads
    requires !ix.generated
    requires PlanOf(conds, defaultBranch).value.filters != []
    requires PlanOf(conds, defaultBranch).value.filters[0].key != "id"
    ensures FindAll(cls, repo, defaultBranch, ix, conds, arrange) == Raise(IndexRequired)
  {
  }

  /** A filter on an attribute the generated index has never seen, reached
      first, raises a NoMethodError, as written and as intended: finding
      nothing is not what the code does. */
  lemma UnindexedAttributeRaises(cls: ModelClass, repo: Repo, defaultBranch: string, ix: Index, conds: Conditions, arrange: Arrange, asWritten: bool)
    requires PlanOf(conds, defaultBranch).Ok?
    requires PlanOf(conds, defaultBranch).value.branch in repo.heads
    requires ix.generated
    requires PlanOf(conds, defaultBranch).value.filters != []
    requires PlanOf(conds, defaultBranch).value.filters[0].key != "id"
    requires PlanOf(conds, defaultBranch).value.filters[0].key !in ix.buckets
    ensures FindAllWith(cls, repo, defaultBranch, ix, conds, arrange, asWritten) == Raise(RuntimeFault)
  {
  }

  /** A tree without blobs at any depth lists no stored record. */
  lemma {:induction false} ListedNoBlobs(c: Contents, keep: string -> bool)
    requires NoBlobs(c)
    ensures Listed(c, keep) == []
  {
    if c != [] {
      assert c[0].GTree? && NoBlobs(c[0].contents);
      assert !AnyBlob(c[0].contents) by {
        forall j | 0 <= j < |c[0].contents| ensures !c[0].contents[j].GBlob? {
        }
      }
      assert NoBlobs(c[1..]) by {
        forall i | 0 <= i < |c[1..]| ensures c[1..][i].GTree? && NoBlobs(c[1..][i].contents) {
          assert c[1..][i] == c[i + 1];
        }
      }
      ListedNoBlobs(c[1..], keep);
    }
  }

  /** After `delete_all`, an unfiltered `find_all` finds nothing: the
      type's directory is left holding only empty subtrees. */
  lemma DeleteAllThenFindAll(cls: ModelClass, repo: Repo, defaultBranch: string, ix: Index, arrange: Arrange)
    requires ValidName(cls.subdir)
    requires defaultBranch in repo.heads && WellFormed(repo.heads[defaultBranch])
    requires Child(repo.heads[defaultBranch], cls.subdir).Some? && Child(repo.heads[defaultBranch], cls.subdir).value.GTree?
    ensures DeleteAll(repo, cls.subdir, defaultBranch).Ok?
    ensures FindAll(cls, After(repo, DeleteAll(repo, cls.subdir, defaultBranch).value), defaultBranch, ix, [], arrange) == Ok([])
    ensures FindAllAsWritten(cls, After(repo, DeleteAll(repo, cls.subdir, defaultBranch).value), defaultBranch, ix, [], arrange) == Ok([])
  {
    DeleteAllRemovesBlobs(repo, cls.subdir, defaultBranch);
    var after := After(repo, DeleteAll(repo, cls.subdir, defaultBranch).value);
    var cc := Child(repo.heads[defaultBranch], cls.subdir).value.contents;
    var root := CurrentTree(after, defaultBranch).GetOr([]);
    assert defaultBranch in after.heads by {
      assert CurrentTree(after, defaultBranch).Some? by {
        assert Child(root, cls.subdir).Some?;
      }
    }
    SlashName(root, cls.subdir);
    assert Slash(root, cls.subdir) == Some(GTree(cls.subdir, Strip(cc)));
    var p := PlanOf([], defaultBranch).value;
    WithoutEmpty<Cond>(ControlKeys);
    ListedNoBlobs(Strip(cc), _ => true);
    assert MatchingIds(root, cls.subdir, ix, [], false) == Ok([]);
    assert MatchingIds(root, cls.subdir, ix, [], true) == Ok([]);
    assert IdsInOrder([], None, None) == Ok([]);
  }

  /** Every record an id-ordered query returns was loaded from one
      branch: as written the default branch, as intended the branch
      queried. */
  lemma FindAllBranch(cls: ModelClass, repo: Repo, defaultBranch: string, ix: Index, conds: Conditions, arrange: Arrange, asWritten: bool)
    requires PlanOf(conds, defaultBranch).Ok?
    requires ById(PlanOf(conds, defaultBranch).value.orderBy)
    requires FindAllWith(cls, repo, defaultBranch, ix, conds, arrange, asWritten).Ok?
    ensures forall r :: r in FindAllWith(cls, repo, defaultBranch, ix, conds, arrange, asWritten).value ==>
      r.branch == Some(if asWritten then defaultBranch else PlanOf(conds, defaultBranch).value.branch)
  {
    var p := PlanOf(conds, defaultBranch).value;
    var from := if asWritten then defaultBranch else p.branch;
    if p.branch in repo.heads {
      var ids := MatchingIds(repo.heads[p.branch], cls.subdir, ix, p.filters, asWritten).value;
      var kept := IdsInOrder(ids, p.order, p.limit).value;
      FindEachBranch(cls, repo, kept, from, NoAttributesError(asWritten));
    }
  }

  /** Every record `find` loads from a branch remembers that branch. */
  lemma FindEachBranch(cls: ModelClass, repo: Repo, ids: seq<string>, branch: string, noAttributes: Error)
    requires FindEach(cls, repo, ids, branch, noAttributes).Ok?
    ensures forall r :: r in FindEach(cls, repo, ids, branch, noAttributes).value ==> r.branch == Some(branch)
  {
    var rs := FindEach(cls, repo, ids, branch, noAttributes).value;
    forall r | r in rs ensures r.branch == Some(branch) {
      var i :| 0 <= i < |rs| && rs[i] == r;
      assert FindWith(cls, repo, ids[i], branch, noAttributes) == Ok(r);
      assert r == LoadWith(Blank, repo, Join(cls.subdir, ids[i]), branch, noAttributes).record;
    }
  }

  /** A query whose type directory is missing from a branch that has
      commits: as written, `nil.trees` (or `nil / id`) raises. */
  lemma MissingSubdirRaises(cls: ModelClass, repo: Repo, defaultBranch: string, ix: Index, conds: Conditions, arrange: Arrange)
    requires PlanOf(conds, defaultBranch).Ok?
    requires PlanOf(conds, defaultBranch).value.branch in repo.heads
    requires Slash(repo.heads[PlanOf(conds, defaultBranch).value.branch], cls.subdir).None?
    requires PlanOf(conds, defaultBranch).value.filters == [] || PlanOf(conds, defaultBranch).value.filters[0].key == "id"
    ensures FindAllAsWritten(cls, repo, defaultBranch, ix, conds, arrange) == Raise(RuntimeFault)
  {
  }

  /** As intended, such an unfiltered query finds no record, as it does on
      a branch without commits. */
  lemma MissingSubdirEmpty(cls: ModelClass, repo: Repo, defaultBranch: string, ix: Index, conds: Conditions, arrange: Arrange)
    requires PlanOf(conds, defaultBranch).Ok?
    requires PlanOf(conds, defaultBranch).value.branch in repo.heads
    requires Slash(repo.heads[PlanOf(conds, defaultBranch).value.branch], cls.subdir).None?
    requires PlanOf(conds, defaultBranch).value.filters == []
    requires ById(PlanOf(conds, defaultBranch).value.orderBy)
    requires DirectionOf(PlanOf(conds, defaultBranch).value.order).Ok?
    requires Unlimited(PlanOf(conds, defaultBranch).value.limit) || Count(PlanOf(conds, defaultBranch).value.limit)
    ensures FindAll(cls, repo, defaultBranch, ix, conds, arrange) == Ok([])
  {
    var p := PlanOf(conds, defaultBranch).value;
    var ids := MatchingIds(repo.heads[p.branch], cls.subdir, ix, p.filters, false);
    assert ids == Ok([]) by {
      assert Subdir(repo.heads[p.branch], cls.subdir, false) == Ok([]);
      assert Listed([], _ => true) == [];
    }
    assert IdsInOrder([], p.order, p.limit) == Ok([]);
  }

  /** A query on a branch other than the default, which has no commits:
      as written, the ids listed on the branch queried are looked up on
      the default branch, and the first raises RecordNotFound. */
  lemma OtherBranchLoadsDefault(cls: ModelClass, repo: Repo, defaultBranch: string, ix: Index, conds: Conditions, arrange: Arrange)
    requires PlanOf(conds, defaultBranch).Ok?
    requires PlanOf(conds, defaultBranch).value.branch in repo.heads && defaultBranch !in repo.heads
    requires ById(PlanOf(conds, defaultBranch).value.orderBy)
    requires DirectionOf(PlanOf(conds, defaultBranch).value.order).Ok?
    requires Unlimited(PlanOf(conds, defaultBranch).value.limit)
    requires MatchingIds(repo.heads[PlanOf(conds, defaultBranch).value.branch], cls.subdir, ix,
                         PlanOf(conds, defaultBranch).value.filters, true).Ok?
    requires MatchingIds(repo.heads[PlanOf(conds, defaultBranch).value.branch], cls.subdir, ix,
                         PlanOf(conds, defaultBranch).value.filters, true).value != []
    ensures FindAllAsWritten(cls, repo, defaultBranch, ix, conds, arrange) == Raise(RecordNotFound)
  {
    var p := PlanOf(conds, defaultBranch).value;
    var ids := MatchingIds(repo.heads[p.branch], cls.subdir, ix, p.filters, true).value;
    var kept := IdsInOrder(ids, p.order, p.limit).value;
    assert |kept| > 0 by {
      assert |multiset(kept)| == |multiset(ids)|;
    }
    assert FindAsWritten(cls, repo, kept[0], defaultBranch) == Raise(RecordNotFound);
    var o := FindEach(cls, repo, kept, defaultBranch, RuntimeFault);
    assert o.Raise?;
    var i :| 0 <= i < |kept| && FindWith(cls, repo, kept[i], defaultBranch, RuntimeFault) == Raise(o.error);
  }

  /** As intended, the same query loads every listed record from the
      branch queried: when each one loads there, the query returns them
      in id order, all on that branch. */
  lemma OtherBranchLoadsBranch(cls: ModelClass, repo: Repo, defaultBranch: string, ix: Index, conds: Conditions, arrange: Arrange)
    requires PlanOf(conds, defaultBranch).Ok?
    requires PlanOf(conds, defaultBranch).value.branch in repo.heads
    requires ById(PlanOf(conds, defaultBranch).value.orderBy)
    requires DirectionOf(PlanOf(conds, defaultBranch).value.order).Ok?
    requires Unlimited(PlanOf(conds, defaultBranch).value.limit)
    requires MatchingIds(repo.heads[PlanOf(conds, defaultBranch).value.branch], cls.subdir, ix,
                         PlanOf(conds, defaultBranch).value.filters, false).Ok?
    requires forall x :: x in MatchingIds(repo.heads[PlanOf(conds, defaultBranch).value.branch], cls.subdir, ix,
                         PlanOf(conds, defaultBranch).value.filters, false).value ==>
      Find(cls, repo, x, PlanOf(conds, defaultBranch).value.branch).Ok?
    ensures FindAll(cls, repo, defaultBranch, ix, conds, arrange).Ok?
    ensures |FindAll(cls, repo, defaultBranch, ix, conds, arrange).value| ==
      |MatchingIds(repo.heads[PlanOf(conds, defaultBranch).value.branch], cls.subdir, ix,
                   PlanOf(conds, defaultBranch).value.filters, false).value|
    ensures forall r :: r in FindAll(cls, repo, defaultBranch, ix, conds, arrange).value ==>
      r.branch == Some(PlanOf(conds, defaultBranch).value.branch)
  {
    var p := PlanOf(conds, defaultBranch).value;
    var ids := MatchingIds(repo.heads[p.branch], cls.subdir, ix, p.filters, false).value;
    var kept := IdsInOrder(ids, p.order, p.limit).value;
    FindEachAll(cls, repo, kept, ids, p.branch);
    assert FindAll(cls, repo, defaultBranch, ix, conds, arrange) == FindEach(cls, repo, kept, p.branch, RecordNotFound);
    FindAllBranch(cls, repo, defaultBranch, ix, conds, arrange, false);
  }

  /** Loading a rearrangement of ids that all load. */
  lemma FindEachAll(cls: ModelClass, repo: Repo, kept: seq<string>, ids: seq<string>, branch: string)
    requires multiset(kept) == multiset(ids)
    requires forall x :: x in ids ==> Find(cls, repo, x, branch).Ok?
    ensures FindEach(cls, repo, kept, branch, RecordNotFound).Ok?
    ensures |FindEach(cls, repo, kept, branch, RecordNotFound).value| == |ids|
  {
    forall i | 0 <= i < |kept| ensures Find(cls, repo, kept[i], branch).Ok? {
      assert kept[i] in multiset(ids);
    }
    assert |kept| == |ids| by {
      assert |multiset(kept)| == |multiset(ids)|;
    }
  }

  /** `find_all(:id => v)` on the default branch: the record stored under
      `v` when `v` is a string naming an entry of the type's directory,
      otherwise nothing. */
  lemma FindAllById(cls: ModelClass, repo: Repo, defaultBranch: string, ix: Index, arrange: Arrange, v: Val)
    requires defaultBranch in repo.heads
    requires Subdir(repo.heads[defaultBranch], cls.subdir, false).Ok?
    ensures var sub := Subdir(repo.heads[defaultBranch], cls.subdir, false).value;
      var o := FindAll(cls, repo, defaultBranch, ix, [Pair("id", Lit(v))], arrange);
      && (!v.Str? || Slash(sub, v.s).None? ==> o == Ok([]))
      && (v.Str? && Slash(sub, v.s).Some? ==>
            && (o.Ok? <==> Find(cls, repo, v.s, defaultBranch).Ok?)
            && (o.Ok? ==> o.value == [Find(cls, repo, v.s, defaultBranch).value])
            && (o.Raise? ==> o.error == Find(cls, repo, v.s, defaultBranch).error))
  {
    var conds: Conditions := [Pair("id", Lit(v))];
    var root := repo.heads[defaultBranch];
    var sub := Subdir(root, cls.subdir, false).value;
    var ids := if v.Str? && Slash(sub, v.s).Some? then [v.s] else [];
    IdOnlyPlan(v, defaultBranch);
    IdOnlyMatching(root, cls.subdir, ix, v);
    IdsInOrderShort(ids);
    PlainQueryLoads(cls, repo, defaultBranch, ix, conds, arrange, ids);
    if ids != [] {
      FindEachOne(cls, repo, v.s, defaultBranch);
    }
  }

  /** Loading one id is `find` on it, in a list. */
  lemma FindEachOne(cls: ModelClass, repo: Repo, id: string, branch: string)
    ensures Find(cls, repo, id, branch).Ok? ==> FindEach(cls, repo, [id], branch, RecordNotFound) == Ok([Find(cls, repo, id, branch).value])
    ensures Find(cls, repo, id, branch).Raise? ==> FindEach(cls, repo, [id], branch, RecordNotFound) == Raise(Find(cls, repo, id, branch).error)
  {
    var o := FindEach(cls, repo, [id], branch, RecordNotFound);
    assert [id][0] == id;
    if o.Ok? {
      assert o.value == [o.value[0]];
    } else {
      var i :| 0 <= i < 1 && FindWith(cls, repo, [id][i], branch, RecordNotFound) == Raise(o.error);
    }
  }

  /** A query with no control keys whose matched ids are already in order
      loads exactly those ids from the branch it queried. */
  lemma PlainQueryLoads(cls: ModelClass, repo: Repo, defaultBranch: string, ix: Index, conds: Conditions,
                        arrange: Arrange, ids: seq<string>)
    requires PlanOf(conds, defaultBranch) == Ok(Plan(defaultBranch, conds, None, None, None))
    requires defaultBranch in repo.heads
    requires MatchingIds(repo.heads[defaultBranch], cls.subdir, ix, conds, false) == Ok(ids)
    requires IdsInOrder(ids, None, None) == Ok(ids)
    ensures FindAll(cls, repo, defaultBranch, ix, conds, arrange) == FindEach(cls, repo, ids, defaultBranch, RecordNotFound)
  {
  }

  /** A lone `id` condition holds no control key. */
  lemma IdOnlyPlan(v: Val, defaultBranch: string)
    ensures PlanOf([Pair("id", Lit(v))], defaultBranch) == Ok(Plan(defaultBranch, [Pair("id", Lit(v))], None, None, None))
  {
    var conds: Conditions := [Pair("id", Lit(v))];
    assert forall k :: k in ControlKeys ==> !HasKey(conds, k);
    WithoutAbsent(conds, ControlKeys);
    assert Get(conds, "branch") == None && Get(conds, "order") == None;
    assert Get(conds, "order_by") == None && Get(conds, "limit") == None;
  }

  /** A lone `id` literal matches itself when it names a node below the
      type's directory, and nothing otherwise. */
  lemma IdOnlyMatching(root: Contents, subdir: string, ix: Index, v: Val)
    requires Subdir(root, subdir, false).Ok?
    ensures var sub := Subdir(root, subdir, false).value;
      MatchingIds(root, subdir, ix, [Pair("id", Lit(v))], false)
        == Ok(if v.Str? && Slash(sub, v.s).Some? then [v.s] else [])
  {
    var conds: Conditions := [Pair("id", Lit(v))];
    var sub := Subdir(root, subdir, false).value;
    var ids := if v.Str? && Slash(sub, v.s).Some? then [v.s] else [];
    assert CondIds(root, subdir, ix, "id", Lit(v), false) == Ok(ids);
    var all := CondIdsAll(root, subdir, ix, conds, false);
    assert all.Ok? && |all.value| == 1 && all.value[0] == ids;
    assert all.value == [ids];
  }

  /** At most one id is already in order and within no limit. */
  lemma IdsInOrderShort(ids: seq<string>)
    requires |ids| <= 1
    ensures IdsInOrder(ids, None, None) == Ok(ids)
  {
    assert Sort(Asc, ids) == ids by {
      if ids != [] {
        assert ids[..|ids| - 1] == [];
      }
    }
  }

}
