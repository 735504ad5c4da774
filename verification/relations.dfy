/** Associations between records: the reflections that `belongs_to`,
    `has_one` and `has_many` declare, the per-class registry that holds
    them, and the proxy each record keeps per association. Records are
    objects on a heap, so that two records can point at each other and a
    change made through one is seen through the other. Nothing here writes
    to the store: a relation is persisted only by saving the record that
    holds its foreign key. */
module Relations {
  import opened Outcomes
  import opened Values
  import opened Hashes
  import opened Store
  import opened Persistable
  import Query

  // ---------------------------------------------------------------------
  // Reflections

  /** The reflection classes `Reflections::To` (`belongs_to`),
      `Reflections::One` (`has_one`) and `Reflections::Many`
      (`has_many`); each one's `proxy` is the proxy class of the same
      name. */
  datatype Kind = To | One | Many

  /** ActiveSupport's inflections, left abstract. */
  datatype Inflector = Inflector(classify: string -> string, tableize: string -> string, singularize: string -> string)

  /** The options of a declaration; an option that is missing, `nil` or
      `false` is `None`. */
  datatype Options = Options(className: Option<string>, inverseOf: Option<string>, foreignKey: Option<string>)

  const NoOptions: Options := Options(None, None, None)

  /** A declared association: the declaring class, the association's
      name, the target class's name, the name of the association on the
      target that points back, and the attribute holding the key. */
  datatype Reflection = Reflection(kind: Kind, model: string, name: string, typeName: string, inverse: string, foreignKey: Option<string>)

  const IdSuffix: string := "_id"

  /** `default_foreign_key`: `name_id` for a To, `inverse_id` for a One,
      `nil` for a Many. */
  function DefaultForeignKey(kind: Kind, name: string, inverse: string): Option<string> {
    match kind
    case To => Some(name + IdSuffix)
    case One => Some(inverse + IdSuffix)
    case Many => None
  }

  /** A to-one reflection knows which attribute holds its key. */
  predicate Keyed(r: Reflection) {
    r.kind != Many ==> r.foreignKey.Some?
  }

  /** `Reflection.new(model, name, options)` of the given kind. */
  function NewReflection(kind: Kind, model: string, name: string, opts: Options, infl: Inflector): (r: Reflection)
    ensures r.kind == kind && r.model == model && r.name == name
    ensures Keyed(r)
    ensures opts.foreignKey.Some? ==> r.foreignKey == opts.foreignKey
    ensures opts.className.Some? ==> r.typeName == opts.className.value
    ensures opts.inverseOf.Some? ==> r.inverse == opts.inverseOf.value
  {
    var inverse := opts.inverseOf.GetOr(infl.singularize(infl.tableize(model)));
    var fk := if opts.foreignKey.Some? then opts.foreignKey else DefaultForeignKey(kind, name, inverse);
    Reflection(kind, model, name, opts.className.GetOr(infl.classify(name)), inverse, fk)
  }

  /** `stores_foreign_key?`: `!!foreign_key`. */
  predicate StoresForeignKey(r: Reflection) {
    r.foreignKey.Some?
  }

  /** Without options, the target class is the classified name, the
      inverse is the singular table name of the declaring class, and the
      key is the kind's default. */
  lemma ReflectionDefaults(kind: Kind, model: string, name: string, infl: Inflector)
    ensures NewReflection(kind, model, name, NoOptions, infl).typeName == infl.classify(name)
    ensures NewReflection(kind, model, name, NoOptions, infl).inverse == infl.singularize(infl.tableize(model))
    ensures NewReflection(kind, model, name, NoOptions, infl).foreignKey ==
      DefaultForeignKey(kind, name, infl.singularize(infl.tableize(model)))
  {
  }

  /** A To reflection's key is its name followed by `_id` unless one is
      given, and depends on nothing else: not on `:inverse_of`, not on
      `:class_name`, not on the declaring class. */
  lemma ToKeyDependsOnNameOnly(m1: string, m2: string, name: string, o1: Options, o2: Options, i1: Inflector, i2: Inflector)
    requires o1.foreignKey == o2.foreignKey
    ensures NewReflection(To, m1, name, o1, i1).foreignKey == NewReflection(To, m2, name, o2, i2).foreignKey
    ensures o1.foreignKey.None? ==> NewReflection(To, m1, name, o1, i1).foreignKey == Some(name + IdSuffix)
  {
  }

  /** `x + "_id"` names `x` alone. */
  lemma SuffixInjective(a: string, b: string)
    requires a + IdSuffix == b + IdSuffix
    ensures a == b
  {
    assert |a| == |b|;
    assert a == (a + IdSuffix)[..|a|];
    assert b == (b + IdSuffix)[..|b|];
  }

  /** A One reflection's default key follows its inverse: two different
      inverses give two different keys, and an explicit key overrides
      either. */
  lemma OneKeyFollowsInverse(model: string, name: string, o1: Options, o2: Options, infl: Inflector)
    requires o1.foreignKey.None? && o2.foreignKey.None?
    ensures NewReflection(One, model, name, o1, infl).foreignKey == Some(NewReflection(One, model, name, o1, infl).inverse + IdSuffix)
    ensures NewReflection(One, model, name, o1, infl).inverse != NewReflection(One, model, name, o2, infl).inverse ==>
      NewReflection(One, model, name, o1, infl).foreignKey != NewReflection(One, model, name, o2, infl).foreignKey
  {
    var r1 := NewReflection(One, model, name, o1, infl);
    var r2 := NewReflection(One, model, name, o2, infl);
    if r1.foreignKey == r2.foreignKey {
      SuffixInjective(r1.inverse, r2.inverse);
    }
  }

  /** With default inverses, `has_one` on the owning class and
      `belongs_to` on the target agree on the key whenever the
      association's name is the owning class's singular table name:
      `Garage has_one :car` and `Car belongs_to :garage` both use
      `garage_id`. */
  lemma DefaultKeysAgree(owner: string, target: string, one: string, to: string, infl: Inflector)
    requires infl.singularize(infl.tableize(owner)) == to
    ensures NewReflection(One, owner, one, NoOptions, infl).foreignKey == Some(to + IdSuffix)
    ensures NewReflection(One, owner, one, NoOptions, infl).foreignKey == NewReflection(To, target, to, NoOptions, infl).foreignKey
  {
  }

  /** A To or One reflection always stores a key; a Many one only when
      `:foreign_key` is given. */
  lemma StoresForeignKeyByKind(kind: Kind, model: string, name: string, opts: Options, infl: Inflector)
    ensures StoresForeignKey(NewReflection(kind, model, name, opts, infl)) <==> kind != Many || opts.foreignKey.Some?
  {
  }

  // ---------------------------------------------------------------------
  // The registry

  /** One class's `relations`: association name to reflection. */
  type RelationMap = map<string, Reflection>

  /** Every class's `relations`; a class that declared nothing is absent. */
  type Registry = map<string, RelationMap>

  function RelationsOf(reg: Registry, model: string): RelationMap {
    if model in reg then reg[model] else map[]
  }

  /** `self.class.relations[name]`. */
  function LookupRelation(reg: Registry, model: string, name: string): Option<Reflection> {
    var rs := RelationsOf(reg, model);
    if name in rs then Some(rs[name]) else None
  }

  /** Every registered to-one reflection knows its key. */
  predicate RegistryKeyed(reg: Registry) {
    forall m, n :: m in reg && n in reg[m] ==> Keyed(reg[m][n])
  }

  /** `relate(relation)`: the reflection is stored under its name in its
      class's relations; a later declaration of the same name replaces
      the earlier one, and every other entry stays. */
  function Relate(reg: Registry, r: Reflection): (reg2: Registry)
    ensures LookupRelation(reg2, r.model, r.name) == Some(r)
    ensures forall m, n :: (m != r.model || n != r.name) ==> LookupRelation(reg2, m, n) == LookupRelation(reg, m, n)
    ensures RegistryKeyed(reg) && Keyed(r) ==> RegistryKeyed(reg2)
  {
    reg[r.model := RelationsOf(reg, r.model)[r.name := r]]
  }

  /** `has_one name, options`. */
  function HasOne(reg: Registry, model: string, name: string, opts: Options, infl: Inflector): (reg2: Registry)
    ensures LookupRelation(reg2, model, name).Some? && LookupRelation(reg2, model, name).value.kind == One
    ensures LookupRelation(reg2, model, name) == Some(NewReflection(One, model, name, opts, infl))
    ensures forall m, n :: (m != model || n != name) ==> LookupRelation(reg2, m, n) == LookupRelation(reg, m, n)
    ensures RegistryKeyed(reg) ==> RegistryKeyed(reg2)
  {
    Relate(reg, NewReflection(One, model, name, opts, infl))
  }

  /** `belongs_to name, options`. */
  function BelongsTo(reg: Registry, model: string, name: string, opts: Options, infl: Inflector): (reg2: Registry)
    ensures LookupRelation(reg2, model, name).Some? && LookupRelation(reg2, model, name).value.kind == To
    ensures LookupRelation(reg2, model, name) == Some(NewReflection(To, model, name, opts, infl))
    ensures forall m, n :: (m != model || n != name) ==> LookupRelation(reg2, m, n) == LookupRelation(reg, m, n)
    ensures RegistryKeyed(reg) ==> RegistryKeyed(reg2)
  {
    Relate(reg, NewReflection(To, model, name, opts, infl))
  }

  /** `has_many name, options`. */
  function HasMany(reg: Registry, model: string, name: string, opts: Options, infl: Inflector): (reg2: Registry)
    ensures LookupRelation(reg2, model, name).Some? && LookupRelation(reg2, model, name).value.kind == Many
    ensures LookupRelation(reg2, model, name) == Some(NewReflection(Many, model, name, opts, infl))
    ensures forall m, n :: (m != model || n != name) ==> LookupRelation(reg2, m, n) == LookupRelation(reg, m, n)
    ensures RegistryKeyed(reg) ==> RegistryKeyed(reg2)
  {
    Relate(reg, NewReflection(Many, model, name, opts, infl))
  }

  /** `has_and_belongs_to_many name, options` declares nothing. */
  function HasAndBelongsToMany(reg: Registry, model: string, name: string, opts: Options): (reg2: Registry)
    ensures forall m, n :: LookupRelation(reg2, m, n) == LookupRelation(reg, m, n)
  {
    reg
  }

  /** Declaring the same association twice keeps only the second
      declaration. */
  lemma RedeclarationReplaces(reg: Registry, r1: Reflection, r2: Reflection)
    requires r1.model == r2.model && r1.name == r2.name
    ensures LookupRelation(Relate(Relate(reg, r1), r2), r1.model, r1.name) == Some(r2)
    ensures forall m, n :: (m != r1.model || n != r1.name) ==>
      LookupRelation(Relate(Relate(reg, r1), r2), m, n) == LookupRelation(reg, m, n)
  {
  }

  // ---------------------------------------------------------------------
  // Records on a heap, with their proxies

  /** A reference to a record object. */
  type Ref = nat

  /** A proxy: its reflection and its cached target. Its owner is the
      record whose memo holds it. */
  datatype Proxy = Proxy(relation: Reflection, target: Option<Ref>)

  /** A record object: its class, its persistable state, and `@proxies`,
      which is `nil` until the first proxy is asked for. */
  datatype Obj = Obj(model: string, record: Record, proxies: Option<map<string, Proxy>>)

  /** The record objects in existence, by reference. */
  datatype Heap = Heap(objs: seq<Obj>)

  /** What an operation that may raise leaves behind: the heap, including
      the assignments made before a raise, and the outcome. */
  datatype Step<T> = Step(heap: Heap, result: Outcome<T>)

  function ProxiesOf(o: Obj): map<string, Proxy> {
    if o.proxies.Some? then o.proxies.value else map[]
  }

  /** The proxy memo of `x`. */
  function Memo(h: Heap, x: Ref): map<string, Proxy>
    requires x < |h.objs|
  {
    ProxiesOf(h.objs[x])
  }

  predicate HasProxy(h: Heap, x: Ref, name: string) {
    x < |h.objs| && name in Memo(h, x)
  }

  function TargetOf(h: Heap, x: Ref, name: string): Option<Ref>
    requires HasProxy(h, x, name)
  {
    Memo(h, x)[name].target
  }

  predicate Points(t: Option<Ref>, size: nat) {
    t.Some? ==> t.value < size
  }

  /** A proxy points into the heap, knows its key if it is to-one, and
      has no target if it is a Many proxy (nothing ever assigns one: the
      base class's `replace` does nothing and `Many#set` raises first). */
  predicate ProxyOk(p: Proxy, size: nat) {
    Points(p.target, size) && Keyed(p.relation) && (p.relation.kind == Many ==> p.target.None?)
  }

  predicate ObjOk(o: Obj, size: nat) {
    forall n :: n in ProxiesOf(o) ==> ProxyOk(ProxiesOf(o)[n], size)
  }

  /** No reference dangles and every proxy is well-formed. */
  predicate Valid(h: Heap) {
    forall x :: 0 <= x < |h.objs| ==> ObjOk(h.objs[x], |h.objs|)
  }

  lemma ValidProxy(h: Heap, x: Ref, name: string)
    requires Valid(h) && HasProxy(h, x, name)
    ensures ProxyOk(Memo(h, x)[name], |h.objs|)
  {
    assert ObjOk(h.objs[x], |h.objs|);
  }

  /** Two states of one object that differ at most in their attributes. */
  predicate OnlyAttributes(a: Obj, b: Obj) {
    a.model == b.model && a.record == b.record.(attributes := a.record.attributes)
  }

  /** Two heaps with the same objects, which differ at most in their
      attributes. */
  predicate AttributesOnly(h2: Heap, h: Heap) {
    |h2.objs| == |h.objs| && forall y :: 0 <= y < |h.objs| ==> OnlyAttributes(h2.objs[y], h.objs[y])
  }

  lemma AttributesOnlyTrans(h3: Heap, h2: Heap, h: Heap)
    requires AttributesOnly(h3, h2) && AttributesOnly(h2, h)
    ensures AttributesOnly(h3, h)
  {
    forall y | 0 <= y < |h.objs| ensures OnlyAttributes(h3.objs[y], h.objs[y]) {
      assert OnlyAttributes(h3.objs[y], h2.objs[y]) && OnlyAttributes(h2.objs[y], h.objs[y]);
    }
  }

  /** Whether an object is well-formed depends on its proxies alone. */
  lemma ObjOkProxies(a: Obj, b: Obj, size: nat)
    requires ObjOk(b, size) && ProxiesOf(a) == ProxiesOf(b)
    ensures ObjOk(a, size)
  {
  }

  /** `record && record.id`. */
  function IdOf(h: Heap, rec: Option<Ref>): Val
    requires Points(rec, |h.objs|)
  {
    match rec
    case None => Nil
    case Some(y) => if h.objs[y].record.id.Some? then Str(h.objs[y].record.id.value) else Nil
  }

  /** The reflection of the proxy `x.proxy(name)` hands back, or `None`
      when that call raises. */
  function ProxyRelation(reg: Registry, h: Heap, x: Ref, name: string): Option<Reflection>
    requires x < |h.objs|
  {
    if name in Memo(h, x) then Some(Memo(h, x)[name].relation)
    else if h.objs[x].proxies.None? && h.objs[x].record.frozen then None
    else LookupRelation(reg, h.objs[x].model, name)
  }

  /** `x.proxy(name)`: the memoised proxy, or a new one without a target
      built from the class's reflection, remembered under `name`. Making
      the memo assigns `@proxies`, which a frozen record refuses; a name
      the class never declared reaches `nil.proxy`. */
  function ProxyOf(reg: Registry, h: Heap, x: Ref, name: string): (s: Step<Proxy>)
    requires x < |h.objs|
    ensures |s.heap.objs| == |h.objs|
    ensures forall y :: 0 <= y < |h.objs| && y != x ==> s.heap.objs[y] == h.objs[y]
    ensures s.heap.objs[x].model == h.objs[x].model && s.heap.objs[x].record == h.objs[x].record
    ensures forall n :: n in Memo(h, x) ==> n in Memo(s.heap, x) && Memo(s.heap, x)[n] == Memo(h, x)[n]
    ensures forall n :: n in Memo(s.heap, x) && n != name ==> n in Memo(h, x)
    ensures s.result.Ok? <==> ProxyRelation(reg, h, x, name).Some?
    ensures s.result.Ok? ==> name in Memo(s.heap, x) && Memo(s.heap, x)[name] == s.result.value
    ensures s.result.Ok? ==> s.result.value.relation == ProxyRelation(reg, h, x, name).value
    ensures name in Memo(h, x) ==> s == Step(h, Ok(Memo(h, x)[name]))
    ensures name !in Memo(h, x) && s.result.Ok? ==> s.result.value.target.None?
    ensures h.objs[x].proxies.None? && h.objs[x].record.frozen ==> s == Step(h, Raise(FrozenRecord))
    ensures s.result.Raise? && (h.objs[x].proxies.Some? || !h.objs[x].record.frozen) ==> s.result.error == RuntimeFault
    ensures Valid(h) && RegistryKeyed(reg) ==> Valid(s.heap)
  {
    var o := h.objs[x];
    if o.proxies.None? && o.record.frozen then Step(h, Raise(FrozenRecord))
    else
      var memo := Memo(h, x);
      if name in memo then Step(h, Ok(memo[name]))
      else
        match LookupRelation(reg, o.model, name)
        case None => Step(h.(objs := h.objs[x := o.(proxies := Some(memo))]), Raise(RuntimeFault))
        case Some(rel) =>
          var p := Proxy(rel, None);
          var h2 := h.(objs := h.objs[x := o.(proxies := Some(memo[name := p]))]);
          assert Valid(h) && RegistryKeyed(reg) ==> Valid(h2) by {
            if Valid(h) && RegistryKeyed(reg) {
              assert ProxyOk(p, |h.objs|);
              forall y | 0 <= y < |h2.objs| ensures ObjOk(h2.objs[y], |h2.objs|) {
                if y != x {
                  assert ObjOk(h.objs[y], |h.objs|);
                } else {
                  assert ObjOk(h.objs[x], |h.objs|);
                }
              }
            }
          }
          Step(h2, Ok(p))
  }

  /** `proxy.replace(record)` on the proxy `name` of `x`. A To proxy
      caches the record and writes its id (or `nil`) into the owner's key
      attribute; a One proxy only caches it; a Many proxy inherits the
      base class's `replace`, which does nothing. */
  function Replace(h: Heap, x: Ref, name: string, rec: Option<Ref>): (h2: Heap)
    requires HasProxy(h, x, name) && Points(rec, |h.objs|) && Keyed(Memo(h, x)[name].relation)
    ensures |h2.objs| == |h.objs|
    ensures forall y :: 0 <= y < |h.objs| && y != x ==> h2.objs[y] == h.objs[y]
    ensures AttributesOnly(h2, h)
    ensures Memo(h2, x).Keys == Memo(h, x).Keys
    ensures forall n :: n in Memo(h, x) && n != name ==> Memo(h2, x)[n] == Memo(h, x)[n]
    ensures Memo(h2, x)[name].relation == Memo(h, x)[name].relation
    ensures Memo(h, x)[name].relation.kind != Many ==> TargetOf(h2, x, name) == rec
    ensures Memo(h, x)[name].relation.kind == Many ==> h2 == h
    ensures Memo(h, x)[name].relation.kind == To ==>
      h2.objs[x].record.attributes == h.objs[x].record.attributes[Memo(h, x)[name].relation.foreignKey.value := IdOf(h, rec)]
    ensures Memo(h, x)[name].relation.kind != To ==> h2.objs[x].record == h.objs[x].record
    ensures Valid(h) ==> Valid(h2)
  {
    var o := h.objs[x];
    var memo := Memo(h, x);
    var p := memo[name];
    var cached := Some(memo[name := p.(target := rec)]);
    var o2 := match p.relation.kind
      case To => o.(record := o.record.(attributes := o.record.attributes[p.relation.foreignKey.value := IdOf(h, rec)]), proxies := cached)
      case One => o.(proxies := cached)
      case Many => o;
    var h2 := h.(objs := h.objs[x := o2]);
    assert Valid(h) ==> Valid(h2) by {
      if Valid(h) {
        ValidProxy(h, x, name);
        forall y | 0 <= y < |h2.objs| ensures ObjOk(h2.objs[y], |h2.objs|) {
          assert ObjOk(h.objs[y], |h.objs|);
        }
      }
    }
    h2
  }

  /** `y.proxy(name).replace(rec)`. */
  function Link(reg: Registry, h: Heap, y: Ref, name: string, rec: Option<Ref>): (s: Step<()>)
    requires Valid(h) && RegistryKeyed(reg) && y < |h.objs| && Points(rec, |h.objs|)
    ensures |s.heap.objs| == |h.objs| && Valid(s.heap)
    ensures forall z :: 0 <= z < |h.objs| && z != y ==> s.heap.objs[z] == h.objs[z]
    ensures AttributesOnly(s.heap, h)
    ensures forall n :: n in Memo(h, y) ==> n in Memo(s.heap, y) && Memo(s.heap, y)[n].relation == Memo(h, y)[n].relation
    ensures forall n :: n in Memo(h, y) && n != name ==> Memo(s.heap, y)[n] == Memo(h, y)[n]
    ensures s.result.Ok? <==> ProxyRelation(reg, h, y, name).Some?
    ensures s.result.Raise? ==> s.heap.objs[y].record == h.objs[y].record
    ensures s.result.Ok? ==> HasProxy(s.heap, y, name)
    ensures s.result.Ok? ==> Memo(s.heap, y)[name].relation == ProxyRelation(reg, h, y, name).value
    ensures s.result.Ok? ==>
      TargetOf(s.heap, y, name) == if ProxyRelation(reg, h, y, name).value.kind == Many then None else rec
    ensures s.result.Ok? && ProxyRelation(reg, h, y, name).value.kind == To ==>
      s.heap.objs[y].record.attributes == h.objs[y].record.attributes[ProxyRelation(reg, h, y, name).value.foreignKey.value := IdOf(h, rec)]
    ensures s.result.Ok? && ProxyRelation(reg, h, y, name).value.kind != To ==> s.heap.objs[y].record == h.objs[y].record
  {
    var q := ProxyOf(reg, h, y, name);
    if q.result.Raise? then Step(q.heap, Raise(q.result.error))
    else
      ValidProxy(q.heap, y, name);
      Step(Replace(q.heap, y, name, rec), Ok(()))
  }

  /** The first step of `set`: a cached target forgets `x` through its
      inverse proxy. */
  function Detach(reg: Registry, h: Heap, x: Ref, name: string): (s: Step<()>)
    requires Valid(h) && RegistryKeyed(reg) && HasProxy(h, x, name)
    ensures |s.heap.objs| == |h.objs| && Valid(s.heap) && AttributesOnly(s.heap, h)
    ensures TargetOf(h, x, name).None? ==> s == Step(h, Ok(()))
    ensures TargetOf(h, x, name).Some? ==>
      TargetOf(h, x, name).value < |h.objs|
      && s == Link(reg, h, TargetOf(h, x, name).value, Memo(h, x)[name].relation.inverse, None)
    ensures forall y :: 0 <= y < |h.objs| && Some(y) != TargetOf(h, x, name) ==> s.heap.objs[y] == h.objs[y]
    ensures HasProxy(s.heap, x, name) && Memo(s.heap, x)[name].relation == Memo(h, x)[name].relation
  {
    var p := Memo(h, x)[name];
    ValidProxy(h, x, name);
    if p.target.Some? then Link(reg, h, p.target.value, p.relation.inverse, None) else Step(h, Ok(()))
  }

  /** The rest of `set`: this proxy takes the new target, and the new
      target, if any, learns `x` through its inverse proxy. */
  function Attach(reg: Registry, h: Heap, x: Ref, name: string, rec: Option<Ref>): (s: Step<()>)
    requires Valid(h) && RegistryKeyed(reg) && HasProxy(h, x, name) && Points(rec, |h.objs|)
    requires Memo(h, x)[name].relation.kind != Many && Keyed(Memo(h, x)[name].relation)
    ensures |s.heap.objs| == |h.objs| && Valid(s.heap) && AttributesOnly(s.heap, h)
    ensures forall y :: 0 <= y < |h.objs| && y != x && Some(y) != rec ==> s.heap.objs[y] == h.objs[y]
    ensures s.result.Ok? ==> HasProxy(s.heap, x, name) && TargetOf(s.heap, x, name) == rec
    ensures rec.None? ==> s == Step(Replace(h, x, name, None), Ok(()))
    ensures rec.Some? ==>
      s == Link(reg, Replace(h, x, name, rec), rec.value, Memo(h, x)[name].relation.inverse, Some(x))
  {
    var p := Memo(h, x)[name];
    ValidProxy(h, x, name);
    var h2 := Replace(h, x, name, rec);
    if rec.None? then Step(h2, Ok(()))
    else
      var s3 := Link(reg, h2, rec.value, p.relation.inverse, Some(x));
      AttributesOnlyTrans(s3.heap, h2, h);
      assert s3.result.Ok? ==> TargetOf(s3.heap, x, name) == rec by {
        if s3.result.Ok? && rec.value == x && p.relation.inverse == name {
          assert ProxyRelation(reg, h2, x, name).value == p.relation;
        }
      }
      s3
  }

  /** `proxy.set(target)` on the proxy `name` of `x`: the previous
      target, if one is cached, forgets `x` through its inverse proxy;
      this proxy takes the new target; the new target, if any, learns `x`
      through its inverse proxy. `Many#set` begins with `@target.unset`,
      and a Many proxy never has a target, so it raises. */
  function SetTarget(reg: Registry, h: Heap, x: Ref, name: string, rec: Option<Ref>): (s: Step<()>)
    requires Valid(h) && RegistryKeyed(reg) && HasProxy(h, x, name) && Points(rec, |h.objs|)
    ensures |s.heap.objs| == |h.objs| && Valid(s.heap)
    ensures Memo(h, x)[name].relation.kind == Many ==> s == Step(h, Raise(RuntimeFault))
    ensures AttributesOnly(s.heap, h)
    ensures forall y :: 0 <= y < |h.objs| && y != x && Some(y) != TargetOf(h, x, name) && Some(y) != rec ==>
      s.heap.objs[y] == h.objs[y]
    ensures s.result.Ok? ==> HasProxy(s.heap, x, name) && TargetOf(s.heap, x, name) == rec
  {
    if Memo(h, x)[name].relation.kind == Many then Step(h, Raise(RuntimeFault))
    else
      var s1 := Detach(reg, h, x, name);
      if s1.result.Raise? then s1
      else
        ValidProxy(s1.heap, x, name);
        var s2 := Attach(reg, s1.heap, x, name, rec);
        AttributesOnlyTrans(s2.heap, s1.heap, h);
        s2
  }

  // ---------------------------------------------------------------------
  // Reading a relation

  /** What `get` hands back: the partner, if any, or, for a Many proxy,
      the proxy itself. */
  datatype Reading = Partner(ref: Option<Ref>) | ManyProxy

  /** The store the proxies query: the model classes by name, the
      repository, the default branch, each class's attribute index, and
      the comparison used when ordering by another attribute. */
  datatype Env = Env(classes: map<string, ModelClass>, repo: Repo, defaultBranch: string,
                     indexes: map<string, Query.Index>, arrange: Query.Arrange)

  /** `Model.index`: an index never generated has no buckets. */
  function IndexOf(env: Env, typeName: string): Query.Index {
    if typeName in env.indexes then env.indexes[typeName] else Query.Index(false, map[])
  }

  /** The conditions `get` queries the target class with: a To proxy
      asks for the id held in the owner's key attribute, a One proxy for
      the records whose key attribute holds the owner's id. */
  function TargetConditions(rel: Reflection, owner: Record): (c: Query.Conditions)
    requires Keyed(rel) && rel.kind != Many
    ensures |c| == 1
    ensures rel.kind == To ==> c[0] == Pair("id", Query.Lit(Read(owner.attributes, rel.foreignKey.value)))
    ensures rel.kind == One ==> c[0] == Pair(rel.foreignKey.value, Query.Lit(if owner.id.Some? then Str(owner.id.value) else Nil))
  {
    if rel.kind == To then [Pair("id", Query.Lit(Read(owner.attributes, rel.foreignKey.value)))]
    else [Pair(rel.foreignKey.value, Query.Lit(if owner.id.Some? then Str(owner.id.value) else Nil))]
  }

  /** The two sides of a `belongs_to`/`has_one` pair on one key ask for
      each other: when `b` holds `a`'s id in the key attribute, `b`'s
      query asks for that id and `a`'s query asks for the value `b`
      holds. */
  lemma TargetConditionsAgree(to: Reflection, one: Reflection, a: Record, b: Record)
    requires to.kind == To && one.kind == One && Keyed(to) && Keyed(one) && to.foreignKey == one.foreignKey
    requires a.id.Some? && Read(b.attributes, to.foreignKey.value) == Str(a.id.value)
    ensures TargetConditions(to, b) == [Pair("id", Query.Lit(Str(a.id.value)))]
    ensures TargetConditions(one, a) == [Pair(one.foreignKey.value, Query.Lit(Read(b.attributes, one.foreignKey.value)))]
  {
  }

  /** `relation.type.find_all(conditions).first`; `constantize` raises
      for a class name that names no class. */
  function Fetch(env: Env, typeName: string, conds: Query.Conditions): (o: Outcome<Option<Record>>)
    ensures typeName !in env.classes ==> o == Raise(RuntimeFault)
    ensures typeName in env.classes ==>
      var all := Query.FindAll(env.classes[typeName], env.repo, env.defaultBranch, IndexOf(env, typeName), conds, env.arrange);
      && (o.Ok? <==> all.Ok?)
      && (all.Raise? ==> o.error == all.error)
      && (all.Ok? ==> (o.value.Some? <==> all.value != []))
      && (all.Ok? && all.value != [] ==> o.value.value == all.value[0])
  {
    if typeName !in env.classes then Raise(RuntimeFault)
    else
      var all :- Query.FindAll(env.classes[typeName], env.repo, env.defaultBranch, IndexOf(env, typeName), conds, env.arrange);
      Ok(if all == [] then None else Some(all[0]))
  }

  /** An id-only query of a class returns the record `find` loads from the
      default branch when the id names an entry of the class's directory,
      and nothing otherwise. */
  lemma FetchById(env: Env, typeName: string, v: Val)
    requires typeName in env.classes && env.defaultBranch in env.repo.heads
    requires Query.Subdir(env.repo.heads[env.defaultBranch], env.classes[typeName].subdir, false).Ok?
    ensures var sub := Query.Subdir(env.repo.heads[env.defaultBranch], env.classes[typeName].subdir, false).value;
      !v.Str? || Slash(sub, v.s).None? ==> Fetch(env, typeName, [Pair("id", Query.Lit(v))]) == Ok(None)
    ensures var sub := Query.Subdir(env.repo.heads[env.defaultBranch], env.classes[typeName].subdir, false).value;
      v.Str? && Slash(sub, v.s).Some? ==>
        var f := Find(env.classes[typeName], env.repo, v.s, env.defaultBranch);
        Fetch(env, typeName, [Pair("id", Query.Lit(v))]) == if f.Ok? then Ok(Some(f.value)) else Raise(f.error)
  {
    var cls := env.classes[typeName];
    var conds := [Pair("id", Query.Lit(v))];
    var all := Query.FindAll(cls, env.repo, env.defaultBranch, IndexOf(env, typeName), conds, env.arrange);
    Query.FindAllById(cls, env.repo, env.defaultBranch, IndexOf(env, typeName), env.arrange, v);
    var o := Fetch(env, typeName, conds);
    assert all.Ok? ==> o == Ok(if all.value == [] then None else Some(all.value[0]));
    assert all.Raise? ==> o == Raise(all.error);
  }

  /** `proxy.get` on the proxy `name` of `x`: the cached target if there
      is one; otherwise the first record the query finds, which becomes a
      new object and is cached (nothing is cached when nothing is
      found). */
  function GetTarget(env: Env, h: Heap, x: Ref, name: string): (s: Step<Reading>)
    requires Valid(h) && HasProxy(h, x, name)
    ensures Valid(s.heap) && |s.heap.objs| >= |h.objs|
    ensures forall y :: 0 <= y < |h.objs| && y != x ==> s.heap.objs[y] == h.objs[y]
    ensures Memo(h, x)[name].relation.kind == Many ==> s == Step(h, Ok(ManyProxy))
    ensures Memo(h, x)[name].relation.kind != Many && TargetOf(h, x, name).Some? ==>
      s == Step(h, Ok(Partner(TargetOf(h, x, name))))
    ensures s.result == Ok(Partner(None)) || s.result.Raise? ==> s.heap == h
    ensures s.result.Ok? && s.result.value.Partner? && s.result.value.ref.Some? ==>
      HasProxy(s.heap, x, name) && TargetOf(s.heap, x, name) == s.result.value.ref && s.result.value.ref.value < |s.heap.objs|
    ensures Memo(h, x)[name].relation.kind != Many && TargetOf(h, x, name).None? ==>
      var rel := Memo(h, x)[name].relation;
      var q := Fetch(env, rel.typeName, TargetConditions(rel, h.objs[x].record));
      && (q.Raise? ==> s.result == Raise(q.error))
      && (q == Ok(None) ==> s.result == Ok(Partner(None)))
      && (q.Ok? && q.value.Some? ==>
            && s.result == Ok(Partner(Some(|h.objs|)))
            && |s.heap.objs| == |h.objs| + 1
            && s.heap.objs[|h.objs|] == Obj(rel.typeName, q.value.value, None))
  {
    var p := Memo(h, x)[name];
    ValidProxy(h, x, name);
    if p.relation.kind == Many then Step(h, Ok(ManyProxy))
    else if p.target.Some? then Step(h, Ok(Partner(p.target)))
    else
      var q := Fetch(env, p.relation.typeName, TargetConditions(p.relation, h.objs[x].record));
      if q.Raise? then Step(h, Raise(q.error))
      else if q.value.None? then Step(h, Ok(Partner(None)))
      else Step(Adopt(h, x, name, q.value.value), Ok(Partner(Some(|h.objs|))))
  }

  /** `@target ||= found`: the record found becomes a new object of the
      target class, and the proxy caches it. */
  function Adopt(h: Heap, x: Ref, name: string, found: Record): (h2: Heap)
    requires Valid(h) && HasProxy(h, x, name) && Memo(h, x)[name].relation.kind != Many
    ensures Valid(h2) && |h2.objs| == |h.objs| + 1
    ensures h2.objs[|h.objs|] == Obj(Memo(h, x)[name].relation.typeName, found, None)
    ensures forall y :: 0 <= y < |h.objs| && y != x ==> h2.objs[y] == h.objs[y]
    ensures HasProxy(h2, x, name) && TargetOf(h2, x, name) == Some(|h.objs|)
  {
    var p := Memo(h, x)[name];
    ValidProxy(h, x, name);
    var t := |h.objs|;
    var grown := h.objs + [Obj(p.relation.typeName, found, None)];
    var o := grown[x].(proxies := Some(Memo(h, x)[name := p.(target := Some(t))]));
    var h2 := Heap(grown[x := o]);
    assert Valid(h2) by {
      forall y | 0 <= y < |h2.objs| ensures ObjOk(h2.objs[y], |h2.objs|) {
        if y < t {
          assert ObjOk(h.objs[y], |h.objs|);
        }
      }
    }
    h2
  }

  // ---------------------------------------------------------------------
  // The generated accessors, reset and reload

  /** The reader `relate` defines: `proxy(name).get`. */
  function ReadRelation(reg: Registry, env: Env, h: Heap, x: Ref, name: string): (s: Step<Reading>)
    requires Valid(h) && RegistryKeyed(reg) && x < |h.objs|
    ensures ProxyRelation(reg, h, x, name).None? ==> s.result.Raise?
    ensures ProxyRelation(reg, h, x, name).Some? ==>
      s == GetTarget(env, ProxyOf(reg, h, x, name).heap, x, name)
  {
    var q := ProxyOf(reg, h, x, name);
    if q.result.Raise? then Step(q.heap, Raise(q.result.error))
    else GetTarget(env, q.heap, x, name)
  }

  /** Reading a relation after writing a record to it returns that record
      from the cache, touching neither the heap nor the store. */
  lemma WriteThenRead(reg: Registry, env: Env, h: Heap, x: Ref, name: string, b: Ref)
    requires Valid(h) && RegistryKeyed(reg) && x < |h.objs| && b < |h.objs|
    requires WriteRelation(reg, h, x, name, Some(b)).result.Ok?
    ensures var s := WriteRelation(reg, h, x, name, Some(b));
      ReadRelation(reg, env, s.heap, x, name) == Step(s.heap, Ok(Partner(Some(b))))
  {
    var s := WriteRelation(reg, h, x, name, Some(b));
    ValidProxy(s.heap, x, name);
  }

  /** The writer `relate` defines: `proxy(name).set(target)`. */
  function WriteRelation(reg: Registry, h: Heap, x: Ref, name: string, rec: Option<Ref>): (s: Step<()>)
    requires Valid(h) && RegistryKeyed(reg) && x < |h.objs| && Points(rec, |h.objs|)
    ensures |s.heap.objs| == |h.objs| && Valid(s.heap)
    ensures ProxyRelation(reg, h, x, name).None? ==> s.result.Raise?
    ensures ProxyRelation(reg, h, x, name).Some? && ProxyRelation(reg, h, x, name).value.kind == Many ==>
      s.result == Raise(RuntimeFault)
    ensures s.result.Ok? ==> HasProxy(s.heap, x, name) && TargetOf(s.heap, x, name) == rec
  {
    var q := ProxyOf(reg, h, x, name);
    if q.result.Raise? then Step(q.heap, Raise(q.result.error))
    else SetTarget(reg, q.heap, x, name, rec)
  }

  /** `reset_proxies`: `@proxies = {}`, refused by a frozen record. */
  function ResetProxies(h: Heap, x: Ref): (s: Step<()>)
    requires x < |h.objs|
    ensures |s.heap.objs| == |h.objs|
    ensures forall y :: 0 <= y < |h.objs| && y != x ==> s.heap.objs[y] == h.objs[y]
    ensures h.objs[x].record.frozen ==> s == Step(h, Raise(FrozenRecord))
    ensures !h.objs[x].record.frozen ==> s.result.Ok? && s.heap.objs[x] == h.objs[x].(proxies := Some(map[]))
    ensures !h.objs[x].record.frozen ==> forall n :: !HasProxy(s.heap, x, n)
    ensures Valid(h) ==> Valid(s.heap)
  {
    var o := h.objs[x];
    if o.record.frozen then Step(h, Raise(FrozenRecord))
    else
      var h2 := h.(objs := h.objs[x := o.(proxies := Some(map[]))]);
      assert Valid(h) ==> Valid(h2) by {
        if Valid(h) {
          forall y | 0 <= y < |h2.objs| ensures ObjOk(h2.objs[y], |h2.objs|) {
            assert ObjOk(h.objs[y], |h.objs|);
          }
        }
      }
      Step(h2, Ok(()))
  }

  /** `record.reload`: the record is loaded again from its path and
      branch, then its proxies are dropped. */
  function ReloadObject(env: Env, h: Heap, x: Ref): (s: Step<()>)
    requires x < |h.objs| && h.objs[x].model in env.classes
    ensures |s.heap.objs| == |h.objs|
    ensures forall y :: 0 <= y < |h.objs| && y != x ==> s.heap.objs[y] == h.objs[y]
    ensures s.heap.objs[x].record == Reload(env.classes[h.objs[x].model], h.objs[x].record, env.repo, env.defaultBranch).record
    ensures s.heap.objs[x].model == h.objs[x].model
    ensures s.result.Ok? <==> Reload(env.classes[h.objs[x].model], h.objs[x].record, env.repo, env.defaultBranch).error.None?
    ensures s.result.Ok? ==> s.heap.objs[x].proxies == Some(map[])
    ensures Valid(h) ==> Valid(s.heap)
  {
    var o := h.objs[x];
    var l := Reload(env.classes[o.model], o.record, env.repo, env.defaultBranch);
    var h1 := h.(objs := h.objs[x := o.(record := l.record)]);
    assert Valid(h) ==> Valid(h1) by {
      if Valid(h) {
        forall y | 0 <= y < |h1.objs| ensures ObjOk(h1.objs[y], |h1.objs|) {
          ObjOkProxies(h1.objs[y], h.objs[y], |h.objs|);
        }
      }
    }
    if l.error.Some? then Step(h1, Raise(l.error.value))
    else
      assert !l.record.frozen by {
        LoadedNotFrozen(env.classes[o.model], o.record, env.repo, env.defaultBranch);
      }
      ResetProxies(h1, x)
  }

  /** A record that reloads without error is not frozen. */
  lemma LoadedNotFrozen(cls: ModelClass, r: Record, repo: Repo, defaultBranch: string)
    ensures Reload(cls, r, repo, defaultBranch).error.None? ==> !Reload(cls, r, repo, defaultBranch).record.frozen
  {
  }

  // ---------------------------------------------------------------------
  // Properties

  /** `proxy(name)` is memoised: asking again hands back the same proxy
      and changes nothing. */
  lemma ProxyMemoised(reg: Registry, h: Heap, x: Ref, name: string)
    requires x < |h.objs| && ProxyOf(reg, h, x, name).result.Ok?
    ensures ProxyOf(reg, ProxyOf(reg, h, x, name).heap, x, name) == ProxyOf(reg, h, x, name)
  {
  }

  /** After `reset_proxies` the next `proxy(name)` is a new proxy for the
      registered reflection, with no cached target, whatever was cached
      before. */
  lemma ResetThenProxy(reg: Registry, h: Heap, x: Ref, name: string)
    requires x < |h.objs| && !h.objs[x].record.frozen
    ensures var r := ResetProxies(h, x).heap;
      ProxyOf(reg, r, x, name).result ==
        if LookupRelation(reg, h.objs[x].model, name).Some? then Ok(Proxy(LookupRelation(reg, h.objs[x].model, name).value, None))
        else Raise(RuntimeFault)
  {
    var r := ResetProxies(h, x).heap;
    assert Memo(r, x) == map[];
  }

  /** The previous target `c` of `a.name`, a record other than `a` and
      the new target, no longer points back at `a` after `a.name = rec`;
      if its inverse is a To, its key attribute is cleared. */
  lemma SetDetachesOldPartner(reg: Registry, h: Heap, a: Ref, name: string, rec: Option<Ref>)
    requires Valid(h) && RegistryKeyed(reg) && HasProxy(h, a, name) && Points(rec, |h.objs|)
    requires Memo(h, a)[name].relation.kind != Many
    requires TargetOf(h, a, name).Some? && TargetOf(h, a, name).value != a && TargetOf(h, a, name) != rec
    requires TargetOf(h, a, name).value < |h.objs|
    requires ProxyRelation(reg, h, TargetOf(h, a, name).value, Memo(h, a)[name].relation.inverse).Some?
    ensures var c := TargetOf(h, a, name).value;
      var inv := Memo(h, a)[name].relation.inverse;
      var back := ProxyRelation(reg, h, c, inv).value;
      var s := SetTarget(reg, h, a, name, rec);
      && HasProxy(s.heap, c, inv) && TargetOf(s.heap, c, inv).None?
      && (back.kind == To ==> Read(s.heap.objs[c].record.attributes, back.foreignKey.value) == Nil)
  {
    var c := TargetOf(h, a, name).value;
    var s1 := Detach(reg, h, a, name);
    assert s1.result.Ok?;
    ValidProxy(s1.heap, a, name);
    var s2 := Attach(reg, s1.heap, a, name, rec);
    assert s2.heap.objs[c] == s1.heap.objs[c];
  }

  /** `a` and `b` target each other through `rel` and its inverse `back`,
      and whichever side holds a key attribute stores the other's id. */
  predicate Linked(s: Step<()>, a: Ref, name: string, b: Ref, rel: Reflection, back: Reflection, idA: Val, idB: Val) {
    && s.result.Ok?
    && HasProxy(s.heap, a, name) && TargetOf(s.heap, a, name) == Some(b)
    && HasProxy(s.heap, b, rel.inverse) && TargetOf(s.heap, b, rel.inverse) == Some(a)
    && (rel.kind == To && rel.foreignKey.Some? ==> Read(s.heap.objs[a].record.attributes, rel.foreignKey.value) == idB)
    && (back.kind == To && back.foreignKey.Some? ==> Read(s.heap.objs[b].record.attributes, back.foreignKey.value) == idA)
  }

  /** `a.name = b`, where `b` is another record whose inverse proxy is a
      to-one one and `a`'s previous target, if any, is a third record:
      afterwards `a` and `b` point at each other, the key is written on
      whichever side holds it, and no record but `a`, `b` and the previous
      target changes. */
  lemma SetLinksBothSides(reg: Registry, h: Heap, a: Ref, name: string, b: Ref)
    requires Valid(h) && RegistryKeyed(reg) && HasProxy(h, a, name) && b < |h.objs| && b != a
    requires Memo(h, a)[name].relation.kind != Many
    requires TargetOf(h, a, name).Some? ==>
      && TargetOf(h, a, name).value != a && TargetOf(h, a, name).value != b && TargetOf(h, a, name).value < |h.objs|
      && ProxyRelation(reg, h, TargetOf(h, a, name).value, Memo(h, a)[name].relation.inverse).Some?
    requires ProxyRelation(reg, h, b, Memo(h, a)[name].relation.inverse).Some?
    requires ProxyRelation(reg, h, b, Memo(h, a)[name].relation.inverse).value.kind != Many
    ensures Linked(SetTarget(reg, h, a, name, Some(b)), a, name, b, Memo(h, a)[name].relation,
      ProxyRelation(reg, h, b, Memo(h, a)[name].relation.inverse).value, IdOf(h, Some(a)), IdOf(h, Some(b)))
    ensures forall y :: 0 <= y < |h.objs| && y != a && y != b && Some(y) != TargetOf(h, a, name) ==>
      SetTarget(reg, h, a, name, Some(b)).heap.objs[y] == h.objs[y]
  {
    DetachKeepsPair(reg, h, a, name, b);
    ValidProxy(h, a, name);
    AttachLinks(reg, Detach(reg, h, a, name).heap, a, name, b);
    SetTargetSplits(reg, h, a, name, Some(b));
  }

  /** Detaching `a`'s previous target, a third record, leaves `a` and `b`
      as they were. */
  lemma DetachKeepsPair(reg: Registry, h: Heap, a: Ref, name: string, b: Ref)
    requires Valid(h) && RegistryKeyed(reg) && HasProxy(h, a, name) && b < |h.objs| && b != a
    requires TargetOf(h, a, name).Some? ==>
      && TargetOf(h, a, name).value != a && TargetOf(h, a, name).value != b && TargetOf(h, a, name).value < |h.objs|
      && ProxyRelation(reg, h, TargetOf(h, a, name).value, Memo(h, a)[name].relation.inverse).Some?
    ensures var s1 := Detach(reg, h, a, name);
      && s1.result.Ok?
      && s1.heap.objs[b] == h.objs[b] && s1.heap.objs[a] == h.objs[a]
      && Memo(s1.heap, a) == Memo(h, a)
      && ProxyRelation(reg, s1.heap, b, Memo(h, a)[name].relation.inverse) == ProxyRelation(reg, h, b, Memo(h, a)[name].relation.inverse)
      && IdOf(s1.heap, Some(b)) == IdOf(h, Some(b)) && IdOf(s1.heap, Some(a)) == IdOf(h, Some(a))
  {
  }

  /** A to-one `set` that detaches without error is the attach on the
      heap the detach leaves. */
  lemma SetTargetSplits(reg: Registry, h: Heap, x: Ref, name: string, rec: Option<Ref>)
    requires Valid(h) && RegistryKeyed(reg) && HasProxy(h, x, name) && Points(rec, |h.objs|)
    requires Memo(h, x)[name].relation.kind != Many
    requires Detach(reg, h, x, name).result.Ok?
    ensures HasProxy(Detach(reg, h, x, name).heap, x, name)
    ensures Keyed(Memo(Detach(reg, h, x, name).heap, x)[name].relation)
    ensures SetTarget(reg, h, x, name, rec) == Attach(reg, Detach(reg, h, x, name).heap, x, name, rec)
  {
    ValidProxy(Detach(reg, h, x, name).heap, x, name);
  }

  /** The attaching half of `a.name = b`. */
  lemma AttachLinks(reg: Registry, h: Heap, a: Ref, name: string, b: Ref)
    requires Valid(h) && RegistryKeyed(reg) && HasProxy(h, a, name) && b < |h.objs| && b != a
    requires Memo(h, a)[name].relation.kind != Many && Keyed(Memo(h, a)[name].relation)
    requires ProxyRelation(reg, h, b, Memo(h, a)[name].relation.inverse).Some?
    requires ProxyRelation(reg, h, b, Memo(h, a)[name].relation.inverse).value.kind != Many
    ensures Linked(Attach(reg, h, a, name, Some(b)), a, name, b, Memo(h, a)[name].relation,
      ProxyRelation(reg, h, b, Memo(h, a)[name].relation.inverse).value, IdOf(h, Some(a)), IdOf(h, Some(b)))
  {
    var rel := Memo(h, a)[name].relation;
    var h2 := Replace(h, a, name, Some(b));
    assert h2.objs[b] == h.objs[b];
    assert ProxyRelation(reg, h2, b, rel.inverse) == ProxyRelation(reg, h, b, rel.inverse);
    assert IdOf(h2, Some(a)) == IdOf(h, Some(a));
    var s3 := Link(reg, h2, b, rel.inverse, Some(a));
    assert s3.heap.objs[a] == h2.objs[a];
  }

  /** `a.name = nil`: `a` has no target, its key attribute (if it holds
      the key) is cleared, and no record but `a` and its previous target
      changes. */
  lemma SetNilUnlinks(reg: Registry, h: Heap, a: Ref, name: string)
    requires Valid(h) && RegistryKeyed(reg) && HasProxy(h, a, name)
    requires Memo(h, a)[name].relation.kind != Many
    requires TargetOf(h, a, name).Some? ==>
      TargetOf(h, a, name).value < |h.objs| && ProxyRelation(reg, h, TargetOf(h, a, name).value, Memo(h, a)[name].relation.inverse).Some?
    ensures var rel := Memo(h, a)[name].relation;
      var s := SetTarget(reg, h, a, name, None);
      && s.result.Ok?
      && HasProxy(s.heap, a, name) && TargetOf(s.heap, a, name).None?
      && (rel.kind == To ==> Read(s.heap.objs[a].record.attributes, rel.foreignKey.value) == Nil)
      && (forall y :: 0 <= y < |h.objs| && y != a && Some(y) != TargetOf(h, a, name) ==> s.heap.objs[y] == h.objs[y])
  {
    var s1 := Detach(reg, h, a, name);
    assert s1.result.Ok?;
    ValidProxy(s1.heap, a, name);
    ValidProxy(h, a, name);
  }

  /** After `a.name = b` both sides answer from their caches: `a.name` is
      `b` and `b`'s inverse is `a`, without asking the store. */
  lemma BothSidesSee(reg: Registry, env: Env, h: Heap, a: Ref, name: string, b: Ref)
    requires Valid(h) && RegistryKeyed(reg) && HasProxy(h, a, name) && b < |h.objs| && b != a
    requires Memo(h, a)[name].relation.kind != Many
    requires TargetOf(h, a, name).Some? ==>
      && TargetOf(h, a, name).value != a && TargetOf(h, a, name).value != b && TargetOf(h, a, name).value < |h.objs|
      && ProxyRelation(reg, h, TargetOf(h, a, name).value, Memo(h, a)[name].relation.inverse).Some?
    requires ProxyRelation(reg, h, b, Memo(h, a)[name].relation.inverse).Some?
    requires ProxyRelation(reg, h, b, Memo(h, a)[name].relation.inverse).value.kind != Many
    ensures var inv := Memo(h, a)[name].relation.inverse;
      var s := SetTarget(reg, h, a, name, Some(b));
      && HasProxy(s.heap, a, name) && GetTarget(env, s.heap, a, name) == Step(s.heap, Ok(Partner(Some(b))))
      && HasProxy(s.heap, b, inv) && GetTarget(env, s.heap, b, inv) == Step(s.heap, Ok(Partner(Some(a))))
  {
    var inv := Memo(h, a)[name].relation.inverse;
    var s := SetTarget(reg, h, a, name, Some(b));
    SetLinksBothSides(reg, h, a, name, b);
    ValidProxy(s.heap, a, name);
    ValidProxy(s.heap, b, inv);
  }

  /** Setting a relation never persists it: a record that reloads
      successfully afterwards comes back exactly as it would have without
      the assignment, with no proxies, so its next read asks the store. */
  lemma SetForgottenOnReload(reg: Registry, env: Env, h: Heap, x: Ref, name: string, rec: Option<Ref>, y: Ref)
    requires Valid(h) && RegistryKeyed(reg) && HasProxy(h, x, name) && Points(rec, |h.objs|)
    requires y < |h.objs| && h.objs[y].model in env.classes
    ensures var s := SetTarget(reg, h, x, name, rec);
      && ReloadObject(env, s.heap, y).result == ReloadObject(env, h, y).result
      && (ReloadObject(env, h, y).result.Ok? ==>
            && ReloadObject(env, s.heap, y).heap.objs[y] == ReloadObject(env, h, y).heap.objs[y]
            && forall n :: !HasProxy(ReloadObject(env, s.heap, y).heap, y, n))
  {
    var s := SetTarget(reg, h, x, name, rec);
    assert OnlyAttributes(s.heap.objs[y], h.objs[y]);
    var r := h.objs[y].record;
    assert s.heap.objs[y].record == r.(attributes := s.heap.objs[y].record.attributes);
    ReloadIgnoresAttributes(env.classes[h.objs[y].model], r, s.heap.objs[y].record.attributes, env.repo, env.defaultBranch);
  }

  /** An uncached To proxy asks the target class for the id held in the
      owner's key attribute, on the default branch: it adopts the record
      stored under that id, and finds nothing when the attribute holds no
      string (an unset key) or no entry of that name is stored. */
  lemma ToGetFindsById(env: Env, h: Heap, x: Ref, name: string)
    requires Valid(h) && HasProxy(h, x, name)
    requires Memo(h, x)[name].relation.kind == To && TargetOf(h, x, name).None?
    requires Memo(h, x)[name].relation.typeName in env.classes && env.defaultBranch in env.repo.heads
    requires Query.Subdir(env.repo.heads[env.defaultBranch], env.classes[Memo(h, x)[name].relation.typeName].subdir, false).Ok?
    ensures var rel := Memo(h, x)[name].relation;
      var cls := env.classes[rel.typeName];
      var sub := Query.Subdir(env.repo.heads[env.defaultBranch], cls.subdir, false).value;
      var v := Read(h.objs[x].record.attributes, rel.foreignKey.value);
      var s := GetTarget(env, h, x, name);
      && (!v.Str? || Slash(sub, v.s).None? ==> s == Step(h, Ok(Partner(None))))
      && (v.Str? && Slash(sub, v.s).Some? && Find(cls, env.repo, v.s, env.defaultBranch).Raise? ==>
            s == Step(h, Raise(Find(cls, env.repo, v.s, env.defaultBranch).error)))
      && (v.Str? && Slash(sub, v.s).Some? && Find(cls, env.repo, v.s, env.defaultBranch).Ok? ==>
            && s.result == Ok(Partner(Some(|h.objs|)))
            && s.heap.objs[|h.objs|].record == Find(cls, env.repo, v.s, env.defaultBranch).value
            && TargetOf(s.heap, x, name) == Some(|h.objs|))
  {
    var rel := Memo(h, x)[name].relation;
    ValidProxy(h, x, name);
    var cls := env.classes[rel.typeName];
    var v := Read(h.objs[x].record.attributes, rel.foreignKey.value);
    Query.FindAllById(cls, env.repo, env.defaultBranch, IndexOf(env, rel.typeName), env.arrange, v);
  }

  /** An uncached One proxy queries the target class's key attribute,
      which needs a generated index: without one its read raises. */
  lemma OneGetNeedsIndex(env: Env, h: Heap, x: Ref, name: string)
    requires Valid(h) && HasProxy(h, x, name)
    requires Memo(h, x)[name].relation.kind == One && TargetOf(h, x, name).None?
    requires Memo(h, x)[name].relation.typeName in env.classes && env.defaultBranch in env.repo.heads
    requires !IndexOf(env, Memo(h, x)[name].relation.typeName).generated
    requires Memo(h, x)[name].relation.foreignKey.Some?
    requires Memo(h, x)[name].relation.foreignKey.value != "id" && !Query.ControlKey(Memo(h, x)[name].relation.foreignKey.value)
    ensures GetTarget(env, h, x, name) == Step(h, Raise(IndexRequired))
  {
    var rel := Memo(h, x)[name].relation;
    ValidProxy(h, x, name);
    var conds := TargetConditions(rel, h.objs[x].record);
    assert forall k :: k in Query.ControlKeys ==> !HasKey(conds, k);
    WithoutAbsent(conds, Query.ControlKeys);
    assert Hashes.Get(conds, "branch") == None;
    var p := Query.PlanOf(conds, env.defaultBranch).value;
    assert p.filters == conds;
    Query.NoIndexRaises(env.classes[rel.typeName], env.repo, env.defaultBranch, IndexOf(env, rel.typeName), conds, env.arrange);
  }
}
