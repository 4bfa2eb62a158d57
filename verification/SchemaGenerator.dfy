/** The Swagger generator: schemas, the types they refer to, and the closure that becomes `components`. */
module SchemaGenerator {
  import opened Wrappers

  // ---------- types ----------

  /**
   * A `Type`. Objects are named by an identifier, because their properties may lead back to them;
   * everything else is nested in the ordinary way. An enum is interpreted as a simple class.
   */
  datatype Type =
    | Simple(className: string)
    | Object(id: nat)
    | Vector(item: Type)
    | List(item: Type)
    | UnorderedSet(item: Type)
    | PairList(key: Type, value: Type)
    | Enum(qualifier: string, interClass: string)

  datatype Property = Property(name: string, propertyType: Type, required: bool)

  datatype ObjectInfo = ObjectInfo(name: string, properties: seq<Property>)

  /** Every object type of the program. */
  type Graph = map<nat, ObjectInfo>

  const STRING := Simple("String")

  /** The objects a type is built from are all in the graph. */
  predicate Known(g: Graph, t: Type) {
    match t
    case Simple(_) => true
    case Object(id) => id in g
    case Vector(item) => Known(g, item)
    case List(item) => Known(g, item)
    case UnorderedSet(item) => Known(g, item)
    case PairList(k, v) => Known(g, k) && Known(g, v)
    case Enum(_, _) => true
  }

  predicate GraphOk(g: Graph) {
    forall id, i | id in g && 0 <= i < |g[id].properties| :: Known(g, g[id].properties[i].propertyType)
  }

  predicate IsNamed(g: Graph, t: Type) {
    (t.Object? && t.id in g) || t.Enum?
  }

  /** The key under which a named type is listed. */
  function SchemaName(g: Graph, t: Type): string
    requires IsNamed(g, t)
  {
    if t.Object? then g[t.id].name else t.qualifier + "_" + t.interClass
  }

  // ---------- which types a schema refers to ----------

  /** The named types a linked schema for `t` refers to. */
  function Mentions(g: Graph, t: Type): (s: set<Type>)
    requires Known(g, t)
    ensures forall x :: x in s ==> IsNamed(g, x)
  {
    match t
    case Simple(_) => {}
    case Object(_) => {t}
    case Vector(item) => Mentions(g, item)
    case List(item) => Mentions(g, item)
    case UnorderedSet(item) => Mentions(g, item)
    case PairList(k, v) => if k == STRING then Mentions(g, v) else {}
    case Enum(_, _) => {t}
  }

  function PropertyMentions(g: Graph, ps: seq<Property>): (s: set<Type>)
    requires forall i | 0 <= i < |ps| :: Known(g, ps[i].propertyType)
    ensures forall x :: x in s ==> IsNamed(g, x)
  {
    if ps == [] then {}
    else PropertyMentions(g, ps[..|ps| - 1]) + Mentions(g, ps[|ps| - 1].propertyType)
  }

  /** The named types the schema of a named type refers to. */
  function Successors(g: Graph, t: Type): (s: set<Type>)
    requires GraphOk(g) && IsNamed(g, t)
    ensures forall x :: x in s ==> IsNamed(g, x)
  {
    if t.Object? then PropertyMentions(g, g[t.id].properties) else {}
  }

  ghost predicate Closed(g: Graph, s: set<Type>)
    requires GraphOk(g)
  {
    forall t :: t in s ==> IsNamed(g, t) && Successors(g, t) <= s
  }

  /** A closed set in which no two types have the same name. */
  ghost predicate Universe(g: Graph, u: set<Type>)
    requires GraphOk(g)
  {
    Closed(g, u) && forall x, y :: x in u && y in u && SchemaName(g, x) == SchemaName(g, y) ==> x == y
  }

  function Names(g: Graph, s: set<Type>): (r: set<string>)
    requires forall x :: x in s ==> IsNamed(g, x)
    ensures forall x :: x in s ==> SchemaName(g, x) in r
    ensures forall n :: n in r ==> exists x :: x in s && SchemaName(g, x) == n
  {
    set x | x in s :: SchemaName(g, x)
  }

  type UsedTypes = map<string, Type>

  /** Every entry is a type of the universe under its own name. */
  ghost predicate Listing(g: Graph, u: set<Type>, m: UsedTypes)
    requires GraphOk(g) && Universe(g, u)
  {
    forall n :: n in m ==> m[n] in u && SchemaName(g, m[n]) == n
  }

  // ---------- decomposition ----------

  ghost predicate SuccessorsListed(g: Graph, m: UsedTypes, n: string)
    requires GraphOk(g)
  {
    n in m && IsNamed(g, m[n]) && Names(g, Successors(g, m[n])) <= m.Keys
  }

  lemma NamesUnion(g: Graph, a: set<Type>, b: set<Type>)
    requires (forall x :: x in a ==> IsNamed(g, x)) && (forall x :: x in b ==> IsNamed(g, x))
    ensures Names(g, a + b) == Names(g, a) + Names(g, b)
  {
  }

  /**
   * What a call of `decomposeType` adds: the mentioned types are listed, whatever was added has its
   * successors listed, and nothing was lost or replaced.
   */
  ghost predicate Added(g: Graph, u: set<Type>, roots: set<Type>, before: UsedTypes, after: UsedTypes)
    requires GraphOk(g) && Universe(g, u) && forall x :: x in roots ==> IsNamed(g, x)
  {
    && Listing(g, u, after)
    && before.Keys <= after.Keys && (forall n :: n in before ==> after[n] == before[n])
    && Names(g, roots) <= after.Keys
    && (forall n :: n in after && n !in before ==> SuccessorsListed(g, after, n))
  }

  method DecomposeType(g: Graph, t: Type, decomposed: UsedTypes, ghost u: set<Type>) returns (after: UsedTypes)
    requires GraphOk(g) && Universe(g, u) && Listing(g, u, decomposed)
    requires Known(g, t) && Mentions(g, t) <= u
    ensures Added(g, u, Mentions(g, t), decomposed, after)
    decreases Names(g, u) - decomposed.Keys, t, 1
  {
    match t {
      case Object(_) =>
        after := DecomposeObject(g, t, decomposed, u);
      case Vector(item) =>
        after := DecomposeType(g, item, decomposed, u);
      case List(item) =>
        after := DecomposeType(g, item, decomposed, u);
      case UnorderedSet(item) =>
        after := DecomposeType(g, item, decomposed, u);
      case PairList(k, v) =>
        if k == STRING {
          after := DecomposeType(g, v, decomposed, u);
        } else {
          after := decomposed;
        }
      case Enum(_, _) =>
        after := DecomposeEnum(g, t, decomposed, u);
      case Simple(_) =>
        after := decomposed;
    }
  }

  method DecomposeEnum(g: Graph, t: Type, decomposed: UsedTypes, ghost u: set<Type>) returns (after: UsedTypes)
    requires GraphOk(g) && Universe(g, u) && Listing(g, u, decomposed)
    requires t.Enum? && t in u
    ensures Added(g, u, {t}, decomposed, after)
  {
    var name := SchemaName(g, t);
    if name in decomposed {
      return decomposed;
    }
    after := decomposed[name := t];
  }

  method DecomposeObject(g: Graph, t: Type, decomposed: UsedTypes, ghost u: set<Type>) returns (after: UsedTypes)
    requires GraphOk(g) && Universe(g, u) && Listing(g, u, decomposed)
    requires t.Object? && Known(g, t) && t in u
    ensures Added(g, u, {t}, decomposed, after)
    decreases Names(g, u) - decomposed.Keys, t, 0
  {
    hide Names, HalfAdded, Added, PropertyMentions, Mentions, Successors, SuccessorsListed;
    var name := SchemaName(g, t);
    if name in decomposed {
      AlreadyListed(g, u, t, decomposed);
      return decomposed;
    }
    after := decomposed[name := t];
    var ps := g[t.id].properties;
    var i := 0;
    StartAdded(g, u, t, decomposed);
    NoMentions(g);
    assert ps[..0] == [];
    while i < |ps|
      invariant 0 <= i <= |ps|
      invariant HalfAdded(g, u, t, PropertyMentions(g, ps[..i]), decomposed, after)
    {
      ghost var before := after;
      PropertyReady(g, u, t, i);
      HalfAddedMeans(g, u, t, PropertyMentions(g, ps[..i]), decomposed, after);
      Shrinks(g, u, decomposed, after, t);
      after := DecomposeType(g, ps[i].propertyType, after, u);
      NextAdded(g, u, t, PropertyMentions(g, ps[..i]), Mentions(g, ps[i].propertyType), decomposed, before, after);
      i := i + 1;
    }
    assert ps[..i] == ps;
    assert PropertyMentions(g, ps[..i]) == Successors(g, t) by { SuccessorsAre(g, t); }
    EndAdded(g, u, t, decomposed, after);
  }

  lemma NoMentions(g: Graph)
    ensures PropertyMentions(g, []) == {}
  {
  }

  lemma PropertyReady(g: Graph, u: set<Type>, t: Type, i: nat)
    requires GraphOk(g) && Universe(g, u) && t.Object? && t in u && i < |g[t.id].properties|
    ensures var ps := g[t.id].properties;
            Known(g, ps[i].propertyType) &&
            Mentions(g, ps[i].propertyType) <= Successors(g, t) <= u &&
            PropertyMentions(g, ps[..i + 1]) == PropertyMentions(g, ps[..i]) + Mentions(g, ps[i].propertyType)
  {
    var ps := g[t.id].properties;
    assert ps[..i + 1][..i] == ps[..i];
    MentionedByProperty(g, ps, i);
  }

  lemma HalfAddedMeans(g: Graph, u: set<Type>, t: Type, visited: set<Type>, before: UsedTypes, after: UsedTypes)
    requires GraphOk(g) && Universe(g, u) && t in u && forall x :: x in visited ==> IsNamed(g, x)
    requires HalfAdded(g, u, t, visited, before, after)
    ensures Listing(g, u, after) && before.Keys <= after.Keys
    ensures SchemaName(g, t) in after && SchemaName(g, t) !in before
  {
  }

  lemma Shrinks(g: Graph, u: set<Type>, before: UsedTypes, after: UsedTypes, t: Type)
    requires GraphOk(g) && Universe(g, u) && t in u
    requires before.Keys <= after.Keys && SchemaName(g, t) in after && SchemaName(g, t) !in before
    ensures Names(g, u) - after.Keys < Names(g, u) - before.Keys
  {
    assert SchemaName(g, t) in Names(g, u) - before.Keys;
  }

  lemma AlreadyListed(g: Graph, u: set<Type>, t: Type, m: UsedTypes)
    requires GraphOk(g) && Universe(g, u) && Listing(g, u, m) && t in u && SchemaName(g, t) in m
    ensures Added(g, u, {t}, m, m)
  {
  }

  lemma StartAdded(g: Graph, u: set<Type>, t: Type, before: UsedTypes)
    requires GraphOk(g) && Universe(g, u) && Listing(g, u, before)
    requires t in u && SchemaName(g, t) !in before
    ensures HalfAdded(g, u, t, {}, before, before[SchemaName(g, t) := t])
  {
  }

  lemma NextAdded(g: Graph, u: set<Type>, t: Type, visited: set<Type>, more: set<Type>,
                  start: UsedTypes, before: UsedTypes, after: UsedTypes)
    requires GraphOk(g) && Universe(g, u) && t in u
    requires (forall x :: x in visited ==> IsNamed(g, x)) && (forall x :: x in more ==> IsNamed(g, x))
    requires HalfAdded(g, u, t, visited, start, before) && Added(g, u, more, before, after)
    requires more <= Successors(g, t)
    ensures HalfAdded(g, u, t, visited + more, start, after)
  {
    hide Names, Successors;
    NamesUnion(g, visited, more);
    forall n | n in after && n !in start && n != SchemaName(g, t) ensures SuccessorsListed(g, after, n) {
      if n in before { assert SuccessorsListed(g, before, n); }
    }
  }

  lemma SuccessorsAre(g: Graph, t: Type)
    requires GraphOk(g) && t.Object? && t.id in g
    ensures Successors(g, t) == PropertyMentions(g, g[t.id].properties)
  {
  }

  lemma EndAdded(g: Graph, u: set<Type>, t: Type, before: UsedTypes, after: UsedTypes)
    requires GraphOk(g) && Universe(g, u) && t in u
    requires HalfAdded(g, u, t, Successors(g, t), before, after)
    ensures Added(g, u, {t}, before, after)
  {
  }

  /** `Added` while the properties of `t` are being visited: `visited` are the types mentioned so far. */
  ghost predicate HalfAdded(g: Graph, u: set<Type>, t: Type, visited: set<Type>, before: UsedTypes, after: UsedTypes)
    requires GraphOk(g) && Universe(g, u) && t in u && forall x :: x in visited ==> IsNamed(g, x)
  {
    && Listing(g, u, after)
    && before.Keys <= after.Keys && (forall n :: n in before ==> after[n] == before[n])
    && SchemaName(g, t) !in before && SchemaName(g, t) in after && after[SchemaName(g, t)] == t
    && Names(g, visited) <= after.Keys
    && (forall n :: n in after && n !in before && n != SchemaName(g, t) ==> SuccessorsListed(g, after, n))
  }

  lemma {:induction false} MentionedByProperty(g: Graph, ps: seq<Property>, i: nat)
    requires i < |ps| && forall k | 0 <= k < |ps| :: Known(g, ps[k].propertyType)
    ensures Mentions(g, ps[i].propertyType) <= PropertyMentions(g, ps)
    decreases |ps|
  {
    if i < |ps| - 1 { MentionedByProperty(g, ps[..|ps| - 1], i); }
  }

  // ---------- exactly the reachable types ----------

  ghost predicate InEveryClosed(g: Graph, roots: set<Type>, x: Type)
    requires GraphOk(g)
  {
    forall s: set<Type> :: Closed(g, s) && roots <= s ==> x in s
  }

  /** The types reachable from `roots`: the least closed set that holds them. */
  ghost function Reach(g: Graph, u: set<Type>, roots: set<Type>): set<Type>
    requires GraphOk(g)
  {
    set x | x in u && InEveryClosed(g, roots, x)
  }

  lemma ReachIsLeast(g: Graph, u: set<Type>, roots: set<Type>)
    requires GraphOk(g) && Universe(g, u) && roots <= u
    ensures Universe(g, Reach(g, u, roots)) && roots <= Reach(g, u, roots) <= u
    ensures forall s: set<Type> :: Closed(g, s) && roots <= s ==> Reach(g, u, roots) <= s
  {
    hide Successors;
    var r := Reach(g, u, roots);
    forall t, x | t in r && x in Successors(g, t) ensures x in r {
      forall s: set<Type> | Closed(g, s) && roots <= s ensures x in s {
        assert t in s;
      }
      assert t in u;
    }
    forall x | x in roots ensures x in r {}
  }

  /** The listed types. */
  function Types(m: UsedTypes): set<Type> {
    set n | n in m :: m[n]
  }

  method DecomposeTypes(g: Graph, usedTypes: UsedTypes, ghost u: set<Type>) returns (result: UsedTypes)
    requires GraphOk(g) && Universe(g, u) && Listing(g, u, usedTypes)
    ensures Listing(g, u, result) && Types(result) == Reach(g, u, Types(usedTypes))
    ensures forall n :: n in result ==> SuccessorsListed(g, result, n)
    ensures usedTypes.Keys <= result.Keys
  {
    hide Names, Successors, Reach, SuccessorsListed;
    ghost var roots := Types(usedTypes);
    ReachIsLeast(g, u, roots);
    ghost var r := Reach(g, u, roots);
    result := map[];
    var rest := usedTypes.Keys;
    while rest != {}
      invariant rest <= usedTypes.Keys
      invariant Listing(g, r, result)
      invariant forall n :: n in result ==> SuccessorsListed(g, result, n)
      invariant forall n :: n in usedTypes && n !in rest ==> n in result
      decreases rest
    {
      var n :| n in rest;
      ghost var before := result;
      MentionsItself(g, usedTypes[n]);
      result := DecomposeType(g, usedTypes[n], result, r);
      AddedKeeps(g, r, usedTypes[n], before, result);
      assert result[n := usedTypes[n]] == result;
      result := result[n := usedTypes[n]];
      rest := rest - {n};
    }
    ListedIsClosed(g, r, result);
    assert roots <= Types(result) by {
      forall x | x in roots ensures x in Types(result) {
        var n :| n in usedTypes && usedTypes[n] == x;
        assert result[n] == x;
      }
    }
  }

  lemma MentionsItself(g: Graph, t: Type)
    requires IsNamed(g, t)
    ensures Known(g, t) && Mentions(g, t) == {t}
  {
  }

  lemma AddedKeeps(g: Graph, u: set<Type>, t: Type, before: UsedTypes, after: UsedTypes)
    requires GraphOk(g) && Universe(g, u) && IsNamed(g, t) && t in u && Listing(g, u, before)
    requires Added(g, u, {t}, before, after)
    requires forall n :: n in before ==> SuccessorsListed(g, before, n)
    ensures forall n :: n in after ==> SuccessorsListed(g, after, n)
    ensures SchemaName(g, t) in after && after[SchemaName(g, t)] == t
    ensures before.Keys <= after.Keys
  {
    hide Successors;
    forall n | n in after ensures SuccessorsListed(g, after, n) {
      if n in before { assert SuccessorsListed(g, before, n); }
    }
  }

  lemma ListedIsClosed(g: Graph, u: set<Type>, m: UsedTypes)
    requires GraphOk(g) && Universe(g, u) && Listing(g, u, m)
    requires forall n :: n in m ==> SuccessorsListed(g, m, n)
    ensures Closed(g, Types(m)) && Types(m) <= u
  {
    hide Successors;
    forall t, x | t in Types(m) && x in Successors(g, t) ensures x in Types(m) {
      var n :| n in m && m[n] == t;
      assert SuccessorsListed(g, m, n);
      assert SchemaName(g, x) in m;
      assert Successors(g, t) <= u;
      assert m[SchemaName(g, x)] == x;
    }
  }

  // ---------- schemas ----------

  datatype Schema =
    | Ref(name: string)
    | ObjectSchema(properties: map<string, Schema>, required: seq<string>)
    | ArraySchema(items: Schema, uniqueItems: bool)
    | MapSchema(values: Schema)
    | EnumSchema(interClass: string)
    | PlainSchema(className: string)
    | EmptySchema

  /** The names behind the `#/components/schemas/` references of a schema. */
  function Refs(s: Schema): set<string> {
    match s
    case Ref(n) => {n}
    case ObjectSchema(ps, _) => set k, n | k in ps && n in Refs(ps[k]) :: n
    case ArraySchema(items, _) => Refs(items)
    case MapSchema(values) => Refs(values)
    case _ => {}
  }

  function SchemaOf(g: Graph, t: Type, link: bool): Schema
    requires GraphOk(g) && Known(g, t)
    decreases if link then 0 else 2, t, 0
  {
    match t
    case Simple(c) => PlainSchema(c)
    case Object(id) =>
      if link then Ref(g[id].name)
      else ObjectSchema(PropertySchemas(g, g[id].properties), RequiredNames(g[id].properties))
    case Vector(item) => ArraySchema(SchemaOf(g, item, link), false)
    case List(item) => ArraySchema(SchemaOf(g, item, link), false)
    case UnorderedSet(item) => ArraySchema(SchemaOf(g, item, link), true)
    case PairList(k, v) => if k == STRING then MapSchema(SchemaOf(g, v, link)) else EmptySchema
    case Enum(q, c) => if link then Ref(q + "_" + c) else EnumSchema(c)
  }

  function PropertySchemas(g: Graph, ps: seq<Property>): map<string, Schema>
    requires GraphOk(g) && forall i | 0 <= i < |ps| :: Known(g, ps[i].propertyType)
    decreases 1, STRING, |ps|
  {
    if ps == [] then map[]
    else
      var last := ps[|ps| - 1];
      PropertySchemas(g, ps[..|ps| - 1])[last.name := SchemaOf(g, last.propertyType, true)]
  }

  function RequiredNames(ps: seq<Property>): seq<string> {
    if ps == [] then []
    else RequiredNames(ps[..|ps| - 1]) + if ps[|ps| - 1].required then [ps[|ps| - 1].name] else []
  }

  lemma {:induction false} LinkedRefs(g: Graph, t: Type)
    requires GraphOk(g) && Known(g, t)
    ensures Refs(SchemaOf(g, t, true)) == Names(g, Mentions(g, t))
  {
    match t
    case Vector(item) => LinkedRefs(g, item);
    case List(item) => LinkedRefs(g, item);
    case UnorderedSet(item) => LinkedRefs(g, item);
    case PairList(k, v) => if k == STRING { LinkedRefs(g, v); }
    case _ =>
  }

  lemma {:induction false} PropertyRefs(g: Graph, ps: seq<Property>, k: string)
    requires GraphOk(g) && forall i | 0 <= i < |ps| :: Known(g, ps[i].propertyType)
    requires k in PropertySchemas(g, ps)
    ensures Refs(PropertySchemas(g, ps)[k]) <= Names(g, PropertyMentions(g, ps))
    decreases |ps|
  {
    hide Refs, SchemaOf, Mentions;
    var init, last := ps[..|ps| - 1], ps[|ps| - 1];
    NamesUnion(g, PropertyMentions(g, init), Mentions(g, last.propertyType));
    if k == last.name {
      LinkedRefs(g, last.propertyType);
    } else {
      PropertyRefs(g, init, k);
    }
  }

  /** The schema that `components` holds for a named type refers to successors of that type only. */
  lemma ComponentRefs(g: Graph, t: Type)
    requires GraphOk(g) && IsNamed(g, t)
    ensures Known(g, t) && Refs(SchemaOf(g, t, false)) <= Names(g, Successors(g, t))
  {
    if t.Object? {
      var ps := PropertySchemas(g, g[t.id].properties);
      hide PropertySchemas, Names;
      forall k | k in ps ensures Refs(ps[k]) <= Names(g, Successors(g, t)) {
        PropertyRefs(g, g[t.id].properties, k);
      }
      assert SchemaOf(g, t, false).ObjectSchema?;
    }
  }

  /** What a call of `generateSchemaForType` records: the listed types plus `added`, nothing lost. */
  ghost predicate Recorded(g: Graph, u: set<Type>, added: set<Type>, before: UsedTypes, after: UsedTypes)
    requires GraphOk(g) && Universe(g, u) && forall x :: x in added ==> IsNamed(g, x)
  {
    && Listing(g, u, after)
    && (forall n :: n in before ==> n in after && after[n] == before[n])
    && after.Keys == before.Keys + Names(g, added)
  }

  /** The named types a call records. */
  function Linked(g: Graph, t: Type, link: bool): (s: set<Type>)
    requires GraphOk(g) && Known(g, t)
    ensures forall x :: x in s ==> IsNamed(g, x)
  {
    if link then Mentions(g, t)
    else
      match t
      case Object(_) => Successors(g, t)
      case Vector(item) => Linked(g, item, false)
      case List(item) => Linked(g, item, false)
      case UnorderedSet(item) => Linked(g, item, false)
      case PairList(k, v) => if k == STRING then Linked(g, v, false) else {}
      case _ => {}
  }

  method GenerateSchemaForType(g: Graph, t: Type, linkSchema: bool, usedTypes: UsedTypes, ghost u: set<Type>)
    returns (schema: Schema, after: UsedTypes)
    requires GraphOk(g) && Universe(g, u) && Listing(g, u, usedTypes)
    requires Known(g, t) && Linked(g, t, linkSchema) <= u
    ensures schema == SchemaOf(g, t, linkSchema)
    ensures Recorded(g, u, Linked(g, t, linkSchema), usedTypes, after)
    decreases if linkSchema then 0 else 1, t, 1
  {
    hide Names;
    NoNames(g);
    after := usedTypes;
    match t {
      case Object(_) =>
        schema, after := GenerateSchemaForTypeObject(g, t, linkSchema, usedTypes, u);
      case Vector(item) =>
        schema, after := GenerateSchemaForType(g, item, linkSchema, usedTypes, u);
        schema := ArraySchema(schema, false);
      case List(item) =>
        schema, after := GenerateSchemaForType(g, item, linkSchema, usedTypes, u);
        schema := ArraySchema(schema, false);
      case UnorderedSet(item) =>
        schema, after := GenerateSchemaForType(g, item, linkSchema, usedTypes, u);
        schema := ArraySchema(schema, true);
      case PairList(k, v) =>
        if k == STRING {
          schema, after := GenerateSchemaForType(g, v, linkSchema, usedTypes, u);
          schema := MapSchema(schema);
        } else {
          schema := EmptySchema;
        }
      case Enum(_, c) =>
        if linkSchema {
          schema, after := RecordNamed(g, t, usedTypes, u);
        } else {
          schema := EnumSchema(c);
        }
      case Simple(c) =>
        schema := PlainSchema(c);
    }
  }

  lemma NoNames(g: Graph)
    ensures Names(g, {}) == {}
  {
  }

  /** A reference to a named type, and its entry in the used types. */
  method RecordNamed(g: Graph, t: Type, usedTypes: UsedTypes, ghost u: set<Type>)
    returns (schema: Schema, after: UsedTypes)
    requires GraphOk(g) && Universe(g, u) && Listing(g, u, usedTypes) && t in u
    ensures schema == Ref(SchemaName(g, t)) && Recorded(g, u, {t}, usedTypes, after)
  {
    schema := Ref(SchemaName(g, t));
    after := usedTypes[SchemaName(g, t) := t];
  }

  method GenerateSchemaForTypeObject(g: Graph, t: Type, linkSchema: bool, usedTypes: UsedTypes, ghost u: set<Type>)
    returns (schema: Schema, after: UsedTypes)
    requires GraphOk(g) && Universe(g, u) && Listing(g, u, usedTypes)
    requires t.Object? && Known(g, t) && Linked(g, t, linkSchema) <= u
    ensures schema == SchemaOf(g, t, linkSchema)
    ensures Recorded(g, u, Linked(g, t, linkSchema), usedTypes, after)
    decreases if linkSchema then 0 else 1, t, 0
  {
    if linkSchema {
      schema, after := RecordNamed(g, t, usedTypes, u);
      return;
    }
    SuccessorsAre(g, t);
    UnlinkedObject(g, t);
    hide Names, PropertyMentions, PropertySchemas, Mentions, RequiredNames, Recorded, Successors, SchemaOf, Linked;
    var ps := g[t.id].properties;
    var properties: map<string, Schema> := map[];
    after := usedTypes;
    PropertyStart(g);
    RecordedNone(g, u, usedTypes);
    assert ps[..0] == [];
    var i := 0;
    while i < |ps|
      invariant 0 <= i <= |ps|
      invariant properties == PropertySchemas(g, ps[..i])
      invariant Recorded(g, u, PropertyMentions(g, ps[..i]), usedTypes, after)
    {
      ghost var before := after;
      var schemaOfProperty;
      PropertyNext(g, ps, i);
      RecordedLists(g, u, PropertyMentions(g, ps[..i]), usedTypes, after);
      LinkedMentions(g, ps[i].propertyType);
      schemaOfProperty, after := GenerateSchemaForType(g, ps[i].propertyType, true, after, u);
      RecordedNext(g, u, PropertyMentions(g, ps[..i]), Mentions(g, ps[i].propertyType), usedTypes, before, after);
      properties := properties[ps[i].name := schemaOfProperty];
      i := i + 1;
    }
    assert ps[..i] == ps;
    var required := RequiredProperties(ps);
    schema := ObjectSchema(properties, required);
  }

  method RequiredProperties(ps: seq<Property>) returns (required: seq<string>)
    ensures required == RequiredNames(ps)
  {
    required := [];
    var i := 0;
    while i < |ps|
      invariant 0 <= i <= |ps|
      invariant required == RequiredNames(ps[..i])
    {
      assert ps[..i + 1][..i] == ps[..i];
      if ps[i].required {
        required := required + [ps[i].name];
      }
      i := i + 1;
    }
    assert ps[..i] == ps;
  }

  lemma UnlinkedObject(g: Graph, t: Type)
    requires GraphOk(g) && t.Object? && t.id in g
    ensures Linked(g, t, false) == Successors(g, t)
    ensures SchemaOf(g, t, false) ==
            ObjectSchema(PropertySchemas(g, g[t.id].properties), RequiredNames(g[t.id].properties))
  {
  }

  lemma LinkedMentions(g: Graph, t: Type)
    requires GraphOk(g) && Known(g, t)
    ensures Linked(g, t, true) == Mentions(g, t)
  {
  }

  lemma RecordedNone(g: Graph, u: set<Type>, m: UsedTypes)
    requires GraphOk(g) && Universe(g, u) && Listing(g, u, m)
    ensures Recorded(g, u, {}, m, m)
  {
  }

  lemma RecordedLists(g: Graph, u: set<Type>, added: set<Type>, before: UsedTypes, after: UsedTypes)
    requires GraphOk(g) && Universe(g, u) && forall x :: x in added ==> IsNamed(g, x)
    requires Recorded(g, u, added, before, after)
    ensures Listing(g, u, after)
  {
  }

  lemma RecordedNext(g: Graph, u: set<Type>, added: set<Type>, more: set<Type>, a: UsedTypes, b: UsedTypes, c: UsedTypes)
    requires GraphOk(g) && Universe(g, u)
    requires (forall x :: x in added ==> IsNamed(g, x)) && (forall x :: x in more ==> IsNamed(g, x))
    requires Recorded(g, u, added, a, b) && Recorded(g, u, more, b, c)
    ensures Recorded(g, u, added + more, a, c)
  {
    NamesUnion(g, added, more);
  }

  lemma PropertyStart(g: Graph)
    requires GraphOk(g)
    ensures PropertySchemas(g, []) == map[] && PropertyMentions(g, []) == {} && Names(g, {}) == {}
  {
  }

  lemma PropertyNext(g: Graph, ps: seq<Property>, i: nat)
    requires GraphOk(g) && i < |ps| && forall k | 0 <= k < |ps| :: Known(g, ps[k].propertyType)
    ensures PropertySchemas(g, ps[..i + 1]) ==
            PropertySchemas(g, ps[..i])[ps[i].name := SchemaOf(g, ps[i].propertyType, true)]
    ensures PropertyMentions(g, ps[..i + 1]) == PropertyMentions(g, ps[..i]) + Mentions(g, ps[i].propertyType)
    ensures Mentions(g, ps[i].propertyType) <= PropertyMentions(g, ps)
  {
    assert ps[..i + 1][..i] == ps[..i];
    MentionedByProperty(g, ps, i);
  }

  // ---------- the document ----------

  datatype Parameter = Parameter(name: string, paramType: Type)

  /** What an endpoint declares: the types of its responses, of its body and of its parameters. */
  datatype Info = Info(
    hide_: bool, path: string, httpMethod: string,
    responses: seq<Option<Type>>, consumes: seq<Type>, body: Option<Type>,
    headers: seq<Parameter>, pathParams: seq<Parameter>, queryParams: seq<Parameter>)

  /** Paths to methods to every schema generated for the operation; and the components. */
  datatype Document = Document(paths: map<string, map<string, seq<Schema>>>, components: map<string, Schema>)

  /** The names of HTTP methods a path item has a place for. */
  const OPERATIONS: seq<string> := ["get", "put", "post", "delete", "options", "head", "patch", "trace"]

  function LowerAscii(s: string): string {
    seq(|s|, i requires 0 <= i < |s| => if 'A' <= s[i] <= 'Z' then s[i] + 32 as char else s[i])
  }

  function BodyTypes(info: Info): seq<Type> {
    if |info.consumes| > 0 then info.consumes
    else if info.body.Some? then [info.body.value] else []
  }

  function GivenTypes(ts: seq<Option<Type>>): seq<Type> {
    if ts == [] then [] else GivenTypes(ts[..|ts| - 1]) + if ts[|ts| - 1].Some? then [ts[|ts| - 1].value] else []
  }

  function ParameterTypes(ps: seq<Parameter>): seq<Type> {
    seq(|ps|, i requires 0 <= i < |ps| => ps[i].paramType)
  }

  function WithoutAuthorization(ps: seq<Parameter>): seq<Parameter> {
    if ps == [] then []
    else WithoutAuthorization(ps[..|ps| - 1]) + if ps[|ps| - 1].name != "Authorization" then [ps[|ps| - 1]] else []
  }

  /** Every type an operation generates a schema for, in order. */
  function OperationTypes(info: Info): seq<Type> {
    GivenTypes(info.responses) + BodyTypes(info) + ParameterTypes(WithoutAuthorization(info.headers)) +
    ParameterTypes(info.pathParams) + ParameterTypes(info.queryParams)
  }

  function AllMentions(g: Graph, ts: seq<Type>): (s: set<Type>)
    requires forall i | 0 <= i < |ts| :: Known(g, ts[i])
    ensures forall x :: x in s ==> IsNamed(g, x)
  {
    if ts == [] then {} else AllMentions(g, ts[..|ts| - 1]) + Mentions(g, ts[|ts| - 1])
  }

  predicate AllKnown(g: Graph, ts: seq<Type>) {
    forall i | 0 <= i < |ts| :: Known(g, ts[i])
  }

  lemma {:induction false} AllMentionsHas(g: Graph, ts: seq<Type>, i: nat)
    requires AllKnown(g, ts) && i < |ts|
    ensures Mentions(g, ts[i]) <= AllMentions(g, ts)
    decreases |ts|
  {
    if i < |ts| - 1 { AllMentionsHas(g, ts[..|ts| - 1], i); }
  }

  /** References of a sequence of schemas. */
  function AllRefs(ss: seq<Schema>): set<string> {
    set i, n | 0 <= i < |ss| && n in Refs(ss[i]) :: n
  }

  /** `generateResponses`, `generateRequestBody` and `addParamsToParametersList`: linked schemas, one after another. */
  method GenerateSchemas(g: Graph, ts: seq<Type>, usedTypes: UsedTypes, ghost u: set<Type>)
    returns (schemas: seq<Schema>, after: UsedTypes)
    requires GraphOk(g) && Universe(g, u) && Listing(g, u, usedTypes)
    requires AllKnown(g, ts) && AllMentions(g, ts) <= u
    ensures |schemas| == |ts| && forall i :: 0 <= i < |ts| ==> schemas[i] == SchemaOf(g, ts[i], true)
    ensures Recorded(g, u, AllMentions(g, ts), usedTypes, after)
  {
    hide Names, Recorded, SchemaOf, Mentions, Linked, AllMentions;
    schemas, after := [], usedTypes;
    RecordedNone(g, u, usedTypes);
    NothingMentioned(g);
    assert ts[..0] == [];
    var i := 0;
    while i < |ts|
      invariant 0 <= i <= |ts|
      invariant |schemas| == i && forall k :: 0 <= k < i ==> schemas[k] == SchemaOf(g, ts[k], true)
      invariant Recorded(g, u, AllMentions(g, ts[..i]), usedTypes, after)
    {
      ghost var before := after;
      var schema;
      RecordedLists(g, u, AllMentions(g, ts[..i]), usedTypes, after);
      AllMentionsHas(g, ts, i);
      LinkedMentions(g, ts[i]);
      schema, after := GenerateSchemaForType(g, ts[i], true, after, u);
      AllMentionsNext(g, ts, i);
      RecordedNext(g, u, AllMentions(g, ts[..i]), Mentions(g, ts[i]), usedTypes, before, after);
      schemas := schemas + [schema];
      i := i + 1;
    }
    assert ts[..i] == ts;
  }

  lemma NothingMentioned(g: Graph)
    ensures AllMentions(g, []) == {}
  {
  }

  lemma AllMentionsNext(g: Graph, ts: seq<Type>, i: nat)
    requires AllKnown(g, ts) && i < |ts|
    ensures AllMentions(g, ts[..i + 1]) == AllMentions(g, ts[..i]) + Mentions(g, ts[i])
  {
    assert ts[..i + 1][..i] == ts[..i];
  }

  type Paths = map<string, map<string, seq<Schema>>>

  predicate Visible(e: Option<Info>) {
    e.Some? && !e.value.hide_ && e.value.path != ""
  }

  predicate EndpointsKnown(g: Graph, es: seq<Option<Info>>) {
    forall i | 0 <= i < |es| && Visible(es[i]) :: AllKnown(g, OperationTypes(es[i].value))
  }

  /** The named types the visible endpoints mention. */
  function UsedBy(g: Graph, es: seq<Option<Info>>): (s: set<Type>)
    requires EndpointsKnown(g, es)
    ensures forall x :: x in s ==> IsNamed(g, x)
  {
    if es == [] then {}
    else
      var last := es[|es| - 1];
      UsedBy(g, es[..|es| - 1]) + if Visible(last) then AllMentions(g, OperationTypes(last.value)) else {}
  }

  function OperationSchemas(g: Graph, ts: seq<Type>): seq<Schema>
    requires GraphOk(g) && AllKnown(g, ts)
  {
    seq(|ts|, i requires 0 <= i < |ts| => SchemaOf(g, ts[i], true))
  }

  function RootedPath(path: string): string
    requires path != ""
  {
    if path[0] != '/' then "/" + path else path
  }

  /** The path table after one more endpoint. */
  function AddEndpoint(paths: Paths, info: Info, operation: seq<Schema>): Paths
    requires info.path != ""
  {
    var path := RootedPath(info.path);
    var item := if path in paths then paths[path] else map[];
    paths[path := if LowerAscii(info.httpMethod) in OPERATIONS then item[LowerAscii(info.httpMethod) := operation] else item]
  }

  function PathsOf(g: Graph, es: seq<Option<Info>>): Paths
    requires GraphOk(g) && EndpointsKnown(g, es)
  {
    if es == [] then map[]
    else
      var init, last := es[..|es| - 1], es[|es| - 1];
      if Visible(last)
      then AddEndpoint(PathsOf(g, init), last.value, OperationSchemas(g, OperationTypes(last.value)))
      else PathsOf(g, init)
  }

  /** Every reference of every operation is in `names`. */
  ghost predicate PathsResolve(paths: Paths, names: set<string>) {
    forall p, m :: p in paths && m in paths[p] ==> AllRefs(paths[p][m]) <= names
  }

  lemma {:induction false} OperationRefs(g: Graph, ts: seq<Type>)
    requires GraphOk(g) && AllKnown(g, ts)
    ensures AllRefs(OperationSchemas(g, ts)) <= Names(g, AllMentions(g, ts))
  {
    hide Refs, SchemaOf, Mentions;
    forall i | 0 <= i < |ts| ensures Refs(OperationSchemas(g, ts)[i]) <= Names(g, AllMentions(g, ts)) {
      LinkedRefs(g, ts[i]);
      AllMentionsHas(g, ts, i);
    }
  }

  lemma {:induction false} PathRefs(g: Graph, es: seq<Option<Info>>)
    requires GraphOk(g) && EndpointsKnown(g, es)
    ensures PathsResolve(PathsOf(g, es), Names(g, UsedBy(g, es)))
  {
    hide AllRefs, OperationSchemas, OperationTypes, LowerAscii, AllMentions;
    if es != [] {
      var init, last := es[..|es| - 1], es[|es| - 1];
      PathRefs(g, init);
      if Visible(last) {
        OperationRefs(g, OperationTypes(last.value));
        NamesUnion(g, UsedBy(g, init), AllMentions(g, OperationTypes(last.value)));
      }
    }
  }

  method GeneratePathItemData(g: Graph, info: Info, usedTypes: UsedTypes, ghost u: set<Type>)
    returns (operation: seq<Schema>, after: UsedTypes)
    requires GraphOk(g) && Universe(g, u) && Listing(g, u, usedTypes)
    requires AllKnown(g, OperationTypes(info)) && AllMentions(g, OperationTypes(info)) <= u
    ensures operation == OperationSchemas(g, OperationTypes(info))
    ensures Recorded(g, u, AllMentions(g, OperationTypes(info)), usedTypes, after)
  {
    operation, after := GenerateSchemas(g, OperationTypes(info), usedTypes, u);
  }

  method GeneratePaths(g: Graph, es: seq<Option<Info>>, ghost u: set<Type>) returns (result: Paths, usedTypes: UsedTypes)
    requires GraphOk(g) && Universe(g, u) && EndpointsKnown(g, es) && UsedBy(g, es) <= u
    ensures result == PathsOf(g, es)
    ensures Recorded(g, u, UsedBy(g, es), map[], usedTypes)
  {
    hide Recorded, AddEndpoint, OperationSchemas, OperationTypes, AllMentions, UsedBy, PathsOf, Names;
    result, usedTypes := map[], map[];
    RecordedNone(g, u, map[]);
    NoEndpoints(g);
    assert es[..0] == [];
    var i := 0;
    while i < |es|
      invariant 0 <= i <= |es|
      invariant result == PathsOf(g, es[..i])
      invariant Recorded(g, u, UsedBy(g, es[..i]), map[], usedTypes)
    {
      EndpointNext(g, es, i);
      if Visible(es[i]) {
        ghost var before := usedTypes;
        var operation;
        RecordedLists(g, u, UsedBy(g, es[..i]), map[], usedTypes);
        operation, usedTypes := GeneratePathItemData(g, es[i].value, usedTypes, u);
        RecordedNext(g, u, UsedBy(g, es[..i]), AllMentions(g, OperationTypes(es[i].value)), map[], before, usedTypes);
        result := AddEndpoint(result, es[i].value, operation);
      } else {
        assert UsedBy(g, es[..i]) + {} == UsedBy(g, es[..i]);
      }
      i := i + 1;
    }
    assert es[..i] == es;
  }

  lemma NoEndpoints(g: Graph)
    requires GraphOk(g)
    ensures UsedBy(g, []) == {} && PathsOf(g, []) == map[]
  {
  }

  lemma EndpointNext(g: Graph, es: seq<Option<Info>>, i: nat)
    requires GraphOk(g) && EndpointsKnown(g, es) && i < |es|
    ensures UsedBy(g, es[..i + 1]) ==
            UsedBy(g, es[..i]) + if Visible(es[i]) then AllMentions(g, OperationTypes(es[i].value)) else {}
    ensures PathsOf(g, es[..i + 1]) ==
            if Visible(es[i])
            then AddEndpoint(PathsOf(g, es[..i]), es[i].value, OperationSchemas(g, OperationTypes(es[i].value)))
            else PathsOf(g, es[..i])
    ensures UsedBy(g, es[..i + 1]) <= UsedBy(g, es)
  {
    hide AllMentions, OperationTypes, AddEndpoint, OperationSchemas;
    assert es[..i + 1][..i] == es[..i];
    UsedByGrows(g, es, i + 1);
  }

  lemma {:induction false} UsedByGrows(g: Graph, es: seq<Option<Info>>, i: nat)
    requires EndpointsKnown(g, es) && i <= |es|
    ensures UsedBy(g, es[..i]) <= UsedBy(g, es)
    decreases |es|
  {
    hide AllMentions, OperationTypes;
    if i == |es| {
      assert es[..i] == es;
    } else {
      UsedByGrows(g, es[..|es| - 1], i);
      assert es[..|es| - 1][..i] == es[..i];
    }
  }

  method GenerateComponents(g: Graph, decomposed: UsedTypes, ghost u: set<Type>) returns (schemas: map<string, Schema>)
    requires GraphOk(g) && Universe(g, u) && Listing(g, u, decomposed)
    ensures schemas.Keys == decomposed.Keys
    ensures forall n :: n in schemas ==> Known(g, decomposed[n]) && schemas[n] == SchemaOf(g, decomposed[n], false)
  {
    hide SchemaOf, Names, Recorded, Successors;
    schemas := map[];
    var rest := decomposed.Keys;
    while rest != {}
      invariant rest <= decomposed.Keys && schemas.Keys == decomposed.Keys - rest
      invariant forall n :: n in schemas ==> Known(g, decomposed[n]) && schemas[n] == SchemaOf(g, decomposed[n], false)
      decreases rest
    {
      var n :| n in rest;
      MentionsItself(g, decomposed[n]);
      assert IsNamed(g, decomposed[n]) && Linked(g, decomposed[n], false) <= u by { LinkedInside(g, u, decomposed[n]); }
      var schema, dummy := GenerateSchemaForType(g, decomposed[n], false, map[], u);
      schemas := schemas[n := schema];
      rest := rest - {n};
    }
  }

  lemma LinkedInside(g: Graph, u: set<Type>, t: Type)
    requires GraphOk(g) && Universe(g, u) && t in u
    ensures Known(g, t) && Linked(g, t, false) <= u
  {
    assert Successors(g, t) <= u;
  }

  /**
   * Every reference of the document resolves, whether it stands in an operation or in a component; and the
   * components are exactly the types reachable from the operations.
   */
  method GenerateDocument(g: Graph, es: seq<Option<Info>>, ghost u: set<Type>) returns (document: Document)
    requires GraphOk(g) && Universe(g, u) && EndpointsKnown(g, es) && UsedBy(g, es) <= u
    ensures document.paths == PathsOf(g, es)
    ensures PathsResolve(document.paths, document.components.Keys)
    ensures forall n :: n in document.components ==> Refs(document.components[n]) <= document.components.Keys
    ensures forall n :: n in document.components <==>
              exists x :: x in Reach(g, u, UsedBy(g, es)) && IsNamed(g, x) && SchemaName(g, x) == n
  {
    hide UsedBy, PathsOf, SchemaOf, Refs, Reach, Successors;
    var paths, usedTypes := GeneratePaths(g, es, u);
    RecordedTypes(g, u, UsedBy(g, es), usedTypes);
    var decomposed := DecomposeTypes(g, usedTypes, u);
    var components := GenerateComponents(g, decomposed, u);
    PathRefs(g, es);
    forall n | n in components ensures Refs(components[n]) <= components.Keys {
      ComponentRefs(g, decomposed[n]);
      assert SuccessorsListed(g, decomposed, n);
    }
    NamesOfTypes(g, u, decomposed);
    document := Document(paths, components);
  }

  lemma RecordedTypes(g: Graph, u: set<Type>, used: set<Type>, m: UsedTypes)
    requires GraphOk(g) && Universe(g, u) && (forall x :: x in used ==> IsNamed(g, x)) && used <= u
    requires Recorded(g, u, used, map[], m)
    ensures Listing(g, u, m) && m.Keys == Names(g, used) && Types(m) == used
  {
    forall x | x in used ensures x in Types(m) {
      assert m[SchemaName(g, x)] == x;
    }
  }

  lemma NamesOfTypes(g: Graph, u: set<Type>, m: UsedTypes)
    requires GraphOk(g) && Universe(g, u) && Listing(g, u, m)
    ensures forall n :: n in m <==> exists x :: x in Types(m) && IsNamed(g, x) && SchemaName(g, x) == n
  {
    forall n | n in m ensures exists x :: x in Types(m) && IsNamed(g, x) && SchemaName(g, x) == n {
      assert m[n] in Types(m);
    }
  }
}
