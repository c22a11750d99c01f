/** Unions of closed objects told apart by an `action` property, the form of this
    server's request models (src/gdb_mcp/mcp/schemas): alternatives given in place or
    by reference, with any further properties and any required names. */
module ActionUnions {
  import opened JsonValues
  import opened SchemaNormalizer
  import opened SchemaAcceptance
  import opened SchemaFlattening

  // ------------------------------------------------------------ alternatives

  /** A property that allows certain values only: a `const`, or an `enum`. */
  predicate IsChoice(s: Json) {
    && s.Obj? && !HasRef(s.fields) && !IsUnion(s.fields)
    && (if "enum" in s.fields then s.fields["enum"].Arr? else "const" in s.fields)
  }

  function Choices(s: Json): seq<Json>
    requires IsChoice(s)
  {
    if "enum" in s.fields then s.fields["enum"].items else [s.fields["const"]]
  }

  /** An object schema that declares its actions and forbids undeclared names. */
  predicate IsClosedObject(s: Json) {
    && s.Obj? && !HasRef(s.fields) && !IsUnion(s.fields) && "const" !in s.fields && "enum" !in s.fields
    && "type" in s.fields && s.fields["type"] == Str("object") && ForbidsExtras(s.fields)
    && HasObject(s.fields, "properties") && "action" in Table(s.fields) && IsChoice(Table(s.fields)["action"])
  }

  /** The object schema of an alternative: itself, or the definition it refers to. */
  function Target(item: Json, defs: Fields): Json {
    if item.Obj? && HasRef(item.fields) && Resolvable(RefName(item.fields["$ref"].s), defs, [])
    then defs[RefName(item.fields["$ref"].s)] else item
  }

  function ActionsOf(item: Json, defs: Fields): seq<Json>
    requires IsClosedObject(Target(item, defs))
  {
    Choices(Table(Target(item, defs).fields)["action"])
  }

  function Declared(item: Json, defs: Fields): set<string>
    requires IsClosedObject(Target(item, defs))
  {
    Table(Target(item, defs).fields).Keys
  }

  // ------------------------------------------------- one alternative, normalized

  /** What matters of a normalized alternative. */
  predicate Describes(n: Json, s: Json)
    requires IsClosedObject(s)
  {
    && n.Obj? && Shaped(n.fields) && "type" in n.fields && n.fields["type"] == Str("object") && ForbidsExtras(n.fields)
    && Table(n.fields).Keys == Table(s.fields).Keys && RequiredNames(n) == RequiredNames(s)
    && Table(n.fields)["action"].Obj? && HasList(Table(n.fields)["action"].fields, "enum")
    && Table(n.fields)["action"].fields["enum"].items == Choices(Table(s.fields)["action"])
  }

  lemma ChoiceNormalized(s: Json, defs: Fields, stack: seq<string>)
    requires IsChoice(s)
    ensures var n := Normalize(s, defs, stack);
            n.Obj? && HasList(n.fields, "enum") && n.fields["enum"].items == Choices(s)
  {
    NotSchemaPositions();
    UntouchedKey(s, "const", defs, stack);
    UntouchedKey(s, "enum", defs, stack);
  }

  lemma ObjectKept(s: Json, defs: Fields, stack: seq<string>)
    requires IsClosedObject(s)
    ensures var g := NormalizeChildren(s, defs, stack);
            && Normalize(s, defs, stack) == Obj(g)
            && "type" in g && g["type"] == Str("object") && ForbidsExtras(g)
            && "enum" !in g && ListAt(g, "required") == ListAt(s.fields, "required")
  {
    NotSchemaPositions();
    UntouchedKey(s, "const", defs, stack);
    UntouchedKey(s, "enum", defs, stack);
    UntouchedKey(s, "type", defs, stack);
    UntouchedKey(s, "required", defs, stack);
    assert NormalizeChildren(s, defs, stack)["additionalProperties"] ==
           NormalizeChild(s, "additionalProperties", defs, stack);
  }

  lemma ObjectDescribed(s: Json, defs: Fields, stack: seq<string>)
    requires IsClosedObject(s) && s.fields.Keys !! INTERACTING
    ensures Describes(Normalize(s, defs, stack), s)
  {
    ObjectKept(s, defs, stack);
    NormalizedProperties(s, defs, stack);
    ChoiceNormalized(Table(s.fields)["action"], defs, stack);
    var g := NormalizeChildren(s, defs, stack);
    assert g.Keys <= s.fields.Keys;
    assert Table(g).Keys == Table(s.fields).Keys;
  }

  /** Annotations beside a reference change none of it. */
  lemma AnnotatedDescribes(n: Json, notes: Fields, s: Json)
    requires IsClosedObject(s) && Describes(n, s) && notes.Keys <= ANNOTATIONS
    ensures Describes(Obj(n.fields + notes), s)
  {
    NotAnnotations();
    assert "type" !in ANNOTATIONS && ANNOTATIONS !! INTERACTING;
    var m := n.fields + notes;
    assert forall key | key !in ANNOTATIONS ::
           (key in m <==> key in n.fields) && (key in m ==> m[key] == n.fields[key]);
    assert Table(m) == Table(n.fields);
  }

  lemma AlternativeDescribed(item: Json, defs: Fields, nulls: bool)
    requires IsClosedObject(Target(item, defs)) && Flattenable(item, defs, [], nulls)
    ensures Describes(Normalize(item, defs, []), Target(item, defs))
  {
    var s := Target(item, defs);
    if HasRef(item.fields) {
      var name := RefName(item.fields["$ref"].s);
      StackGrows(defs, [], name);
      assert Flattenable(s, defs, [] + [name], nulls);
      ObjectDescribed(s, defs, [] + [name]);
      AnnotatedDescribes(Normalize(s, defs, [] + [name]), item.fields - {"$ref"}, s);
    } else {
      ObjectDescribed(s, defs, []);
    }
  }

  // ------------------------------------------------------------ the union

  /** A union of closed objects, each flattenable, whose normalized properties are
      mergeable where two alternatives share a name. */
  ghost predicate IsActionUnion(node: Json, defs: Fields, nulls: bool) {
    && node.Obj? && !HasRef(node.fields) && IsUnion(node.fields) && RawVariants(node.fields).Arr?
    && node.fields.Keys - {"oneOf", "anyOf"} <= ANNOTATIONS
    && (forall i | 0 <= i < |Items(node)| ::
          IsClosedObject(Target(Items(node)[i], defs)) && Flattenable(Items(node)[i], defs, [], nulls))
    && (forall i, j | 0 <= i < j < |Items(node)| ::
          MergeableTables(TableOf(Items(node)[i], defs), TableOf(Items(node)[j], defs)))
  }

  function Items(node: Json): seq<Json> {
    if node.Obj? && IsUnion(node.fields) && RawVariants(node.fields).Arr? then RawVariants(node.fields).items else []
  }

  /** The normalized properties of an alternative. */
  function TableOf(item: Json, defs: Fields): Fields {
    Table(FieldsOf(Normalize(item, defs, [])))
  }

  function Flats(node: Json, defs: Fields): seq<Json>
    requires node.Obj? && IsUnion(node.fields) && RawVariants(node.fields).Arr?
  {
    NormalizeAll(RawVariants(node.fields), defs, [])
  }

  /** Each normalized alternative is described by the object schema it comes from. */
  ghost predicate AllDescribed(flats: seq<Json>, items: seq<Json>, defs: Fields) {
    && |flats| == |items|
    && forall i | 0 <= i < |flats| ::
       IsClosedObject(Target(items[i], defs)) && Describes(flats[i], Target(items[i], defs))
  }

  lemma FlatsDescribed(node: Json, defs: Fields, nulls: bool)
    requires IsActionUnion(node, defs, nulls)
    ensures AllDescribed(Flats(node, defs), Items(node), defs) && MergeableVariants(Flats(node, defs))
    ensures KeptVariants(Flats(node, defs)) == Flats(node, defs)
  {
    var items, flats := Items(node), Flats(node, defs);
    NormalizeAllAt(RawVariants(node.fields), defs, []);
    forall i | 0 <= i < |flats|
      ensures Describes(flats[i], Target(items[i], defs)) && TableOf(items[i], defs) == Table(flats[i].fields)
    {
      AlternativeDescribed(items[i], defs, nulls);
    }
    DescribedMergeable(flats, items, defs);
    AllKept(flats);
  }

  lemma DescribedMergeable(flats: seq<Json>, items: seq<Json>, defs: Fields)
    requires AllDescribed(flats, items, defs)
    requires forall i, j | 0 <= i < j < |flats| :: MergeableTables(Table(flats[i].fields), Table(flats[j].fields))
    ensures MergeableVariants(flats)
  {
    forall i | 0 <= i < |flats| ensures ObjectVariant(flats[i]) && ForbidsExtras(flats[i].fields) {
      assert Describes(flats[i], Target(items[i], defs));
    }
  }

  lemma {:induction false} AllKept(variants: seq<Json>)
    requires forall i | 0 <= i < |variants| :: variants[i].Obj? && !IsNullSchema(variants[i])
    ensures KeptVariants(variants) == variants
  {
    if variants == [] {
    } else {
      AllKept(variants[..|variants| - 1]);
    }
  }

  /** Every action union meets the conditions of the flattening theorem. */
  lemma ActionUnionFlattenable(node: Json, defs: Fields, nulls: bool)
    requires IsActionUnion(node, defs, nulls)
    ensures Flattenable(node, defs, [], nulls)
  {
    var flats := Flats(node, defs);
    FlatsDescribed(node, defs, nulls);
    forall v | v in flats ensures v.Obj? && !IsNullSchema(v) {
      var i :| 0 <= i < |flats| && flats[i] == v;
      assert Describes(flats[i], Target(Items(node)[i], defs));
    }
    assert FlattenableVariants(flats, nulls);
  }

  /** So it is flattened without losing a value. */
  lemma ActionUnionKeepsValues(o: Oracle, node: Json, defs: Fields, nulls: bool, v: Json)
    requires Lawful(o) && IsActionUnion(node, defs, nulls) && (nulls ==> NullFree(v))
    requires Accepts(o, defs, [], node, v)
    ensures Accepts(o, map[], [], Normalize(node, defs, []), v)
  {
    ActionUnionFlattenable(node, defs, nulls);
    NormalizeAccepts(o, node, defs, [], nulls, v);
  }

  // ------------------------------------------------- and without inventing any

  /** The action is one of some alternative. */
  predicate OffersAction(items: seq<Json>, defs: Fields, action: Json)
    requires forall i | 0 <= i < |items| :: IsClosedObject(Target(items[i], defs))
  {
    exists i | 0 <= i < |items| :: action in ActionsOf(items[i], defs)
  }

  /** The merged `action` property lists exactly the actions of the alternatives. */
  lemma MergedActions(flats: seq<Json>, items: seq<Json>, defs: Fields, action: Json)
    requires flats != [] && AllDescribed(flats, items, defs) && MergeableVariants(flats)
    ensures var folded := FoldedProperties(flats);
            && "action" in folded && folded["action"].Obj? && HasList(folded["action"].fields, "enum")
            && (action in folded["action"].fields["enum"].items <==> OffersAction(items, defs, action))
  {
    forall i | 0 <= i < |flats|
      ensures DeclaresEnum(flats[i].fields, "action") && "action" in Table(flats[i].fields)
      ensures Enumerates(FieldsOf(flats[i]), "action", action) <==> action in ActionsOf(items[i], defs)
    {
      assert Describes(flats[i], Target(items[i], defs));
    }
    FoldedNames(flats, "action");
    assert "action" in Table(flats[0].fields);
    FoldedEnumIsUnion(flats, "action", action);
  }

  /** An object whose names are all declared by some alternative, which has the names
      that all of them require, and whose action, if it has one, some alternative
      offers. */
  ghost predicate Plausible(items: seq<Json>, defs: Fields, v: Json)
    requires forall i | 0 <= i < |items| :: IsClosedObject(Target(items[i], defs))
  {
    && v.Obj?
    && (forall name | name in v.fields :: exists i | 0 <= i < |items| :: name in Declared(items[i], defs))
    && (forall name | (forall i | 0 <= i < |items| :: name in RequiredNames(Target(items[i], defs))) ::
        name in v.fields)
    && ("action" in v.fields ==> OffersAction(items, defs, v.fields["action"]))
  }

  lemma EnumAccepts(o: Oracle, s: Json, v: Json)
    requires s.Obj? && HasList(s.fields, "enum") && Accepts(o, map[], [], s, v)
    ensures v in s.fields["enum"].items
  {
    assert EnumOk(s.fields, v);
  }

  lemma MergedIsPlausible(o: Oracle, flats: seq<Json>, items: seq<Json>, defs: Fields, v: Json)
    requires flats != [] && AllDescribed(flats, items, defs) && MergeableVariants(flats)
    requires Accepts(o, map[], [], Obj(MergeVariants(flats)), v)
    ensures Plausible(items, defs, v)
  {
    MergedVariantsBound(o, map[], [], flats, v);
    forall u | u in flats ensures ForbidsExtras(FieldsOf(u)) {
      var i :| 0 <= i < |flats| && flats[i] == u;
      assert Describes(flats[i], Target(items[i], defs));
    }
    forall name | name in v.fields ensures exists i | 0 <= i < |items| :: name in Declared(items[i], defs) {
      var i :| 0 <= i < |flats| && name in Table(flats[i].fields);
      assert Describes(flats[i], Target(items[i], defs));
    }
    forall name | (forall i | 0 <= i < |items| :: name in RequiredNames(Target(items[i], defs)))
      ensures name in v.fields
    {
      RequiredByAll(flats, items, defs, name);
    }
    if "action" in v.fields {
      MergedActions(flats, items, defs, v.fields["action"]);
      EnumAccepts(o, FoldedProperties(flats)["action"], v.fields["action"]);
    }
  }

  lemma RequiredByAll(flats: seq<Json>, items: seq<Json>, defs: Fields, name: string)
    requires AllDescribed(flats, items, defs)
    requires forall i | 0 <= i < |items| :: name in RequiredNames(Target(items[i], defs))
    ensures forall u | u in flats :: name in RequiredNames(u)
  {
    forall u | u in flats ensures name in RequiredNames(u) {
      var i :| 0 <= i < |flats| && flats[i] == u;
      assert Describes(flats[i], Target(items[i], defs));
    }
  }

  lemma SingleIsPlausible(o: Oracle, flat: Json, item: Json, defs: Fields, v: Json)
    requires IsClosedObject(Target(item, defs)) && Describes(flat, Target(item, defs)) && Accepts(o, map[], [], flat, v)
    ensures Plausible([item], defs, v)
  {
    assert OthersOk(o, map[], [], flat, v) && TypeOk(flat.fields, v) && RequiredOk(flat.fields, v);
    TableAccepts(o, map[], [], flat, v);
    StringsOfElements(ListAt(flat.fields, "required"));
    assert [item][0] == item;
    assert forall name | name in v.fields :: name in Declared([item][0], defs);
    assert forall name | name in RequiredNames(Target([item][0], defs)) :: name in v.fields;
    if "action" in v.fields {
      EnumAccepts(o, Table(flat.fields)["action"], v.fields["action"]);
      assert v.fields["action"] in ActionsOf([item][0], defs);
    }
  }

  /** What the union becomes, up to annotations. */
  lemma FlattenedIs(node: Json, defs: Fields, nulls: bool) returns (notes: Fields)
    requires IsActionUnion(node, defs, nulls) && Items(node) != []
    ensures notes.Keys <= ANNOTATIONS
    ensures var flats := Flats(node, defs);
            Normalize(node, defs, []) ==
            Obj((if |flats| == 1 then FieldsOf(flats[0]) else MergeVariants(flats)) + notes)
  {
    var flats := Flats(node, defs);
    FlatsDescribed(node, defs, nulls);
    notes := UnionWrapper(node.fields, Nullable(flats));
    forall v | v in flats ensures IsObjectLike(v) {
      var i :| 0 <= i < |flats| && flats[i] == v;
      assert Describes(flats[i], Target(Items(node)[i], defs));
    }
  }

  /** The flattened union accepts nothing implausible: with `ActionUnionKeepsValues`,
      its values lie between those of the union and the plausible ones. */
  lemma ActionUnionIsPlausible(o: Oracle, node: Json, defs: Fields, nulls: bool, v: Json)
    requires IsActionUnion(node, defs, nulls) && Items(node) != []
    requires Accepts(o, map[], [], Normalize(node, defs, []), v)
    ensures Plausible(Items(node), defs, v)
  {
    var items, flats := Items(node), Flats(node, defs);
    FlatsDescribed(node, defs, nulls);
    var notes := FlattenedIs(node, defs, nulls);
    if |flats| == 1 {
      assert Describes(flats[0], Target(items[0], defs));
      AnnotatedAccepts(o, map[], [], flats[0].fields, notes, v);
      OneAlternative(o, flats, items, defs, v);
    } else {
      AnnotatedAccepts(o, map[], [], MergeVariants(flats), notes, v);
      MergedIsPlausible(o, flats, items, defs, v);
    }
  }

  lemma OneAlternative(o: Oracle, flats: seq<Json>, items: seq<Json>, defs: Fields, v: Json)
    requires |flats| == 1 && AllDescribed(flats, items, defs) && Accepts(o, map[], [], flats[0], v)
    ensures Plausible(items, defs, v)
  {
    SingleIsPlausible(o, flats[0], items[0], defs, v);
    assert items == [items[0]];
  }

  // --------------------------------------------- requests with simple properties

  /** A schema without further schemas inside: normalizing touches its `const` only. */
  predicate IsInert(s: Json) {
    && s.Obj? && !HasRef(s.fields) && !IsUnion(s.fields) && "discriminator" !in s.fields
    && s.fields.Keys !! INTERACTING && "prefixItems" !in s.fields
    && ("properties" in s.fields ==> s.fields["properties"] == Obj(map[]))
    && (forall key | key in SUBSCHEMA_KEYS && key in s.fields :: !s.fields[key].Obj?)
  }

  lemma InertNormalized(s: Json, defs: Fields, stack: seq<string>)
    requires IsInert(s)
    ensures Normalize(s, defs, stack) == Obj(ConstToEnum(s.fields)) && Flattenable(s, defs, stack, false)
  {
    var f, g := s.fields, NormalizeChildren(s, defs, stack);
    assert g.Keys == f.Keys;
    forall key | key in f ensures g[key] == f[key] {
      assert g[key] == NormalizeChild(s, key, defs, stack);
      if key == "properties" {
        assert g[key].fields == map[];
      }
    }
    assert g == f && !HasList(f, "prefixItems");
    assert FlattenableChildren(s, defs, stack, false);
  }

  /** A property that is such a schema, or refers to one. */
  predicate IsSimple(p: Json, defs: Fields) {
    IsInert(p) || RefersToInert(p, defs)
  }

  predicate RefersToInert(p: Json, defs: Fields) {
    && p.Obj? && HasRef(p.fields) && p.fields.Keys - {"$ref"} <= ANNOTATIONS
    && RefName(p.fields["$ref"].s) in defs && IsInert(defs[RefName(p.fields["$ref"].s)])
  }

  predicate Mentions(p: Json, name: string) {
    p.Obj? && HasRef(p.fields) && RefName(p.fields["$ref"].s) == name
  }

  /** What the property becomes. */
  function FormOf(p: Json, defs: Fields): Json
    requires IsSimple(p, defs)
  {
    if IsInert(p) then Obj(ConstToEnum(p.fields))
    else Obj(ConstToEnum(defs[RefName(p.fields["$ref"].s)].fields) + (p.fields - {"$ref"}))
  }

  lemma SimpleNormalized(p: Json, defs: Fields, stack: seq<string>)
    requires IsSimple(p, defs) && forall name | name in stack :: !Mentions(p, name)
    ensures Normalize(p, defs, stack) == FormOf(p, defs) && Flattenable(p, defs, stack, false)
  {
    if IsInert(p) {
      InertNormalized(p, defs, stack);
    } else {
      var name := RefName(p.fields["$ref"].s);
      assert Mentions(p, name);
      StackGrows(defs, stack, name);
      InertNormalized(defs[name], defs, stack + [name]);
    }
  }

  /** No schema inside but the properties. */
  predicate HasObjectKeywordsOnly(f: Fields) {
    f.Keys !! INTERACTING && "items" !in f && "contains" !in f && "prefixItems" !in f
  }

  /** An alternative, in place or by reference, whose properties are all simple. */
  predicate IsSimpleRequest(item: Json, defs: Fields) {
    var s := Target(item, defs);
    && IsClosedObject(s) && HasObjectKeywordsOnly(s.fields)
    && (item != s ==> item.fields.Keys - {"$ref"} <= ANNOTATIONS)
    && (forall name | name in Table(s.fields) ::
          && IsSimple(Table(s.fields)[name], defs)
          && forall own | own in OwnName(item) :: !Mentions(Table(s.fields)[name], own))
  }

  /** The name under which an alternative given by reference is defined. */
  function OwnName(item: Json): seq<string> {
    if item.Obj? && HasRef(item.fields) then [RefName(item.fields["$ref"].s)] else []
  }

  lemma SimpleObject(s: Json, defs: Fields, stack: seq<string>)
    requires IsClosedObject(s) && HasObjectKeywordsOnly(s.fields)
    requires forall name | name in Table(s.fields) ::
               && IsSimple(Table(s.fields)[name], defs)
               && forall own | own in stack :: !Mentions(Table(s.fields)[name], own)
    ensures Flattenable(s, defs, stack, false)
    ensures var n := Normalize(s, defs, stack);
            && n.Obj? && Table(n.fields).Keys == Table(s.fields).Keys
            && forall name | name in Table(n.fields) :: Table(n.fields)[name] == FormOf(Table(s.fields)[name], defs)
  {
    forall name | name in Table(s.fields)
      ensures Normalize(Table(s.fields)[name], defs, stack) == FormOf(Table(s.fields)[name], defs)
      ensures Flattenable(Table(s.fields)[name], defs, stack, false)
    {
      SimpleNormalized(Table(s.fields)[name], defs, stack);
    }
    ObjectKept(s, defs, stack);
    NormalizedProperties(s, defs, stack);
    ObjectFlattenable(s, defs, stack);
  }

  lemma ObjectFlattenable(s: Json, defs: Fields, stack: seq<string>)
    requires IsClosedObject(s) && HasObjectKeywordsOnly(s.fields)
    requires forall name | name in Table(s.fields) :: Flattenable(Table(s.fields)[name], defs, stack, false)
    ensures Flattenable(s, defs, stack, false)
  {
    var f := s.fields;
    forall key | key in SUBSCHEMA_KEYS && key in f ensures Flattenable(f[key], defs, stack, false) {
      assert key == "additionalProperties";
    }
    assert !HasList(f, "prefixItems");
    assert FlattenableChildren(s, defs, stack, false);
  }

  lemma SimpleRequestNormalized(item: Json, defs: Fields)
    requires IsSimpleRequest(item, defs)
    ensures Flattenable(item, defs, [], false)
    ensures var table := Table(Target(item, defs).fields);
            && TableOf(item, defs).Keys == table.Keys
            && forall name | name in table :: TableOf(item, defs)[name] == FormOf(table[name], defs)
  {
    var s := Target(item, defs);
    SimpleObject(s, defs, OwnName(item));
    if HasRef(item.fields) {
      ReferenceNormalized(item, defs);
      AnnotatedTable(Normalize(s, defs, OwnName(item)).fields, item.fields - {"$ref"});
    }
  }

  lemma AnnotatedTable(f: Fields, notes: Fields)
    requires notes.Keys <= ANNOTATIONS
    ensures Table(f + notes) == Table(f)
  {
    NotAnnotations();
  }

  lemma ReferenceNormalized(item: Json, defs: Fields)
    requires item.Obj? && HasRef(item.fields) && item.fields.Keys - {"$ref"} <= ANNOTATIONS
    requires Resolvable(RefName(item.fields["$ref"].s), defs, [])
    requires Normalize(Target(item, defs), defs, OwnName(item)).Obj?
    requires Flattenable(Target(item, defs), defs, OwnName(item), false)
    ensures Flattenable(item, defs, [], false)
    ensures Normalize(item, defs, []) ==
            Obj(Normalize(Target(item, defs), defs, OwnName(item)).fields + (item.fields - {"$ref"}))
  {
    StackGrows(defs, [], RefName(item.fields["$ref"].s));
    assert [] + [RefName(item.fields["$ref"].s)] == OwnName(item);
  }

  /** Properties that two alternatives share merge. */
  ghost predicate SharedMerge(a: Json, b: Json, defs: Fields)
    requires IsSimpleRequest(a, defs) && IsSimpleRequest(b, defs)
  {
    var l, r := Table(Target(a, defs).fields), Table(Target(b, defs).fields);
    forall name | name in l && name in r :: Mergeable(FormOf(l[name], defs), FormOf(r[name], defs))
  }

  /** Requests with simple properties make an action union when shared properties
      merge, which the requests show as they stand. */
  lemma SimpleUnionIsActionUnion(node: Json, defs: Fields)
    requires node.Obj? && !HasRef(node.fields) && IsUnion(node.fields) && RawVariants(node.fields).Arr?
    requires node.fields.Keys - {"oneOf", "anyOf"} <= ANNOTATIONS
    requires forall i | 0 <= i < |Items(node)| :: IsSimpleRequest(Items(node)[i], defs)
    requires forall i, j | 0 <= i < j < |Items(node)| :: SharedMerge(Items(node)[i], Items(node)[j], defs)
    ensures IsActionUnion(node, defs, false)
  {
    var items := Items(node);
    forall i | 0 <= i < |items| ensures Flattenable(items[i], defs, [], false) {
      SimpleRequestNormalized(items[i], defs);
    }
    forall i, j | 0 <= i < j < |items| ensures MergeableTables(TableOf(items[i], defs), TableOf(items[j], defs)) {
      SimpleRequestNormalized(items[i], defs);
      SimpleRequestNormalized(items[j], defs);
      assert SharedMerge(items[i], items[j], defs);
    }
  }

  // ------------------------------------------------- the session query request

  /** One constant action, a text, with whatever annotations. */
  predicate IsActionText(p: Json, action: string) {
    && p.Obj? && p.fields.Keys - ANNOTATIONS == {"const", "type"} && "discriminator" !in p.fields
    && p.fields["const"] == Str(action) && p.fields["type"] == Str("string")
  }

  /** The published request of session queries: two alternatives by reference, with
      the actions `list` and `status`, a query object without fields, and a session for
      the second; annotations, bounds and other plain keywords are arbitrary. */
  predicate IsSessionQuery(node: Json, defs: Fields, list: Json, status: Json) {
    && node.Obj? && "oneOf" in node.fields && node.fields["oneOf"] == Arr([list, status])
    && !HasRef(node.fields) && node.fields.Keys - {"oneOf"} <= ANNOTATIONS
    && IsSimpleRequest(list, defs) && IsSimpleRequest(status, defs)
    && (var l, r := Table(Target(list, defs).fields), Table(Target(status, defs).fields);
        && l.Keys == {"action", "query"} && r.Keys == {"action", "query", "session_id"}
        && IsActionText(l["action"], "list") && IsActionText(r["action"], "status") && l["query"] == r["query"])
  }

  lemma ActionTextsMerge(p: Json, q: Json, x: string, y: string, defs: Fields)
    requires IsActionText(p, x) && IsActionText(q, y) && IsInert(p) && IsInert(q)
    ensures Mergeable(FormOf(p, defs), FormOf(q, defs))
  {
    var f, g := ConstToEnum(p.fields), ConstToEnum(q.fields);
    NotAnnotations();
    ActionTextForm(p, x);
    ActionTextForm(q, y);
    OnlyTypeIsOther(f);
    OnlyTypeIsOther(g);
  }

  lemma OnlyTypeIsOther(f: Fields)
    requires f.Keys - ANNOTATIONS == {"enum", "type"} && f["type"] == Str("string")
    ensures Others(f) == map["type" := Str("string")]
  {
    KeywordsAreOthers();
    forall key ensures key in Others(f) <==> key == "type" {
      assert key in f && key !in ANNOTATIONS <==> key in f.Keys - ANNOTATIONS;
    }
  }

  lemma ActionTextForm(p: Json, x: string)
    requires IsActionText(p, x)
    ensures var f := ConstToEnum(p.fields);
            && f.Keys - ANNOTATIONS == {"enum", "type"} && f["enum"].Arr? && f["type"] == Str("string")
            && Shaped(f) && "additionalProperties" !in f && "properties" !in f
  {
    NotAnnotations();
    assert ANNOTATIONS !! INTERACTING;
    assert "const" in p.fields.Keys - ANNOTATIONS && "type" in p.fields.Keys - ANNOTATIONS;
    forall key | key in p.fields ensures key in ANNOTATIONS || key == "const" || key == "type" {
      assert key in ANNOTATIONS || key in p.fields.Keys - ANNOTATIONS;
    }
  }

  /** It is an action union, so the theorems apply to it. */
  lemma SessionQueryIsActionUnion(node: Json, defs: Fields, list: Json, status: Json)
    requires IsSessionQuery(node, defs, list, status)
    ensures IsActionUnion(node, defs, false)
  {
    var l, r := Table(Target(list, defs).fields), Table(Target(status, defs).fields);
    assert Items(node) == [list, status];
    forall name | name in l && name in r ensures Mergeable(FormOf(l[name], defs), FormOf(r[name], defs)) {
      if name == "action" {
        ActionTextsMerge(l[name], r[name], "list", "status", defs);
      }
    }
    assert SharedMerge(list, status, defs);
    SimpleUnionIsActionUnion(node, defs);
  }
}
