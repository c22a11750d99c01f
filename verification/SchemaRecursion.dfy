/** Recursive definitions. The theorems on flattening leave a reference inside its own
    definition to the oracle; here the oracle must read references as the definitions
    say, and the published schema is judged with its own definitions. */
module SchemaRecursion {
  import opened Options
  import opened JsonValues
  import opened SchemaNormalizer
  import opened SchemaAcceptance
  import opened SchemaFlattening
  import opened SchemaInlining
  import opened SchemaReferences

  // ------------------------------------------------------ readings of references

  /** A defined reference accepts what its definition accepts. */
  ghost predicate ReadsRef(o: Oracle, defs: Fields, ref: string, u: Json) {
    RefName(ref) in defs && defs[RefName(ref)] != Null ==>
      (o(map["$ref" := Str(ref)], u) <==> Accepts(o, map[], [], defs[RefName(ref)], u))
  }

  /** The oracle is a meaning of the recursive definitions with these names: reading the
      references inside a definition by the oracle gives back the oracle, on null-free
      values if `nulls` is set. Acyclic tables have one; a cycle that passes through no
      smaller value may have several, and the theorems hold for each. */
  ghost predicate Reads(o: Oracle, defs: Fields, names: set<string>, nulls: bool) {
    forall ref: string, u: Json | RefName(ref) in names && (nulls ==> NullFree(u)) :: ReadsRef(o, defs, ref, u)
  }

  // --------------------------------------------------- unrolling changes nothing

  lemma {:induction false} UnrollRef(o: Oracle, defs: Fields, names: set<string>, nulls: bool, seen: seq<string>,
                                     s: Json, v: Json)
    requires Reads(o, defs, names, nulls) && Closed(defs, names) && s.Obj? && Within(s, names)
    requires nulls ==> NullFree(v)
    ensures RefOk(o, defs, seen, s, v) == RefOk(o, map[], [], s, v)
    decreases |defs.Keys - Elements(seen)|, s, 0
  {
    var f := s.fields;
    if HasRef(f) {
      var ref := f["$ref"].s;
      var name := RefName(ref);
      WithinFields(f, names);
      if Resolvable(name, defs, seen) {
        StackGrows(defs, seen, name);
        UnrollIsExact(o, defs, names, nulls, seen + [name], defs[name], v);
        assert ReadsRef(o, defs, ref, v);
      }
    }
  }

  lemma {:induction false} UnrollAll(o: Oracle, defs: Fields, names: set<string>, nulls: bool, seen: seq<string>,
                                     list: Json, v: Json)
    requires Reads(o, defs, names, nulls) && Closed(defs, names) && list.Arr? && Within(list, names)
    requires nulls ==> NullFree(v)
    ensures forall i | 0 <= i < |list.items| ::
              Accepts(o, defs, seen, list.items[i], v) == Accepts(o, map[], [], list.items[i], v)
    decreases |defs.Keys - Elements(seen)|, list
  {
    WithinItems(list.items, names);
    forall i | 0 <= i < |list.items|
      ensures Accepts(o, defs, seen, list.items[i], v) == Accepts(o, map[], [], list.items[i], v)
    {
      UnrollIsExact(o, defs, names, nulls, seen, list.items[i], v);
    }
  }

  lemma {:induction false} UnrollItems(o: Oracle, defs: Fields, names: set<string>, nulls: bool, seen: seq<string>,
                                       s: Json, v: Json)
    requires Reads(o, defs, names, nulls) && Closed(defs, names) && s.Obj? && Within(s, names)
    requires nulls ==> NullFree(v)
    ensures ItemsOk(o, defs, seen, s, v) == ItemsOk(o, map[], [], s, v)
    decreases |defs.Keys - Elements(seen)|, s, 0
  {
    if v.Arr? {
      var f := s.fields;
      var prefix := ListAt(f, "prefixItems");
      WithinFields(f, names);
      WithinListAt(f, "prefixItems", names);
      forall i | 0 <= i < |prefix| && i < |v.items|
        ensures Accepts(o, defs, seen, prefix[i], v.items[i]) == Accepts(o, map[], [], prefix[i], v.items[i])
      {
        UnrollIsExact(o, defs, names, nulls, seen, prefix[i], v.items[i]);
      }
      forall key, i | key in {"items", "contains"} && key in f && 0 <= i < |v.items|
        ensures Accepts(o, defs, seen, f[key], v.items[i]) == Accepts(o, map[], [], f[key], v.items[i])
      {
        UnrollIsExact(o, defs, names, nulls, seen, f[key], v.items[i]);
      }
    }
  }

  lemma {:induction false} UnrollProperties(o: Oracle, defs: Fields, names: set<string>, nulls: bool,
                                            seen: seq<string>, s: Json, v: Json)
    requires Reads(o, defs, names, nulls) && Closed(defs, names) && s.Obj? && Within(s, names)
    requires nulls ==> NullFree(v)
    ensures PropertiesOk(o, defs, seen, s, v) == PropertiesOk(o, map[], [], s, v)
    decreases |defs.Keys - Elements(seen)|, s, 0
  {
    if v.Obj? {
      var f := s.fields;
      WithinFields(f, names);
      if HasObject(f, "properties") {
        var table := f["properties"].fields;
        WithinFields(table, names);
        forall name | name in v.fields && name in table
          ensures Accepts(o, defs, seen, table[name], v.fields[name]) ==
                  Accepts(o, map[], [], table[name], v.fields[name])
        {
          UnrollIsExact(o, defs, names, nulls, seen, table[name], v.fields[name]);
        }
      }
      if "additionalProperties" in f {
        forall name | name in v.fields
          ensures Accepts(o, defs, seen, f["additionalProperties"], v.fields[name]) ==
                  Accepts(o, map[], [], f["additionalProperties"], v.fields[name])
        {
          UnrollIsExact(o, defs, names, nulls, seen, f["additionalProperties"], v.fields[name]);
        }
      }
    }
  }

  lemma SameUnionsOk(o: Oracle, defs: Fields, seen: seq<string>, list: Json, v: Json)
    requires list.Arr?
    requires forall i | 0 <= i < |list.items| ::
               Accepts(o, defs, seen, list.items[i], v) == Accepts(o, map[], [], list.items[i], v)
    ensures AnyOfOk(o, defs, seen, list, v) == AnyOfOk(o, map[], [], list, v)
    ensures OneOfOk(o, defs, seen, list, v) == OneOfOk(o, map[], [], list, v)
  {
    SameAnyOf(o, defs, seen, list, v);
    SameOneOf(o, defs, seen, list, v);
  }

  lemma SameAnyOf(o: Oracle, defs: Fields, seen: seq<string>, list: Json, v: Json)
    requires list.Arr?
    requires forall i | 0 <= i < |list.items| ::
               Accepts(o, defs, seen, list.items[i], v) == Accepts(o, map[], [], list.items[i], v)
    ensures AnyOfOk(o, defs, seen, list, v) == AnyOfOk(o, map[], [], list, v)
  {
    if AnyOfOk(o, defs, seen, list, v) {
      var i :| 0 <= i < |list.items| && Accepts(o, defs, seen, list.items[i], v);
      assert Accepts(o, map[], [], list.items[i], v);
    }
    if AnyOfOk(o, map[], [], list, v) {
      var i :| 0 <= i < |list.items| && Accepts(o, map[], [], list.items[i], v);
      assert Accepts(o, defs, seen, list.items[i], v);
    }
  }

  lemma SameOneOf(o: Oracle, defs: Fields, seen: seq<string>, list: Json, v: Json)
    requires list.Arr?
    requires forall i | 0 <= i < |list.items| ::
               Accepts(o, defs, seen, list.items[i], v) == Accepts(o, map[], [], list.items[i], v)
    ensures OneOfOk(o, defs, seen, list, v) == OneOfOk(o, map[], [], list, v)
  {
  }

  lemma {:induction false} UnrollUnion(o: Oracle, defs: Fields, names: set<string>, nulls: bool, seen: seq<string>,
                                       s: Json, key: string, v: Json)
    requires Reads(o, defs, names, nulls) && Closed(defs, names) && s.Obj? && Within(s, names)
    requires nulls ==> NullFree(v)
    ensures SameUnions(o, defs, seen, s.fields, key, v)
    decreases |defs.Keys - Elements(seen)|, s, 0
  {
    if HasList(s.fields, key) {
      WithinFields(s.fields, names);
      UnrollAll(o, defs, names, nulls, seen, s.fields[key], v);
      SameUnionsOk(o, defs, seen, s.fields[key], v);
    }
  }

  ghost predicate SameUnions(o: Oracle, defs: Fields, seen: seq<string>, f: Fields, key: string, v: Json) {
    HasList(f, key) ==>
      && AnyOfOk(o, defs, seen, f[key], v) == AnyOfOk(o, map[], [], f[key], v)
      && OneOfOk(o, defs, seen, f[key], v) == OneOfOk(o, map[], [], f[key], v)
  }

  lemma SameKeywords(o: Oracle, defs: Fields, seen: seq<string>, s: Json, v: Json)
    requires s.Obj?
    requires RefOk(o, defs, seen, s, v) == RefOk(o, map[], [], s, v)
    requires ItemsOk(o, defs, seen, s, v) == ItemsOk(o, map[], [], s, v)
    requires PropertiesOk(o, defs, seen, s, v) == PropertiesOk(o, map[], [], s, v)
    requires SameUnions(o, defs, seen, s.fields, "oneOf", v) && SameUnions(o, defs, seen, s.fields, "anyOf", v)
    ensures Accepts(o, defs, seen, s, v) == Accepts(o, map[], [], s, v)
  {
    assert OthersOk(o, defs, seen, s, v) == OthersOk(o, map[], [], s, v);
  }

  /** Under such a reading it makes no difference how far references are followed: the
      definitions can be consulted, or the reading alone. */
  lemma {:induction false} UnrollIsExact(o: Oracle, defs: Fields, names: set<string>, nulls: bool, seen: seq<string>,
                                         s: Json, v: Json)
    requires Reads(o, defs, names, nulls) && Closed(defs, names) && Within(s, names)
    requires nulls ==> NullFree(v)
    ensures Accepts(o, defs, seen, s, v) == Accepts(o, map[], [], s, v)
    decreases |defs.Keys - Elements(seen)|, s, 1
  {
    if s.Obj? {
      UnrollRef(o, defs, names, nulls, seen, s, v);
      UnrollUnion(o, defs, names, nulls, seen, s, "oneOf", v);
      UnrollUnion(o, defs, names, nulls, seen, s, "anyOf", v);
      UnrollItems(o, defs, names, nulls, seen, s, v);
      UnrollProperties(o, defs, names, nulls, seen, s, v);
      SameKeywords(o, defs, seen, s, v);
    }
  }

  // ------------------------------------------ the output has no unions to judge

  const UNIONS: set<string> := {"oneOf", "anyOf"}

  lemma UnionsAreFlattened()
    ensures UNIONS <= FLATTENED && UNIONS !! ANNOTATIONS && "$ref" !in UNIONS && "const" !in UNIONS
  {
  }

  /** A flattenable schema is flattened throughout, also where references stay. */
  lemma {:induction false} NormalizedHasNoUnion(node: Json, defs: Fields, stack: seq<string>, nulls: bool)
    requires Flattenable(node, defs, stack, nulls)
    ensures Free(Normalize(node, defs, stack), UNIONS)
    decreases |defs.Keys - Elements(stack)|, node, 1
  {
    UnionsAreFlattened();
    if node.Obj? {
      var f := node.fields;
      if HasRef(f) {
        RefHasNoUnion(node, defs, stack, nulls);
      } else if IsUnion(f) {
        var raw := RawVariants(f);
        NormalizeAllAt(raw, defs, stack);
        forall i | 0 <= i < |raw.items| ensures Free(NormalizeAll(raw, defs, stack)[i], UNIONS) {
          NormalizedHasNoUnion(raw.items[i], defs, stack, nulls);
        }
        FreeUnion(f, NormalizeAll(raw, defs, stack), UNIONS);
      } else {
        ChildrenHaveNoUnion(node, defs, stack, nulls);
      }
    }
  }

  lemma {:induction false} RefHasNoUnion(node: Json, defs: Fields, stack: seq<string>, nulls: bool)
    requires Flattenable(node, defs, stack, nulls) && node.Obj? && HasRef(node.fields)
    ensures Free(Normalize(node, defs, stack), UNIONS)
    decreases |defs.Keys - Elements(stack)|, node, 0
  {
    var f := node.fields;
    var name := RefName(f["$ref"].s);
    UnionsAreFlattened();
    if Resolvable(name, defs, stack) {
      StackGrows(defs, stack, name);
      NormalizedHasNoUnion(defs[name], defs, stack + [name], nulls);
      var resolved := Normalize(defs[name], defs, stack + [name]);
      if resolved.Obj? {
        FreeAnnotated(resolved.fields, f - {"$ref"}, UNIONS);
      }
    } else {
      RefPositions(f);
    }
  }

  lemma RefPositions(f: Fields)
    requires HasRef(f) && f.Keys - {"$ref"} <= ANNOTATIONS
    ensures Free(Obj(f), UNIONS)
  {
    UnionsAreFlattened();
    PositionsAreNotAnnotations();
    NotSchemaPositions();
    assert f.Keys !! SCHEMA_POSITIONS;
    SamePositionsFree(map[], f, UNIONS);
  }

  lemma {:induction false} ChildrenHaveNoUnion(node: Json, defs: Fields, stack: seq<string>, nulls: bool)
    requires node.Obj? && FlattenableChildren(node, defs, stack, nulls) && !IsUnion(node.fields)
    ensures Free(Obj(ConstToEnum(NormalizeChildren(node, defs, stack))), UNIONS)
    decreases |defs.Keys - Elements(stack)|, node, 0
  {
    var f, g := node.fields, Obj(NormalizeChildren(node, defs, stack));
    UnionsAreFlattened();
    assert FreeSubschemas(g, UNIONS) by {
      forall key | key in SUBSCHEMA_KEYS && key in g.fields ensures Free(g.fields[key], UNIONS) {
        NormalizedChild(node, key, defs, stack);
        NormalizedHasNoUnion(f[key], defs, stack, nulls);
      }
    }
    assert FreeTable(g, UNIONS) by {
      if HasObject(f, "properties") {
        forall name | name in f["properties"].fields
          ensures Free(Normalize(f["properties"].fields[name], defs, stack), UNIONS)
        {
          NormalizedHasNoUnion(f["properties"].fields[name], defs, stack, nulls);
        }
      }
      if "properties" in f {
        NormalizedProperties(node, defs, stack);
      }
    }
    assert FreePrefix(g, UNIONS) by {
      var prefix := ListAt(f, "prefixItems");
      NormalizedPrefix(node, defs, stack);
      forall i | 0 <= i < |prefix| ensures Free(Normalize(prefix[i], defs, stack), UNIONS) {
        NormalizedHasNoUnion(prefix[i], defs, stack, nulls);
      }
    }
    assert g.fields.Keys <= f.Keys;
    FreeConstToEnum(g.fields, UNIONS);
  }

  // ---------------------------------------- following the published definitions

  /** What a reference accepts its published definition accepts. */
  ghost predicate SupportsRef(o: Oracle, table: Fields, ref: string, u: Json) {
    RefName(ref) in table && table[RefName(ref)] != Null && o(map["$ref" := Str(ref)], u) ==>
      Accepts(o, map[], [], table[RefName(ref)], u)
  }

  ghost predicate Supports(o: Oracle, table: Fields, names: set<string>, nulls: bool) {
    forall ref: string, u: Json | RefName(ref) in names && (nulls ==> NullFree(u)) :: SupportsRef(o, table, ref, u)
  }

  /** The definitions with these names have no unions. */
  predicate FreeDefinitions(table: Fields, names: set<string>) {
    forall name | name in names && name in table :: Free(table[name], UNIONS)
  }

  ghost predicate Liftable(o: Oracle, table: Fields, names: set<string>, nulls: bool) {
    Supports(o, table, names, nulls) && Closed(table, names) && FreeDefinitions(table, names)
  }

  lemma {:induction false} LiftRef(o: Oracle, table: Fields, names: set<string>, nulls: bool, seen: seq<string>,
                                   s: Json, v: Json)
    requires Liftable(o, table, names, nulls) && s.Obj? && Within(s, names) && (nulls ==> NullFree(v))
    requires RefOk(o, map[], [], s, v)
    ensures RefOk(o, table, seen, s, v)
    decreases |table.Keys - Elements(seen)|, s, 0
  {
    var f := s.fields;
    if HasRef(f) {
      var ref := f["$ref"].s;
      var name := RefName(ref);
      WithinFields(f, names);
      if Resolvable(name, table, seen) {
        StackGrows(table, seen, name);
        assert SupportsRef(o, table, ref, v);
        FollowDefinitions(o, table, names, nulls, seen + [name], table[name], v);
      }
    }
  }

  lemma {:induction false} LiftItems(o: Oracle, table: Fields, names: set<string>, nulls: bool, seen: seq<string>,
                                     s: Json, v: Json)
    requires Liftable(o, table, names, nulls) && s.Obj? && Within(s, names) && (nulls ==> NullFree(v)) &&
             Free(s, UNIONS)
    requires ItemsOk(o, map[], [], s, v)
    ensures ItemsOk(o, table, seen, s, v)
    decreases |table.Keys - Elements(seen)|, s, 0
  {
    if v.Arr? {
      var f := s.fields;
      var prefix := ListAt(f, "prefixItems");
      WithinFields(f, names);
      WithinListAt(f, "prefixItems", names);
      assert FreeSubschemas(s, UNIONS) && FreePrefix(s, UNIONS);
      forall i | 0 <= i < |prefix| && i < |v.items| ensures Accepts(o, table, seen, prefix[i], v.items[i]) {
        FollowDefinitions(o, table, names, nulls, seen, prefix[i], v.items[i]);
      }
      forall key, i | key in {"items", "contains"} && key in f && 0 <= i < |v.items| &&
                      Accepts(o, map[], [], f[key], v.items[i])
        ensures Accepts(o, table, seen, f[key], v.items[i])
      {
        FollowDefinitions(o, table, names, nulls, seen, f[key], v.items[i]);
      }
    }
  }

  lemma {:induction false} LiftProperties(o: Oracle, table: Fields, names: set<string>, nulls: bool, seen: seq<string>,
                                          s: Json, v: Json)
    requires Liftable(o, table, names, nulls) && s.Obj? && Within(s, names) && (nulls ==> NullFree(v)) &&
             Free(s, UNIONS)
    requires PropertiesOk(o, map[], [], s, v)
    ensures PropertiesOk(o, table, seen, s, v)
    decreases |table.Keys - Elements(seen)|, s, 0
  {
    if v.Obj? {
      var f := s.fields;
      WithinFields(f, names);
      assert FreeSubschemas(s, UNIONS) && FreeTable(s, UNIONS);
      if HasObject(f, "properties") {
        WithinFields(f["properties"].fields, names);
        forall name | name in v.fields && name in f["properties"].fields
          ensures Accepts(o, table, seen, f["properties"].fields[name], v.fields[name])
        {
          FollowDefinitions(o, table, names, nulls, seen, f["properties"].fields[name], v.fields[name]);
        }
      }
      if "additionalProperties" in f {
        forall name | name in v.fields && Accepts(o, map[], [], f["additionalProperties"], v.fields[name])
          ensures Accepts(o, table, seen, f["additionalProperties"], v.fields[name])
        {
          FollowDefinitions(o, table, names, nulls, seen, f["additionalProperties"], v.fields[name]);
        }
      }
    }
  }

  /** What a union-free schema accepts with its references read by the oracle it accepts
      with its references followed into definitions that support the oracle. */
  lemma {:induction false} FollowDefinitions(o: Oracle, table: Fields, names: set<string>, nulls: bool,
                                             seen: seq<string>, s: Json, v: Json)
    requires Liftable(o, table, names, nulls) && Within(s, names) && (nulls ==> NullFree(v)) && Free(s, UNIONS)
    requires Accepts(o, map[], [], s, v)
    ensures Accepts(o, table, seen, s, v)
    decreases |table.Keys - Elements(seen)|, s, 1
  {
    if s.Obj? {
      LiftRef(o, table, names, nulls, seen, s, v);
      LiftItems(o, table, names, nulls, seen, s, v);
      LiftProperties(o, table, names, nulls, seen, s, v);
      assert "oneOf" !in s.fields && "anyOf" !in s.fields;
      assert OthersOk(o, table, seen, s, v);
    }
  }

  // ------------------------------------------------------- the published schema

  function Root(schema: Fields): Json {
    Obj(schema - {"$defs"})
  }

  /** The definitions the code keeps, and normalizes with one another. */
  ghost function KeptDefinitions(schema: Fields): Fields {
    Pruned(DefinitionsOf(schema), RefNames(Normalize(Root(schema), DefinitionsOf(schema), [])))
  }

  /** Every name the schema refers to or defines. */
  function AllNames(schema: Fields): set<string> {
    RefNames(Obj(schema)) + DefinitionsOf(schema).Keys
  }

  /** The oracle is a meaning of the schema's definitions. */
  ghost predicate Means(o: Oracle, schema: Fields) {
    Reads(o, DefinitionsOf(schema), AllNames(schema), false)
  }

  lemma InputWithin(schema: Fields)
    ensures Within(Root(schema), AllNames(schema)) && Closed(DefinitionsOf(schema), AllNames(schema))
    ensures forall name | name in DefinitionsOf(schema) :: Within(DefinitionsOf(schema)[name], AllNames(schema))
  {
    var defs, names := DefinitionsOf(schema), AllNames(schema);
    WithinFields(schema, names);
    WithinFields(schema - {"$defs"}, names);
    WithinFields(defs, names);
    RemoveWithin(schema, {"$defs"}, names);
  }

  lemma KeptReads(o: Oracle, schema: Fields, name: string, u: Json)
    requires Means(o, schema) && name in KeptDefinitions(schema)
    ensures var kept := KeptDefinitions(schema);
            Accepts(o, kept, [name], kept[name], u) == Accepts(o, map[], [], DefinitionsOf(schema)[name], u)
  {
    var defs, kept, names := DefinitionsOf(schema), KeptDefinitions(schema), AllNames(schema);
    InputWithin(schema);
    assert Closed(kept, names);
    forall ref: string, w: Json | RefName(ref) in names ensures ReadsRef(o, kept, ref, w) {
      assert ReadsRef(o, defs, ref, w);
    }
    UnrollIsExact(o, kept, names, false, [name], kept[name], u);
  }

  /** What the published schema is: the normal form of the root, and the table of its
      definitions whenever a reference is left. */
  lemma PublishedShape(schema: Fields)
    requires NormalizeInput(schema).Some? && NormalizeInput(schema).value.Obj?
    ensures var out := NormalizeInput(schema).value;
            && Closed(DefinitionsOf(out.fields), RefNames(out))
            && (RefNames(out) != {} ==> DefinitionsOf(out.fields) == NormalizeTable(KeptDefinitions(schema)))
  {
    var out := NormalizeInput(schema).value;
    var root := Normalize(Root(schema), DefinitionsOf(schema), []);
    WithinFields(out.fields, RefNames(out));
    if HasObject(out.fields, "$defs") {
      WithinFields(out.fields["$defs"].fields, RefNames(out));
    }
  }

  /** The conditions of the flattening theorem, asked of the root and of each definition
      that is kept. */
  ghost predicate FlattenableInput(schema: Fields, nulls: bool) {
    && Flattenable(Root(schema), DefinitionsOf(schema), [], nulls)
    && forall name | name in KeptDefinitions(schema) ::
         Flattenable(KeptDefinitions(schema)[name], KeptDefinitions(schema), [name], nulls)
  }

  /** A meaning of the input definitions is supported by the published ones. */
  lemma PublishedSupport(o: Oracle, schema: Fields, nulls: bool, ref: string, u: Json)
    requires Lawful(o) && Means(o, schema) && FlattenableInput(schema, nulls) && (nulls ==> NullFree(u))
    ensures SupportsRef(o, NormalizeTable(KeptDefinitions(schema)), ref, u)
  {
    var defs, kept := DefinitionsOf(schema), KeptDefinitions(schema);
    var name := RefName(ref);
    if name in kept && NormalizeTable(kept)[name] != Null && o(map["$ref" := Str(ref)], u) {
      assert ReadsRef(o, defs, ref, u);
      KeptReads(o, schema, name, u);
      NormalizeAccepts(o, kept[name], kept, [name], nulls, u);
    }
  }

  lemma PublishedIsLiftable(o: Oracle, schema: Fields, nulls: bool)
    requires Lawful(o) && Means(o, schema) && FlattenableInput(schema, nulls)
    requires NormalizeInput(schema).Some? && NormalizeInput(schema).value.Obj?
    ensures var out := NormalizeInput(schema).value;
            Liftable(o, DefinitionsOf(out.fields), RefNames(out), nulls)
  {
    var out := NormalizeInput(schema).value;
    var table, kept := DefinitionsOf(out.fields), KeptDefinitions(schema);
    PublishedShape(schema);
    if RefNames(out) != {} {
      forall ref: string, u: Json | RefName(ref) in RefNames(out) && (nulls ==> NullFree(u))
        ensures SupportsRef(o, table, ref, u)
      {
        PublishedSupport(o, schema, nulls, ref, u);
      }
      forall name | name in table ensures Free(table[name], UNIONS) {
        NormalizedHasNoUnion(kept[name], kept, [name], nulls);
      }
    }
  }

  /** Neither the published schema nor one of its definitions has a union. */
  lemma PublishedHasNoUnion(schema: Fields, nulls: bool)
    requires FlattenableInput(schema, nulls) && NormalizeInput(schema).Some?
    ensures Free(NormalizeInput(schema).value, UNIONS)
    ensures var out := NormalizeInput(schema).value;
            out.Obj? && RefNames(out) != {} ==>
              forall name | name in DefinitionsOf(out.fields) :: Free(DefinitionsOf(out.fields)[name], UNIONS)
  {
    var out, kept := NormalizeInput(schema).value, KeptDefinitions(schema);
    if out.Obj? && RefNames(out) != {} {
      PublishedShape(schema);
      forall name | name in kept ensures Free(NormalizeTable(kept)[name], UNIONS) {
        NormalizedHasNoUnion(kept[name], kept, [name], nulls);
      }
    }
    NormalizedHasNoUnion(Root(schema), DefinitionsOf(schema), [], nulls);
    var root := Normalize(Root(schema), DefinitionsOf(schema), []);
    var notes := InputRoot(schema);
    UnionsAreFlattened();
    if root.Obj? {
      FreeAnnotated(root.fields, notes, UNIONS);
    }
  }

  // ------------------------------------- every meaning of the published schema

  predicate IsDefined(table: Fields, ref: string) {
    RefName(ref) in table && table[RefName(ref)] != Null
  }

  /** Two oracles that differ at most on references to these definitions. */
  ghost predicate Alike(o: Oracle, p: Oracle, table: Fields) {
    forall f: Fields, u: Json :: (HasRef(f) && IsDefined(table, f["$ref"].s)) || o(f, u) == p(f, u)
  }

  /** The schema is a reference to one of the definitions. */
  predicate IsReference(table: Fields, s: Json) {
    s.Obj? && HasRef(s.fields) && IsDefined(table, s.fields["$ref"].s)
  }

  /** No definition with one of these names is a bare reference to another, as on a
      cycle that passes through no value. */
  predicate Guarded(table: Fields, names: set<string>) {
    forall name | name in names && name in table :: !IsReference(table, table[name])
  }

  /** `p` reads references as the definitions say, and the definitions support `o`. */
  ghost predicate Carries(o: Oracle, p: Oracle, table: Fields, names: set<string>, nulls: bool) {
    && Liftable(o, table, names, nulls) && Reads(p, table, names, nulls) && Alike(o, p, table) && Guarded(table, names)
  }

  lemma {:induction false} CarryRef(o: Oracle, p: Oracle, table: Fields, names: set<string>, nulls: bool, s: Json,
                                    v: Json)
    requires Carries(o, p, table, names, nulls) && s.Obj? && Within(s, names) && (nulls ==> NullFree(v))
    requires RefOk(o, map[], [], s, v)
    ensures RefOk(p, map[], [], s, v)
    decreases v, IsReference(table, s), 0
  {
    if HasRef(s.fields) {
      var ref := s.fields["$ref"].s;
      WithinFields(s.fields, names);
      var bare := map["$ref" := Str(ref)];
      assert o(bare, v);
      if IsDefined(table, ref) {
        assert SupportsRef(o, table, ref, v);
        Carry(o, p, table, names, nulls, table[RefName(ref)], v);
        assert ReadsRef(p, table, ref, v);
      } else {
        assert p(bare, v) == o(bare, v);
      }
    }
  }

  lemma {:induction false} CarryItems(o: Oracle, p: Oracle, table: Fields, names: set<string>, nulls: bool, s: Json,
                                      v: Json)
    requires Carries(o, p, table, names, nulls) && s.Obj? && Within(s, names) && (nulls ==> NullFree(v))
    requires Free(s, UNIONS) && ItemsOk(o, map[], [], s, v)
    ensures ItemsOk(p, map[], [], s, v)
    decreases v, IsReference(table, s), 0
  {
    if v.Arr? {
      var f := s.fields;
      var prefix := ListAt(f, "prefixItems");
      WithinFields(f, names);
      WithinListAt(f, "prefixItems", names);
      assert FreeSubschemas(s, UNIONS) && FreePrefix(s, UNIONS);
      forall i | 0 <= i < |prefix| && i < |v.items| ensures Accepts(p, map[], [], prefix[i], v.items[i]) {
        Carry(o, p, table, names, nulls, prefix[i], v.items[i]);
      }
      forall key, i | key in {"items", "contains"} && key in f && 0 <= i < |v.items| &&
                      Accepts(o, map[], [], f[key], v.items[i])
        ensures Accepts(p, map[], [], f[key], v.items[i])
      {
        Carry(o, p, table, names, nulls, f[key], v.items[i]);
      }
    }
  }

  lemma {:induction false} CarryProperties(o: Oracle, p: Oracle, table: Fields, names: set<string>, nulls: bool,
                                           s: Json, v: Json)
    requires Carries(o, p, table, names, nulls) && s.Obj? && Within(s, names) && (nulls ==> NullFree(v))
    requires Free(s, UNIONS) && PropertiesOk(o, map[], [], s, v)
    ensures PropertiesOk(p, map[], [], s, v)
    decreases v, IsReference(table, s), 0
  {
    if v.Obj? {
      var f := s.fields;
      WithinFields(f, names);
      assert FreeSubschemas(s, UNIONS) && FreeTable(s, UNIONS);
      if HasObject(f, "properties") {
        WithinFields(f["properties"].fields, names);
        forall name | name in v.fields && name in f["properties"].fields
          ensures Accepts(p, map[], [], f["properties"].fields[name], v.fields[name])
        {
          Carry(o, p, table, names, nulls, f["properties"].fields[name], v.fields[name]);
        }
      }
      if "additionalProperties" in f {
        forall name | name in v.fields && Accepts(o, map[], [], f["additionalProperties"], v.fields[name])
          ensures Accepts(p, map[], [], f["additionalProperties"], v.fields[name])
        {
          Carry(o, p, table, names, nulls, f["additionalProperties"], v.fields[name]);
        }
      }
    }
  }

  /** What a union-free schema accepts under an oracle that the definitions support it
      accepts under every meaning of the definitions. */
  lemma {:induction false} Carry(o: Oracle, p: Oracle, table: Fields, names: set<string>, nulls: bool, s: Json, v: Json)
    requires Carries(o, p, table, names, nulls) && Within(s, names) && (nulls ==> NullFree(v))
    requires Free(s, UNIONS) && Accepts(o, map[], [], s, v)
    ensures Accepts(p, map[], [], s, v)
    decreases v, IsReference(table, s), 1
  {
    if s.Obj? {
      CarryRef(o, p, table, names, nulls, s, v);
      CarryItems(o, p, table, names, nulls, s, v);
      CarryProperties(o, p, table, names, nulls, s, v);
      assert "oneOf" !in s.fields && "anyOf" !in s.fields;
      assert !HasRef(Rest(s.fields)) && o(Rest(s.fields), v) == p(Rest(s.fields), v);
      assert OthersOk(p, map[], [], s, v);
    }
  }

  /** The published schema, judged with its own definitions, accepts every value that
      the input schema accepts with its own, recursive definitions included: for every
      meaning `o` of the input definitions and every meaning `p` of the published
      ones, however deep the value goes. */
  lemma RecursiveInputKeepsValues(o: Oracle, p: Oracle, schema: Fields, nulls: bool, v: Json)
    requires Lawful(o) && Means(o, schema) && FlattenableInput(schema, nulls) && (nulls ==> NullFree(v))
    requires NormalizeInput(schema).Some? && NormalizeInput(schema).value.Obj?
    requires var out := NormalizeInput(schema).value;
             var table := DefinitionsOf(out.fields);
             Reads(p, table, RefNames(out), nulls) && Alike(o, p, table) && Guarded(table, RefNames(out))
    requires Accepts(o, DefinitionsOf(schema), [], Root(schema), v)
    ensures var out := NormalizeInput(schema).value;
            Accepts(p, DefinitionsOf(out.fields), [], out, v)
  {
    var out := NormalizeInput(schema).value;
    var table := DefinitionsOf(out.fields);
    InputKeepsValues(o, schema, nulls, v);
    PublishedIsLiftable(o, schema, nulls);
    PublishedHasNoUnion(schema, nulls);
    PublishedShape(schema);
    Carry(o, p, table, RefNames(out), nulls, out, v);
    UnrollIsExact(p, table, RefNames(out), nulls, [], out, v);
  }

  /** The same with the references met again in the output read as the input
      definitions say; no condition on bare references is needed. */
  lemma RecursiveInputKeepsReading(o: Oracle, schema: Fields, nulls: bool, v: Json)
    requires Lawful(o) && Means(o, schema) && FlattenableInput(schema, nulls) && (nulls ==> NullFree(v))
    requires NormalizeInput(schema).Some? && NormalizeInput(schema).value.Obj?
    requires Accepts(o, DefinitionsOf(schema), [], Root(schema), v)
    ensures var out := NormalizeInput(schema).value;
            Accepts(o, DefinitionsOf(out.fields), [], out, v)
  {
    var out := NormalizeInput(schema).value;
    InputKeepsValues(o, schema, nulls, v);
    PublishedIsLiftable(o, schema, nulls);
    PublishedHasNoUnion(schema, nulls);
    FollowDefinitions(o, DefinitionsOf(out.fields), RefNames(out), nulls, [], out, v);
  }

  // ------------------------------------------------------ optional unions only

  ghost predicate OptionalInput(schema: Fields, nulls: bool) {
    && OptionalOnly(Root(schema), DefinitionsOf(schema), [], nulls)
    && forall name | name in KeptDefinitions(schema) ::
         OptionalOnly(KeptDefinitions(schema)[name], KeptDefinitions(schema), [name], nulls)
  }

  /** Without unions other than optional ones a meaning of the input definitions is a
      meaning of the published ones. */
  lemma MeaningIsKept(o: Oracle, schema: Fields, nulls: bool)
    requires Lawful(o) && Means(o, schema) && OptionalInput(schema, nulls)
    requires NormalizeInput(schema).Some? && NormalizeInput(schema).value.Obj?
    ensures var out := NormalizeInput(schema).value;
            Reads(o, DefinitionsOf(out.fields), RefNames(out), nulls)
  {
    var out := NormalizeInput(schema).value;
    var defs, kept := DefinitionsOf(schema), KeptDefinitions(schema);
    PublishedShape(schema);
    forall ref: string, u: Json | RefName(ref) in RefNames(out) && (nulls ==> NullFree(u))
      ensures ReadsRef(o, DefinitionsOf(out.fields), ref, u)
    {
      var name := RefName(ref);
      if name in kept && NormalizeTable(kept)[name] != Null {
        assert ReadsRef(o, defs, ref, u);
        KeptReads(o, schema, name, u);
        InliningIsExact(o, kept[name], kept, [name], nulls, u);
      }
    }
  }

  /** And the published schema accepts exactly the values the input schema accepts, both
      judged with their own definitions, whatever their recursion. */
  lemma RecursiveInliningIsExact(o: Oracle, schema: Fields, nulls: bool, v: Json)
    requires Lawful(o) && Means(o, schema) && OptionalInput(schema, nulls) && (nulls ==> NullFree(v))
    requires NormalizeInput(schema).Some? && NormalizeInput(schema).value.Obj?
    ensures var out := NormalizeInput(schema).value;
            Accepts(o, DefinitionsOf(out.fields), [], out, v) == Accepts(o, DefinitionsOf(schema), [], Root(schema), v)
  {
    var out := NormalizeInput(schema).value;
    var root := Normalize(Root(schema), DefinitionsOf(schema), []);
    MeaningIsKept(o, schema, nulls);
    PublishedShape(schema);
    UnrollIsExact(o, DefinitionsOf(out.fields), RefNames(out), nulls, [], out, v);
    InliningIsExact(o, Root(schema), DefinitionsOf(schema), [], nulls, v);
    var notes := InputRoot(schema);
    if root.Obj? {
      AnnotatedAccepts(o, map[], [], root.fields, notes, v);
    }
  }

  // ------------------------------------------------------- a recursive example

  /** A chain of objects, each with at most a `next` one. */
  predicate IsLinkedChain(v: Json) {
    v.Obj? && forall name | name in v.fields :: name == "next" && IsLinkedChain(v.fields[name])
  }

  function ChainRef(name: string): Json {
    Obj(map["$ref" := Str(name)])
  }

  function ChainDefinition(name: string): Json {
    Obj(map["type" := Str("object"), "properties" := Obj(map["next" := ChainRef(name)]),
            "additionalProperties" := Bool(false)])
  }

  /** A schema that refers to a definition that refers to itself. */
  function ChainSchema(name: string): Fields {
    map["$ref" := Str(name), "$defs" := Obj(map[name := ChainDefinition(name)])]
  }

  /** References to the definition mean chains; no other keyword constrains. */
  function ChainReading(name: string): Oracle {
    (f: Fields, v: Json) => HasRef(f) && RefName(f["$ref"].s) == name ==> IsLinkedChain(v)
  }

  lemma ChainKeys(name: string)
    ensures var f := ChainDefinition(name).fields;
            && f.Keys == {"type", "properties", "additionalProperties"} && f.Keys !! INTERACTING && Rest(f) == map[]
            && !HasRef(f) && !IsUnion(f) && "const" !in f && "enum" !in f && "required" !in f
            && "prefixItems" !in f && SUBSCHEMA_KEYS * f.Keys == {"additionalProperties"}
  {
  }

  lemma ReadingIsLawful(name: string)
    ensures Lawful(ChainReading(name))
  {
  }

  lemma ReadingOfRef(name: string, ref: string, u: Json)
    requires RefName(ref) == name
    ensures ChainReading(name)(map["$ref" := Str(ref)], u) <==> IsLinkedChain(u)
  {
    assert HasRef(map["$ref" := Str(ref)]);
  }

  lemma RefByReading(name: string, u: Json)
    requires RefName(name) == name
    ensures Accepts(ChainReading(name), map[], [], ChainRef(name), u) <==> IsLinkedChain(u)
  {
    var f := ChainRef(name).fields;
    ReadingIsLawful(name);
    assert HasRef(f) && f.Keys - {"$ref"} == {};
    BareRef(ChainReading(name), f, map[], [], u);
    ReadingOfRef(name, name, u);
  }

  lemma ChainOthers(o: Oracle, name: string, u: Json)
    requires Lawful(o)
    ensures OthersOk(o, map[], [], ChainDefinition(name), u) <==> u.Obj?
  {
    var f := ChainDefinition(name).fields;
    ChainKeys(name);
    assert f["type"] == Str("object");
    assert TypeOk(f, u) <==> u.Obj?;
  }

  lemma ChainProperties(name: string, u: Json)
    requires RefName(name) == name && u.Obj?
    ensures PropertiesOk(ChainReading(name), map[], [], ChainDefinition(name), u) <==> IsLinkedChain(u)
  {
    var f := ChainDefinition(name).fields;
    assert HasObject(f, "properties") && f["properties"].fields == map["next" := ChainRef(name)];
    assert f["additionalProperties"] == Bool(false);
    forall x | x in u.fields
      ensures Accepts(ChainReading(name), map[], [], ChainRef(name), u.fields[x]) <==> IsLinkedChain(u.fields[x])
    {
      RefByReading(name, u.fields[x]);
    }
  }

  lemma ChainDefinitionAccepts(name: string, u: Json)
    requires RefName(name) == name
    ensures Accepts(ChainReading(name), map[], [], ChainDefinition(name), u) <==> IsLinkedChain(u)
  {
    ReadingIsLawful(name);
    ChainOthers(ChainReading(name), name, u);
    ChainKeys(name);
    if u.Obj? {
      ChainProperties(name, u);
    }
  }

  /** That reading is a meaning of the recursive definition, so the theorems say
      something about it. */
  lemma ChainsAreMeant(name: string)
    requires RefName(name) == name
    ensures Lawful(ChainReading(name)) && Means(ChainReading(name), ChainSchema(name))
  {
    var o, defs := ChainReading(name), DefinitionsOf(ChainSchema(name));
    assert defs == map[name := ChainDefinition(name)];
    forall ref: string, u: Json | RefName(ref) in AllNames(ChainSchema(name)) ensures ReadsRef(o, defs, ref, u) {
      if RefName(ref) in defs {
        ChainDefinitionAccepts(name, u);
        ReadingOfRef(name, ref, u);
      }
    }
  }

  lemma ChainFlattenable(name: string, defs: Fields)
    requires RefName(name) == name
    ensures Flattenable(ChainDefinition(name), defs, [name], false)
  {
    var f := ChainDefinition(name).fields;
    ChainKeys(name);
    var inner := ChainRef(name);
    assert HasRef(inner.fields) && inner.fields.Keys - {"$ref"} == {};
    assert Flattenable(inner, defs, [name], false);
    forall key | key in SUBSCHEMA_KEYS && key in f ensures Flattenable(f[key], defs, [name], false) {
      assert key == "additionalProperties";
    }
    assert FlattenableChildren(Obj(f), defs, [name], false);
  }

  lemma ChainInput(name: string)
    requires RefName(name) == name
    ensures FlattenableInput(ChainSchema(name), false)
  {
    var schema := ChainSchema(name);
    var defs := DefinitionsOf(schema);
    assert defs == map[name := ChainDefinition(name)];
    assert Root(schema) == ChainRef(name);
    ChainFlattenable(name, defs);
    ChainFlattenable(name, KeptDefinitions(schema));
    assert [] + [name] == [name];
    assert HasRef(Root(schema).fields) && Root(schema).fields.Keys - {"$ref"} == {};
  }

  /** What is published when every definition is kept. */
  lemma PublishedRoot(schema: Fields, defs: Fields, root: Json)
    requires defs == DefinitionsOf(schema) && Normalize(Obj(schema - {"$defs"}), defs, []) == root && root.Obj?
    requires RefNames(root) != {} && Pruned(defs, RefNames(root)) == defs
    ensures NormalizeInput(schema) == Some(Obj(root.fields["$defs" := Obj(NormalizeTable(defs))]))
  {
  }

  /** A schema that refers to one definition. */
  function OneDefinition(name: string, node: Json): Fields {
    map["$ref" := Str(name), "$defs" := Obj(map[name := node])]
  }

  lemma OneDefinitionParts(name: string, node: Json)
    ensures DefinitionsOf(OneDefinition(name, node)) == map[name := node]
    ensures Obj(OneDefinition(name, node) - {"$defs"}) == ChainRef(name)
  {
  }

  lemma OneKept(name: string, node: Json, names: set<string>)
    requires name in names
    ensures Pruned(map[name := node], names) == map[name := node]
  {
    assert IsReferenceChain(map[name := node], names, [name], name);
  }

  lemma OneNormalized(name: string, node: Json)
    ensures NormalizeTable(map[name := node]) == map[name := Normalize(node, map[name := node], [name])]
  {
  }

  lemma RootIsInlined(name: string, node: Json)
    requires RefName(name) == name && node != Null
    ensures var defs := map[name := node];
            var inner := Normalize(node, defs, [name]);
            inner.Obj? ==> Normalize(ChainRef(name), defs, []) == inner
  {
    var defs, f := map[name := node], ChainRef(name).fields;
    assert HasRef(f) && Resolvable(name, defs, []) && [] + [name] == [name];
    assert f - {"$ref"} == map[];
    var inner := Normalize(node, defs, [name]);
    if inner.Obj? {
      assert inner.fields + map[] == inner.fields;
    }
  }

  /** What is published for a definition that refers to itself: its normal form in place
      of the reference and as the definition, in both of which the inner references
      stay, no further unrolled. */
  lemma RecursiveOutput(name: string, node: Json)
    requires RefName(name) == name && node != Null
    ensures var inner := Normalize(node, map[name := node], [name]);
            inner.Obj? && name in RefNames(inner) ==>
              NormalizeInput(OneDefinition(name, node)) ==
              Some(Obj(inner.fields["$defs" := Obj(map[name := inner])]))
  {
    var defs := map[name := node];
    var inner := Normalize(node, defs, [name]);
    if inner.Obj? && name in RefNames(inner) {
      OneDefinitionParts(name, node);
      RootIsInlined(name, node);
      OneKept(name, node, RefNames(inner));
      PublishedRoot(OneDefinition(name, node), defs, inner);
      OneNormalized(name, node);
    }
  }

  // ------------------------------------------------ why bare cycles are excluded

  function CycleTable(name: string): Fields {
    map[name := ChainRef(name)]
  }

  /** A schema that refers to a definition that is nothing but a reference to itself. */
  function BareCycle(name: string): Fields {
    map["$ref" := Str(name), "$defs" := Obj(CycleTable(name))]
  }

  /** References to the definition accept everything, or nothing. */
  function CycleReading(name: string, accepted: bool): Oracle {
    (f: Fields, v: Json) => HasRef(f) && RefName(f["$ref"].s) == name ==> accepted
  }

  lemma CycleNormalized(name: string, stack: seq<string>)
    requires RefName(name) == name && stack in {[], [name]}
    ensures Normalize(ChainRef(name), CycleTable(name), stack) == ChainRef(name)
    decreases 1 - |stack|
  {
    var ref := ChainRef(name);
    assert HasRef(ref.fields) && ref.fields + (ref.fields - {"$ref"}) == ref.fields;
    if stack == [] {
      assert [] + [name] == [name];
      CycleNormalized(name, [name]);
    }
  }

  lemma CycleKept(name: string)
    requires RefName(name) == name
    ensures RefNames(ChainRef(name)) == {name} && Pruned(CycleTable(name), {name}) == CycleTable(name)
  {
    assert RefNames(Str(name)) == {};
    assert IsReferenceChain(CycleTable(name), {name}, [name], name);
  }

  lemma CycleParts(name: string)
    ensures Root(BareCycle(name)) == ChainRef(name) && DefinitionsOf(BareCycle(name)) == CycleTable(name)
    ensures ChainRef(name).fields["$defs" := Obj(CycleTable(name))] == BareCycle(name)
  {
  }

  lemma BareCycleOutput(name: string)
    requires RefName(name) == name
    ensures NormalizeInput(BareCycle(name)) == Some(Obj(BareCycle(name)))
  {
    CycleParts(name);
    CycleNormalized(name, []);
    CycleKept(name);
    var kept := CycleTable(name);
    assert NormalizeTable(kept) == kept by {
      CycleNormalized(name, [name]);
    }
  }

  lemma CycleAccepts(name: string, accepted: bool, defs: Fields, seen: seq<string>, f: Fields, v: Json)
    requires RefName(name) == name && defs in {map[], CycleTable(name)} && seen in {[], [name]}
    requires HasRef(f) && RefName(f["$ref"].s) == name && f.Keys - {"$ref"} <= ANNOTATIONS
    ensures Accepts(CycleReading(name, accepted), defs, seen, Obj(f), v) == accepted
    decreases |defs|, 1 - |seen|
  {
    var o := CycleReading(name, accepted);
    BareRef(o, f, defs, seen, v);
    var bare := map["$ref" := f["$ref"]];
    assert HasRef(bare) && o(bare, v) == accepted;
    if Resolvable(name, defs, seen) {
      assert seen + [name] == [name] && HasRef(ChainRef(name).fields);
      CycleAccepts(name, accepted, defs, [name], ChainRef(name).fields, v);
    }
  }

  lemma CycleReads(name: string, accepted: bool, names: set<string>)
    requires RefName(name) == name
    ensures Lawful(CycleReading(name, accepted)) && Reads(CycleReading(name, accepted), CycleTable(name), names, false)
  {
    var o := CycleReading(name, accepted);
    forall ref: string, u: Json | RefName(ref) in names ensures ReadsRef(o, CycleTable(name), ref, u) {
      if RefName(ref) == name {
        assert HasRef(map["$ref" := Str(ref)]) && HasRef(ChainRef(name).fields);
        CycleAccepts(name, accepted, map[], [], ChainRef(name).fields, u);
      }
    }
  }

  /** Such a definition has several meanings, and the output may be given one that
      accepts less than the input: a meaning that accepts everything and one that
      accepts nothing differ on that reference only. */
  lemma BareCycleIsNotKept(name: string, v: Json)
    requires RefName(name) == name
    ensures var o, p, schema := CycleReading(name, true), CycleReading(name, false), BareCycle(name);
            && NormalizeInput(schema) == Some(Obj(schema))
            && Lawful(o) && Means(o, schema) && Alike(o, p, DefinitionsOf(schema))
            && Reads(p, DefinitionsOf(schema), RefNames(Obj(schema)), false)
            && Accepts(o, DefinitionsOf(schema), [], Root(schema), v)
            && !Accepts(p, DefinitionsOf(schema), [], Obj(schema), v)
  {
    var schema := BareCycle(name);
    CycleParts(name);
    BareCycleOutput(name);
    CycleReads(name, true, AllNames(schema));
    CycleReads(name, false, RefNames(Obj(schema)));
    assert HasRef(ChainRef(name).fields) && HasRef(schema);
    CycleAccepts(name, true, CycleTable(name), [], ChainRef(name).fields, v);
    CycleAccepts(name, false, CycleTable(name), [], schema, v);
    assert ChainRef(name) != Null;
  }
}
