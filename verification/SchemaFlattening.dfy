/** Flattening a whole schema never loses a value: `Normalize` against `Accepts`. */
module SchemaFlattening {
  import opened JsonValues
  import opened SchemaNormalizer
  import opened SchemaAcceptance

  /** The schemas flattened without narrowing. Siblings of `$ref` and of a union
      are annotations; the normalized alternatives of a union are a single schema
      or pairwise mergeable object shapes. With `nulls` a union may also have null
      alternatives, which the normalizer drops. */
  ghost predicate Flattenable(node: Json, defs: Fields, stack: seq<string>, nulls: bool)
    decreases |defs.Keys - Elements(stack)|, node, 1
  {
    node.Obj? ==>
      var f := node.fields;
      if HasRef(f) then
        var name := RefName(f["$ref"].s);
        && f.Keys - {"$ref"} <= ANNOTATIONS
        && (Resolvable(name, defs, stack) ==>
              (StackGrows(defs, stack, name); Flattenable(defs[name], defs, stack + [name], nulls)))
      else if IsUnion(f) then
        var raw := RawVariants(f);
        && f.Keys - {"oneOf", "anyOf"} <= ANNOTATIONS
        && raw.Arr?
        && (forall i | 0 <= i < |raw.items| :: Flattenable(raw.items[i], defs, stack, nulls))
        && FlattenableVariants(NormalizeAll(raw, defs, stack), nulls)
      else FlattenableChildren(node, defs, stack, nulls)
  }

  ghost predicate FlattenableChildren(node: Json, defs: Fields, stack: seq<string>, nulls: bool)
    requires node.Obj?
    decreases |defs.Keys - Elements(stack)|, node, 0
  {
    var f := node.fields;
    && f.Keys !! INTERACTING
    && (HasObject(f, "properties") ==>
          forall name | name in f["properties"].fields :: Flattenable(f["properties"].fields[name], defs, stack, nulls))
    && (forall key | key in SUBSCHEMA_KEYS && key in f :: Flattenable(f[key], defs, stack, nulls))
    && (HasList(f, "prefixItems") ==>
          forall i | 0 <= i < |f["prefixItems"].items| :: Flattenable(f["prefixItems"].items[i], defs, stack, nulls))
  }

  ghost predicate FlattenableVariants(normalized: seq<Json>, nulls: bool) {
    && (forall v | v in normalized :: v.Obj? && (IsNullSchema(v) ==> nulls))
    && (|KeptVariants(normalized)| <= 1 || MergeableVariants(KeptVariants(normalized)))
  }

  // ------------------------------------------------- annotations are irrelevant

  lemma SameAccepts(o: Oracle, defs: Fields, seen: seq<string>, f: Fields, g: Fields, v: Json)
    requires f - ANNOTATIONS == g - ANNOTATIONS
    ensures Accepts(o, defs, seen, Obj(f), v) == Accepts(o, defs, seen, Obj(g), v)
  {
    forall key | key !in ANNOTATIONS
      ensures key in f <==> key in g
      ensures key in f ==> f[key] == g[key]
    {
      assert key in f <==> key in f - ANNOTATIONS;
      assert key in g <==> key in g - ANNOTATIONS;
      if key in f {
        assert f[key] == (f - ANNOTATIONS)[key] == (g - ANNOTATIONS)[key] == g[key];
      }
    }
    assert Others(f) == Others(g);
    SameOthersOk(o, defs, seen, Obj(f), Obj(g), v);
    NotAnnotations();
    SamePropertiesOk(o, defs, seen, f, g, v);
  }

  lemma NotAnnotations()
    ensures INTERPRETED !! ANNOTATIONS
    ensures {"enum", "required", "properties", "additionalProperties"} !! ANNOTATIONS
    ensures "enum" !in ANNOTATIONS && "required" !in ANNOTATIONS
    ensures "properties" !in ANNOTATIONS && "additionalProperties" !in ANNOTATIONS
  {
  }

  lemma SamePropertiesOk(o: Oracle, defs: Fields, seen: seq<string>, f: Fields, g: Fields, v: Json)
    requires forall key | key in {"properties", "additionalProperties"} :: (key in f <==> key in g)
    requires forall key | key in {"properties", "additionalProperties"} && key in f :: f[key] == g[key]
    ensures PropertiesOk(o, defs, seen, Obj(f), v) == PropertiesOk(o, defs, seen, Obj(g), v)
  {
    assert "properties" in f <==> "properties" in g;
    assert "additionalProperties" in f <==> "additionalProperties" in g;
  }

  lemma AnnotatedAccepts(o: Oracle, defs: Fields, seen: seq<string>, f: Fields, notes: Fields, v: Json)
    requires notes.Keys <= ANNOTATIONS
    ensures Accepts(o, defs, seen, Obj(f + notes), v) == Accepts(o, defs, seen, Obj(f), v)
  {
    assert (f + notes) - ANNOTATIONS == f - ANNOTATIONS;
    SameAccepts(o, defs, seen, f + notes, f, v);
  }

  // ------------------------------------------------------------ the three cases

  /** Flattening accepts whatever the schema accepted: for every flattenable
      schema, definition table, value and reading of the other keywords. A reference
      met again inside its own definition is a reference on both sides, read by the
      oracle; module `SchemaRecursion` ties that reading to the definitions. */
  lemma {:induction false} NormalizeAccepts(o: Oracle, node: Json, defs: Fields, stack: seq<string>, nulls: bool,
                                            v: Json)
    requires Lawful(o) && Flattenable(node, defs, stack, nulls) && (nulls ==> NullFree(v))
    requires Accepts(o, defs, stack, node, v)
    ensures Accepts(o, map[], [], Normalize(node, defs, stack), v)
    decreases |defs.Keys - Elements(stack)|, node, 2
  {
    if node.Obj? {
      var f := node.fields;
      if HasRef(f) {
        NormalizeRefAccepts(o, node, defs, stack, nulls, v);
      } else if IsUnion(f) {
        NormalizeUnionAccepts(o, node, defs, stack, nulls, v);
      } else {
        NormalizeChildrenAccepts(o, node, defs, stack, nulls, v);
      }
    }
  }

  lemma {:induction false} NormalizeRefAccepts(o: Oracle, node: Json, defs: Fields, stack: seq<string>, nulls: bool,
                                               v: Json)
    requires Lawful(o) && Flattenable(node, defs, stack, nulls) && (nulls ==> NullFree(v))
    requires node.Obj? && HasRef(node.fields) && Accepts(o, defs, stack, node, v)
    ensures Accepts(o, map[], [], Normalize(node, defs, stack), v)
    decreases |defs.Keys - Elements(stack)|, node, 1
  {
    var f := node.fields;
    var name := RefName(f["$ref"].s);
    assert RefOk(o, defs, stack, node, v);
    if Resolvable(name, defs, stack) {
      StackGrows(defs, stack, name);
      NormalizeAccepts(o, defs[name], defs, stack + [name], nulls, v);
      var resolved := Normalize(defs[name], defs, stack + [name]);
      if resolved.Obj? {
        AnnotatedAccepts(o, map[], [], resolved.fields, f - {"$ref"}, v);
      }
    } else {
      BareRefAccepts(o, f, v);
    }
  }

  lemma BareRefAccepts(o: Oracle, f: Fields, v: Json)
    requires Lawful(o) && HasRef(f) && f.Keys - {"$ref"} <= ANNOTATIONS
    requires o(map["$ref" := f["$ref"]], v)
    ensures Accepts(o, map[], [], Obj(f), v)
  {
    NotAnnotations();
    var s := Obj(f);
    assert Rest(f) == map[];
    assert forall key | key in INTERPRETED && key != "$ref" :: key !in f;
    assert RefOk(o, map[], [], s, v);
    assert ItemsOk(o, map[], [], s, v);
    assert OthersOk(o, map[], [], s, v);
  }

  lemma NullSchemaAcceptsNull(o: Oracle, s: Json, v: Json)
    requires Accepts(o, map[], [], s, v)
    ensures IsNullSchema(s) ==> v == Null
  {
    if IsNullSchema(s) {
      assert OthersOk(o, map[], [], s, v);
    }
  }

  lemma {:induction false} KeptIndex(normalized: seq<Json>, s: Json) returns (k: nat)
    requires s in normalized && s.Obj? && !IsNullSchema(s)
    ensures k < |KeptVariants(normalized)| && KeptVariants(normalized)[k] == s
  {
    KeptVariantsElements(normalized);
    k :| 0 <= k < |KeptVariants(normalized)| && KeptVariants(normalized)[k] == s;
  }

  lemma AcceptedVariant(o: Oracle, node: Json, defs: Fields, stack: seq<string>, v: Json) returns (i: nat)
    requires node.Obj? && IsUnion(node.fields) && RawVariants(node.fields).Arr?
    requires Accepts(o, defs, stack, node, v)
    ensures i < |RawVariants(node.fields).items|
    ensures Accepts(o, defs, stack, RawVariants(node.fields).items[i], v)
  {
    var f := node.fields;
    var raw := RawVariants(f);
    assert OthersOk(o, defs, stack, node, v);
    if "oneOf" in f {
      assert OneOfOk(o, defs, stack, raw, v);
    } else {
      assert AnyOfOk(o, defs, stack, raw, v);
    }
    i :| 0 <= i < |raw.items| && Accepts(o, defs, stack, raw.items[i], v);
  }

  lemma {:induction false} NormalizeUnionAccepts(o: Oracle, node: Json, defs: Fields, stack: seq<string>, nulls: bool,
                                                 v: Json)
    requires Lawful(o) && Flattenable(node, defs, stack, nulls) && (nulls ==> NullFree(v))
    requires node.Obj? && !HasRef(node.fields) && IsUnion(node.fields) && Accepts(o, defs, stack, node, v)
    ensures Accepts(o, map[], [], Normalize(node, defs, stack), v)
    decreases |defs.Keys - Elements(stack)|, node, 1
  {
    var f := node.fields;
    var raw := RawVariants(f);
    var normalized := NormalizeAll(raw, defs, stack);
    var i := AcceptedVariant(o, node, defs, stack, v);
    NormalizeAccepts(o, raw.items[i], defs, stack, nulls, v);
    var s := normalized[i];
    assert s in normalized && s.Obj?;
    NullSchemaAcceptsNull(o, s, v);
    var k := KeptIndex(normalized, s);
    FlattenedUnionAccepts(o, f, normalized, nulls, k, v);
  }

  lemma FlattenedVariantsAccept(o: Oracle, normalized: seq<Json>, nulls: bool, k: nat, v: Json)
    requires Lawful(o) && FlattenableVariants(normalized, nulls)
    requires k < |KeptVariants(normalized)| && Accepts(o, map[], [], KeptVariants(normalized)[k], v)
    ensures Accepts(o, map[], [], Obj(FlattenVariants(normalized)), v)
  {
    var variants := KeptVariants(normalized);
    if |variants| == 1 {
      KeptVariantsElements(normalized);
      assert variants[k] in variants;
    } else {
      assert forall u | u in variants :: ObjectVariant(u) && IsObjectLike(u);
      MergedVariantsAccept(o, map[], [], variants, k, v);
    }
  }

  lemma FlattenedUnionAccepts(o: Oracle, f: Fields, normalized: seq<Json>, nulls: bool, k: nat, v: Json)
    requires Lawful(o) && FlattenableVariants(normalized, nulls) && f.Keys - {"oneOf", "anyOf"} <= ANNOTATIONS
    requires k < |KeptVariants(normalized)| && Accepts(o, map[], [], KeptVariants(normalized)[k], v)
    ensures Accepts(o, map[], [], Obj(FlattenUnion(f, normalized)), v)
  {
    FlattenedVariantsAccept(o, normalized, nulls, k, v);
    AnnotatedAccepts(o, map[], [], FlattenVariants(normalized), UnionWrapper(f, Nullable(normalized)), v);
  }

  // ------------------------------------------------------------- plain schemas

  lemma {:induction false} ChildrenProperties(o: Oracle, node: Json, defs: Fields, stack: seq<string>, nulls: bool,
                                              v: Json)
    requires Lawful(o) && node.Obj? && FlattenableChildren(node, defs, stack, nulls) && (nulls ==> NullFree(v))
    requires PropertiesOk(o, defs, stack, node, v)
    ensures PropertiesOk(o, map[], [], Obj(NormalizeChildren(node, defs, stack)), v)
    decreases |defs.Keys - Elements(stack)|, node, 0
  {
    if v.Obj? {
      var f, g := node.fields, NormalizeChildren(node, defs, stack);
      if "properties" in f {
        NormalizedProperties(node, defs, stack);
      }
      forall name | name in v.fields
        ensures if HasObject(g, "properties") && name in g["properties"].fields then
                  Accepts(o, map[], [], g["properties"].fields[name], v.fields[name])
                else "additionalProperties" in g ==> Accepts(o, map[], [], g["additionalProperties"], v.fields[name])
      {
        if HasObject(f, "properties") && name in f["properties"].fields {
          NormalizeAccepts(o, f["properties"].fields[name], defs, stack, nulls, v.fields[name]);
        } else if "additionalProperties" in f {
          NormalizedChild(node, "additionalProperties", defs, stack);
          NormalizeAccepts(o, f["additionalProperties"], defs, stack, nulls, v.fields[name]);
        }
      }
    }
  }

  lemma {:induction false} ChildrenItems(o: Oracle, node: Json, defs: Fields, stack: seq<string>, nulls: bool, v: Json)
    requires Lawful(o) && node.Obj? && FlattenableChildren(node, defs, stack, nulls) && (nulls ==> NullFree(v))
    requires ItemsOk(o, defs, stack, node, v)
    ensures ItemsOk(o, map[], [], Obj(NormalizeChildren(node, defs, stack)), v)
    decreases |defs.Keys - Elements(stack)|, node, 0
  {
    if v.Arr? {
      var f, g := node.fields, NormalizeChildren(node, defs, stack);
      var prefix, prefix' := ListAt(f, "prefixItems"), ListAt(g, "prefixItems");
      NormalizedPrefix(node, defs, stack);
      forall i | 0 <= i < |prefix'| && i < |v.items|
        ensures Accepts(o, map[], [], prefix'[i], v.items[i])
      {
        NormalizeAccepts(o, prefix[i], defs, stack, nulls, v.items[i]);
      }
      if "items" in f {
        NormalizedChild(node, "items", defs, stack);
        forall i | |prefix| <= i < |v.items| ensures Accepts(o, map[], [], g["items"], v.items[i]) {
          NormalizeAccepts(o, f["items"], defs, stack, nulls, v.items[i]);
        }
      }
      if "contains" in f {
        NormalizedChild(node, "contains", defs, stack);
        var i :| 0 <= i < |v.items| && Accepts(o, defs, stack, f["contains"], v.items[i]);
        NormalizeAccepts(o, f["contains"], defs, stack, nulls, v.items[i]);
      }
    }
  }

  lemma {:induction false} NormalizeChildrenAccepts(o: Oracle, node: Json, defs: Fields, stack: seq<string>,
                                                    nulls: bool, v: Json)
    requires Lawful(o) && Flattenable(node, defs, stack, nulls) && (nulls ==> NullFree(v))
    requires node.Obj? && !HasRef(node.fields) && !IsUnion(node.fields) && Accepts(o, defs, stack, node, v)
    ensures Accepts(o, map[], [], Normalize(node, defs, stack), v)
    decreases |defs.Keys - Elements(stack)|, node, 1
  {
    var f, g := node.fields, NormalizeChildren(node, defs, stack);
    ChildrenProperties(o, node, defs, stack, nulls, v);
    ChildrenItems(o, node, defs, stack, nulls, v);
    assert OthersOk(o, defs, stack, node, v);
    PlainKeywords(o, node, defs, stack, v);
    ConstToEnumAccepts(o, g, v);
  }

  lemma RestUntouched(f: Fields, g: Fields)
    requires forall key | key != "discriminator" && key !in SCHEMA_POSITIONS :: (key in g <==> key in f)
    requires forall key | key != "discriminator" && key !in SCHEMA_POSITIONS && key in f :: g[key] == f[key]
    ensures Rest(g) == Rest(f)
  {
    assert SCHEMA_POSITIONS <= INTERPRETED;
  }

  lemma PlainKeywords(o: Oracle, node: Json, defs: Fields, stack: seq<string>, v: Json)
    requires node.Obj? && !HasRef(node.fields) && !IsUnion(node.fields)
    requires Accepts(o, defs, stack, node, v)
    requires ItemsOk(o, map[], [], Obj(NormalizeChildren(node, defs, stack)), v)
    ensures var g := NormalizeChildren(node, defs, stack);
            OthersOk(o, map[], [], Obj(g), v) && EnumOk(g, v) && RequiredOk(g, v)
  {
    var f, g := node.fields, NormalizeChildren(node, defs, stack);
    forall key | key != "discriminator" && key !in SCHEMA_POSITIONS
      ensures key in g <==> key in f
      ensures key in f ==> g[key] == f[key]
    {
      UntouchedKey(node, key, defs, stack);
    }
    RestUntouched(f, g);
    NotSchemaPositions();
    assert OthersOk(o, defs, stack, node, v);
    assert !HasRef(g) && "oneOf" !in g && "anyOf" !in g;
    assert "type" in g <==> "type" in f;
    assert "const" in g <==> "const" in f;
    assert "enum" in g <==> "enum" in f;
    assert "required" in g <==> "required" in f;
  }

  /** Turning `const` into `enum` accepts the same values, or more when an
      `enum` was already there. */
  lemma ConstToEnumAccepts(o: Oracle, f: Fields, v: Json)
    requires Accepts(o, map[], [], Obj(f), v)
    ensures Accepts(o, map[], [], Obj(ConstToEnum(f)), v)
  {
    if "const" in f {
      var g := ConstToEnum(f);
      SamePropertiesOk(o, map[], [], f, g, v);
      assert OthersOk(o, map[], [], Obj(f), v);
      ConstDropped(o, f, v);
      assert Others(g) == Others(f - {"const"});
      SameOthersOk(o, map[], [], Obj(g), Obj(f - {"const"}), v);
    }
  }

  lemma ConstDropped(o: Oracle, f: Fields, v: Json)
    requires OthersOk(o, map[], [], Obj(f), v)
    ensures OthersOk(o, map[], [], Obj(f - {"const"}), v)
  {
    var g := f - {"const"};
    assert Rest(g) == Rest(f);
    assert RefOk(o, map[], [], Obj(g), v);
    assert ItemsOk(o, map[], [], Obj(g), v);
  }
}
