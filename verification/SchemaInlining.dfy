/** Where nothing is merged nothing changes: inlining `$ref`, turning `const` into
    `enum` and dropping the null alternatives of optional fields keep exactly the
    accepted values. And what every union becomes, in terms of its alternatives. */
module SchemaInlining {
  import opened JsonValues
  import opened SchemaNormalizer
  import opened SchemaAcceptance
  import opened SchemaFlattening

  /** Every union reached has one alternative besides null ones, no node has both
      `const` and `enum`, and the siblings of `$ref` and of a union are annotations.
      Without `nulls` there are no null alternatives either. */
  predicate OptionalOnly(node: Json, defs: Fields, stack: seq<string>, nulls: bool)
    decreases |defs.Keys - Elements(stack)|, node, 1
  {
    node.Obj? ==>
      var f := node.fields;
      if HasRef(f) then
        var name := RefName(f["$ref"].s);
        && f.Keys - {"$ref"} <= ANNOTATIONS
        && (Resolvable(name, defs, stack) ==>
              (StackGrows(defs, stack, name); OptionalOnly(defs[name], defs, stack + [name], nulls)))
      else if IsUnion(f) then
        && AnnotatedUnion(f)
        && (forall i | 0 <= i < |RawVariants(f).items| :: OptionalOnly(RawVariants(f).items[i], defs, stack, nulls))
        && OneAlternative(NormalizeAll(RawVariants(f), defs, stack), nulls)
      else OptionalChildren(node, defs, stack, nulls)
  }

  predicate OptionalChildren(node: Json, defs: Fields, stack: seq<string>, nulls: bool)
    requires node.Obj?
    decreases |defs.Keys - Elements(stack)|, node, 0
  {
    var f := node.fields;
    && !("const" in f && "enum" in f) && f.Keys !! INTERACTING
    && (HasObject(f, "properties") ==>
          forall name | name in f["properties"].fields ::
            OptionalOnly(f["properties"].fields[name], defs, stack, nulls))
    && (forall key | key in SUBSCHEMA_KEYS && key in f :: OptionalOnly(f[key], defs, stack, nulls))
    && (HasList(f, "prefixItems") ==>
          forall i | 0 <= i < |f["prefixItems"].items| :: OptionalOnly(f["prefixItems"].items[i], defs, stack, nulls))
  }

  /** A list of alternatives under one keyword, with annotations beside it. */
  predicate AnnotatedUnion(f: Fields) {
    && IsUnion(f) && !("oneOf" in f && "anyOf" in f)
    && f.Keys - {"oneOf", "anyOf"} <= ANNOTATIONS && RawVariants(f).Arr?
  }

  /** All alternatives but at most one are null schemas. */
  predicate OneAlternative(normalized: seq<Json>, nulls: bool) {
    && normalized != []
    && (forall v | v in normalized :: v.Obj? && (IsNullSchema(v) ==> nulls))
    && (forall i, j | 0 <= i < j < |normalized| :: IsNullSchema(normalized[i]) || IsNullSchema(normalized[j]))
  }

  // ------------------------------------------------------ what a union becomes

  /** Alternatives that are no schema objects and null alternatives are dropped. */
  predicate Keepable(s: Json) {
    s.Obj? && !("type" in s.fields && s.fields["type"] == Str("null"))
  }

  predicate FirstKept(normalized: seq<Json>, k: nat) {
    && k < |normalized| && Keepable(normalized[k])
    && forall j | 0 <= j < k :: !Keepable(normalized[j])
  }

  /** No other alternative is kept. */
  predicate OnlyKept(normalized: seq<Json>, k: nat) {
    FirstKept(normalized, k) && forall j | k < j < |normalized| :: !Keepable(normalized[j])
  }

  /** Some kept alternative is no object shape. */
  predicate Mixed(normalized: seq<Json>) {
    exists s | s in normalized ::
      Keepable(s) && "properties" !in s.fields && ("type" in s.fields ==> s.fields["type"] != Str("object"))
  }

  lemma {:induction false} NothingKept(normalized: seq<Json>)
    requires forall s | s in normalized :: !Keepable(s)
    ensures KeptVariants(normalized) == []
  {
    if normalized != [] {
      NothingKept(normalized[..|normalized| - 1]);
      assert normalized[|normalized| - 1] in normalized;
    }
  }

  lemma {:induction false} FirstKeptIsHead(normalized: seq<Json>, k: nat)
    requires FirstKept(normalized, k)
    ensures KeptVariants(normalized) != [] && KeptVariants(normalized)[0] == normalized[k]
    ensures OnlyKept(normalized, k) ==> |KeptVariants(normalized)| == 1
  {
    var n := |normalized| - 1;
    var init := normalized[..n];
    if k < n {
      FirstKeptIsHead(init, k);
      assert OnlyKept(normalized, k) ==> OnlyKept(init, k);
    } else {
      NothingKept(init);
    }
  }

  /** A union with one kept alternative becomes that alternative, and a union of unlike
      ones becomes its first. */
  lemma UnionReads(o: Oracle, node: Json, defs: Fields, stack: seq<string>, k: nat, v: Json)
    requires node.Obj? && !HasRef(node.fields) && AnnotatedUnion(node.fields)
    requires var normalized := NormalizeAll(RawVariants(node.fields), defs, stack);
             FirstKept(normalized, k) && (OnlyKept(normalized, k) || Mixed(normalized))
    ensures Accepts(o, map[], [], Normalize(node, defs, stack), v) ==
            Accepts(o, map[], [], Normalize(RawVariants(node.fields).items[k], defs, stack), v)
  {
    var f := node.fields;
    var normalized := NormalizeAll(RawVariants(f), defs, stack);
    FirstKeptIsHead(normalized, k);
    KeptVariantsElements(normalized);
    if Mixed(normalized) {
      var s :| s in normalized && Keepable(s) && "properties" !in s.fields &&
               ("type" in s.fields ==> s.fields["type"] != Str("object"));
      assert s in KeptVariants(normalized) && !IsObjectLike(s);
    }
    assert FlattenVariants(normalized) == normalized[k].fields;
    AnnotatedAccepts(o, map[], [], normalized[k].fields, UnionWrapper(f, Nullable(normalized)), v);
    NormalizeAllAt(RawVariants(f), defs, stack);
  }

  /** A union that keeps no alternative becomes the null schema if it had one, and
      otherwise accepts everything. */
  lemma EmptyUnionReads(o: Oracle, node: Json, defs: Fields, stack: seq<string>, v: Json)
    requires Lawful(o) && node.Obj? && !HasRef(node.fields) && AnnotatedUnion(node.fields)
    requires forall s | s in NormalizeAll(RawVariants(node.fields), defs, stack) :: !Keepable(s)
    ensures Accepts(o, map[], [], Normalize(node, defs, stack), v) <==>
            ((exists s | s in NormalizeAll(RawVariants(node.fields), defs, stack) :: s.Obj?) ==> v == Null)
  {
    var f := node.fields;
    var normalized := NormalizeAll(RawVariants(f), defs, stack);
    NothingKept(normalized);
    var g := FlattenVariants(normalized);
    assert Nullable(normalized) <==> exists s | s in normalized :: s.Obj?;
    AnnotatedAccepts(o, map[], [], g, UnionWrapper(f, Nullable(normalized)), v);
    if Nullable(normalized) {
      TypeSchemaAccepts(o, map[], [], "null", v);
    } else {
      EmptySchemaAccepts(o, map[], [], v);
    }
  }

  /** A union of several object shapes accepts what their merge means, keyword by
      keyword. */
  lemma MergedUnionReads(o: Oracle, node: Json, defs: Fields, stack: seq<string>, v: Json)
    requires Lawful(o) && node.Obj? && !HasRef(node.fields) && AnnotatedUnion(node.fields)
    requires var normalized := NormalizeAll(RawVariants(node.fields), defs, stack);
             !Mixed(normalized) && |KeptVariants(normalized)| > 1
    ensures var variants := KeptVariants(NormalizeAll(RawVariants(node.fields), defs, stack));
            Accepts(o, map[], [], Normalize(node, defs, stack), v) <==>
            && v.Obj?
            && (forall name: string | (forall u | u in variants :: name in RequiredNames(u)) :: name in v.fields)
            && (forall name | name in v.fields ::
                  if Declarations(variants, name) != [] then
                    Accepts(o, map[], [], MergeAll(Declarations(variants, name)), v.fields[name])
                  else exists u | u in variants :: !ForbidsExtras(FieldsOf(u)))
  {
    var f := node.fields;
    var normalized := NormalizeAll(RawVariants(f), defs, stack);
    var variants := KeptVariants(normalized);
    KeptVariantsElements(normalized);
    assert forall s | s in variants :: s in normalized && Keepable(s) && IsObjectLike(s);
    assert FlattenVariants(normalized) == MergeVariants(variants);
    AnnotatedAccepts(o, map[], [], MergeVariants(variants), UnionWrapper(f, Nullable(normalized)), v);
    MergedVariantsMean(o, map[], [], variants, v);
  }

  lemma KeptOne(init: seq<Json>, s: Json)
    ensures KeptVariants(init + [s]) == if Keepable(s) then KeptVariants(init) + [s] else KeptVariants(init)
  {
    assert (init + [s])[..|init|] == init;
  }

  /** The kept alternatives stay in order. */
  lemma {:induction false} KeptInOrder(xs: seq<Json>, ys: seq<Json>)
    ensures KeptVariants(xs + ys) == KeptVariants(xs) + KeptVariants(ys)
  {
    if ys == [] {
      assert xs + ys == xs;
    } else {
      var init, s := ys[..|ys| - 1], ys[|ys| - 1];
      KeptInOrder(xs, init);
      KeptOne(xs + init, s);
      KeptOne(init, s);
      assert ys == init + [s] && xs + ys == (xs + init) + [s];
      assert (KeptVariants(xs) + KeptVariants(init)) + [s] == KeptVariants(xs) + (KeptVariants(init) + [s]);
    }
  }

  lemma BareUnion(o: Oracle, defs: Fields, seen: seq<string>, key: string, list: Json, v: Json)
    requires Lawful(o) && list.Arr? && (key == "oneOf" || key == "anyOf")
    ensures Accepts(o, defs, seen, Obj(map[key := list]), v) ==
            if key == "oneOf" then OneOfOk(o, defs, seen, list, v) else AnyOfOk(o, defs, seen, list, v)
  {
    var s := Obj(map[key := list]);
    assert Rest(s.fields) == map[];
    assert ItemsOk(o, defs, seen, s, v) && PropertiesOk(o, defs, seen, s, v);
    assert OthersOk(o, defs, seen, s, v) ==
           if key == "oneOf" then OneOfOk(o, defs, seen, list, v) else AnyOfOk(o, defs, seen, list, v);
  }

  lemma OnlyOneAccepts(o: Oracle, defs: Fields, seen: seq<string>, list: Json, k: nat, v: Json)
    requires list.Arr? && k < |list.items|
    requires forall i | 0 <= i < |list.items| && i != k :: !Accepts(o, defs, seen, list.items[i], v)
    ensures AnyOfOk(o, defs, seen, list, v) == Accepts(o, defs, seen, list.items[k], v)
    ensures OneOfOk(o, defs, seen, list, v) == Accepts(o, defs, seen, list.items[k], v)
  {
  }

  /** A list in which one alternative accepts the value, if any does. */
  lemma UnionOfOne(o: Oracle, node: Json, defs: Fields, stack: seq<string>, k: nat, v: Json)
    requires Lawful(o) && node.Obj? && !HasRef(node.fields) && AnnotatedUnion(node.fields)
    requires k < |RawVariants(node.fields).items|
    requires forall i | 0 <= i < |RawVariants(node.fields).items| && i != k ::
               !Accepts(o, defs, stack, RawVariants(node.fields).items[i], v)
    ensures Accepts(o, defs, stack, node, v) == Accepts(o, defs, stack, RawVariants(node.fields).items[k], v)
  {
    var f := node.fields;
    var list, key := RawVariants(f), if "oneOf" in f then "oneOf" else "anyOf";
    NotAnnotations();
    assert f - ANNOTATIONS == map[key := list] - ANNOTATIONS;
    SameAccepts(o, defs, stack, f, map[key := list], v);
    BareUnion(o, defs, stack, key, list, v);
    OnlyOneAccepts(o, defs, stack, list, k, v);
  }

  /** Both schemas accept the same values. */
  ghost predicate Same(o: Oracle, node: Json, defs: Fields, stack: seq<string>, v: Json) {
    Accepts(o, map[], [], Normalize(node, defs, stack), v) == Accepts(o, defs, stack, node, v)
  }

  /** Normalizing preserves meaning: a schema whose unions are all optional ones and its
      normal form accept the same values, null-free ones where null alternatives are
      dropped, for every reading of the other keywords and of the references that
      stay. */
  lemma {:induction false} InliningIsExact(o: Oracle, node: Json, defs: Fields, stack: seq<string>, nulls: bool,
                                           v: Json)
    requires Lawful(o) && OptionalOnly(node, defs, stack, nulls) && (nulls ==> NullFree(v))
    ensures Same(o, node, defs, stack, v)
    decreases |defs.Keys - Elements(stack)|, node, 2
  {
    if node.Obj? {
      if HasRef(node.fields) {
        RefIsExact(o, node, defs, stack, nulls, v);
      } else if IsUnion(node.fields) {
        UnionIsExact(o, node, defs, stack, nulls, v);
      } else {
        ChildrenAreExact(o, node, defs, stack, nulls, v);
      }
    }
  }

  /** A bare reference with annotations says what its target says. */
  lemma BareRef(o: Oracle, f: Fields, defs: Fields, stack: seq<string>, v: Json)
    requires Lawful(o) && HasRef(f) && f.Keys - {"$ref"} <= ANNOTATIONS
    ensures Accepts(o, defs, stack, Obj(f), v) == RefOk(o, defs, stack, Obj(f), v)
  {
    NotAnnotations();
    var s := Obj(f);
    assert Rest(f) == map[];
    assert forall key | key in INTERPRETED && key != "$ref" :: key !in f;
    assert ItemsOk(o, defs, stack, s, v);
    assert OthersOk(o, defs, stack, s, v) == RefOk(o, defs, stack, s, v);
  }

  lemma {:induction false} RefIsExact(o: Oracle, node: Json, defs: Fields, stack: seq<string>, nulls: bool,
                                      v: Json)
    requires Lawful(o) && OptionalOnly(node, defs, stack, nulls) && (nulls ==> NullFree(v))
    requires node.Obj? && HasRef(node.fields)
    ensures Same(o, node, defs, stack, v)
    decreases |defs.Keys - Elements(stack)|, node, 1
  {
    var f := node.fields;
    var name := RefName(f["$ref"].s);
    BareRef(o, f, defs, stack, v);
    if Resolvable(name, defs, stack) {
      StackGrows(defs, stack, name);
      InliningIsExact(o, defs[name], defs, stack + [name], nulls, v);
      var resolved := Normalize(defs[name], defs, stack + [name]);
      if resolved.Obj? {
        AnnotatedAccepts(o, map[], [], resolved.fields, f - {"$ref"}, v);
      }
    } else {
      BareRef(o, f, map[], [], v);
    }
  }

  /** The alternatives of an optional union that accept a value are the one kept. */
  lemma {:induction false} UnionIsExact(o: Oracle, node: Json, defs: Fields, stack: seq<string>, nulls: bool, v: Json)
    requires Lawful(o) && OptionalOnly(node, defs, stack, nulls) && (nulls ==> NullFree(v))
    requires node.Obj? && !HasRef(node.fields) && IsUnion(node.fields)
    ensures Same(o, node, defs, stack, v)
    decreases |defs.Keys - Elements(stack)|, node, 1
  {
    var f := node.fields;
    var raw := RawVariants(f);
    var normalized := NormalizeAll(raw, defs, stack);
    NormalizeAllAt(raw, defs, stack);
    forall i | 0 <= i < |raw.items|
      ensures Accepts(o, map[], [], normalized[i], v) == Accepts(o, defs, stack, raw.items[i], v)
    {
      InliningIsExact(o, raw.items[i], defs, stack, nulls, v);
    }
    OptionalUnion(o, node, defs, stack, nulls, v);
  }

  lemma OptionalUnion(o: Oracle, node: Json, defs: Fields, stack: seq<string>, nulls: bool, v: Json)
    requires Lawful(o) && (nulls ==> NullFree(v))
    requires node.Obj? && !HasRef(node.fields) && AnnotatedUnion(node.fields)
    requires var normalized := NormalizeAll(RawVariants(node.fields), defs, stack);
             && OneAlternative(normalized, nulls)
             && forall i | 0 <= i < |normalized| :: Accepts(o, map[], [], normalized[i], v) ==
                                                    Accepts(o, defs, stack, RawVariants(node.fields).items[i], v)
    ensures Same(o, node, defs, stack, v)
  {
    var normalized := NormalizeAll(RawVariants(node.fields), defs, stack);
    forall i | 0 <= i < |normalized| && IsNullSchema(normalized[i])
      ensures !Accepts(o, map[], [], normalized[i], v)
    {
      assert normalized[i] in normalized;
      if Accepts(o, map[], [], normalized[i], v) {
        NullSchemaAcceptsNull(o, normalized[i], v);
      }
    }
    NormalizeAllAt(RawVariants(node.fields), defs, stack);
    if k: nat :| k < |normalized| && !IsNullSchema(normalized[k]) {
      assert normalized[k] in normalized;
      assert forall i | 0 <= i < |normalized| && i != k :: IsNullSchema(normalized[i]);
      assert OnlyKept(normalized, k);
      UnionOfOne(o, node, defs, stack, k, v);
      UnionReads(o, node, defs, stack, k, v);
    } else {
      assert normalized[0] in normalized && IsNullSchema(normalized[0]);
      UnionOfOne(o, node, defs, stack, 0, v);
      EmptyUnionReads(o, node, defs, stack, v);
    }
  }

  /** So a union of unlike alternatives keeps exactly the values of its first one. */
  lemma MixedUnionKeepsIff(o: Oracle, node: Json, defs: Fields, stack: seq<string>, nulls: bool, k: nat, v: Json)
    requires Lawful(o) && (nulls ==> NullFree(v))
    requires node.Obj? && !HasRef(node.fields) && AnnotatedUnion(node.fields)
    requires var normalized := NormalizeAll(RawVariants(node.fields), defs, stack);
             FirstKept(normalized, k) && Mixed(normalized)
    requires OptionalOnly(RawVariants(node.fields).items[k], defs, stack, nulls)
    ensures Accepts(o, map[], [], Normalize(node, defs, stack), v) <==>
            Accepts(o, defs, stack, RawVariants(node.fields).items[k], v)
  {
    UnionReads(o, node, defs, stack, k, v);
    InliningIsExact(o, RawVariants(node.fields).items[k], defs, stack, nulls, v);
  }

  /** A text or a number, and what it becomes. */
  function TextOrNumber(): Json {
    Obj(map["anyOf" := Arr([TypeSchema("string"), TypeSchema("integer")])])
  }

  lemma TextOrNumberBecomesText(defs: Fields, stack: seq<string>)
    ensures Normalize(TextOrNumber(), defs, stack) == TypeSchema("string")
  {
    var text, number := TypeSchema("string"), TypeSchema("integer");
    var f := TextOrNumber().fields;
    PlainTypeSchema("string", defs, stack);
    PlainTypeSchema("integer", defs, stack);
    var normalized := NormalizeAll(RawVariants(f), defs, stack);
    assert normalized == [text, number];
    assert FirstKept(normalized, 0) && text in normalized;
    FirstKeptIsHead(normalized, 0);
    KeptVariantsElements(normalized);
    assert text in KeptVariants(normalized) && !IsObjectLike(text);
    assert UnionWrapper(f, Nullable(normalized)) == map[];
  }

  lemma TextOrNumberAccepts(o: Oracle, defs: Fields, seen: seq<string>)
    requires Lawful(o)
    ensures Accepts(o, defs, seen, TextOrNumber(), Num(1.0))
  {
    var list := RawVariants(TextOrNumber().fields);
    TypeSchemaAccepts(o, defs, seen, "string", Num(1.0));
    TypeSchemaAccepts(o, defs, seen, "integer", Num(1.0));
    assert list.items == [TypeSchema("string"), TypeSchema("integer")];
    UnionOfOne(o, TextOrNumber(), defs, seen, 1, Num(1.0));
  }

  /** So a number that the union accepts is refused. */
  lemma MixedUnionLosesAValue(o: Oracle, defs: Fields, stack: seq<string>)
    requires Lawful(o)
    ensures Accepts(o, defs, stack, TextOrNumber(), Num(1.0))
    ensures !Accepts(o, map[], [], Normalize(TextOrNumber(), defs, stack), Num(1.0))
  {
    TextOrNumberAccepts(o, defs, stack);
    TextOrNumberBecomesText(defs, stack);
    TypeSchemaAccepts(o, map[], [], "string", Num(1.0));
  }

  function TypeSchema(name: string): Json {
    Obj(map["type" := Str(name)])
  }

  lemma PlainTypeSchema(name: string, defs: Fields, stack: seq<string>)
    ensures Normalize(TypeSchema(name), defs, stack) == TypeSchema(name)
  {
    var node := TypeSchema(name);
    NotSchemaPositions();
    UntouchedKey(node, "type", defs, stack);
    assert NormalizeChildren(node, defs, stack) == node.fields;
  }

  lemma TypeSchemaAccepts(o: Oracle, defs: Fields, seen: seq<string>, name: string, v: Json)
    requires Lawful(o)
    ensures Accepts(o, defs, seen, TypeSchema(name), v) <==> HasType(name, v)
  {
    var s := TypeSchema(name);
    assert Rest(s.fields) == map[];
    assert ItemsOk(o, defs, seen, s, v) && PropertiesOk(o, defs, seen, s, v);
    assert OthersOk(o, defs, seen, s, v) <==> TypeOk(s.fields, v);
  }

  /** An optional field as Pydantic publishes it: the null alternative and a null default
      go, everything else stays. */
  lemma OptionalField(s: Json, notes: Fields, defs: Fields, stack: seq<string>)
    requires Keepable(Normalize(s, defs, stack)) && notes.Keys <= ANNOTATIONS - {"discriminator"}
    ensures var node := Obj(notes["anyOf" := Arr([s, TypeSchema("null")])]);
            var kept := if "default" in notes && notes["default"] == Null then notes - {"default"} else notes;
            Normalize(node, defs, stack) == Obj(Normalize(s, defs, stack).fields + kept)
  {
    var list := Arr([s, TypeSchema("null")]);
    var f := notes["anyOf" := list];
    PlainTypeSchema("null", defs, stack);
    var normalized := NormalizeAll(list, defs, stack);
    assert normalized == [Normalize(s, defs, stack), TypeSchema("null")];
    assert OnlyKept(normalized, 0);
    FirstKeptIsHead(normalized, 0);
    assert normalized[1] in normalized && IsNullSchema(normalized[1]);
    NotAnnotations();
    assert f - COMBINATORS == notes;
    assert !HasRef(f) && RawVariants(f) == list;
  }

  // ------------------------------------------------------- keywords that stay

  /** A reference that cannot be followed stays as it is; one that can gives way to its
      target, whose keywords its own siblings replace. */
  lemma ReferenceSiblings(node: Json, defs: Fields, stack: seq<string>, key: string)
    requires node.Obj? && HasRef(node.fields)
    ensures var f, name, out := node.fields, RefName(node.fields["$ref"].s), Normalize(node, defs, stack);
            if !(name in defs && defs[name] != Null && name !in stack) then out == node
            else
              var target := Normalize(defs[name], defs, stack + [name]);
              && out.Obj? == target.Obj?
              && (!target.Obj? ==> out == target)
              && (target.Obj? && key in f && key != "$ref" ==> key in out.fields && out.fields[key] == f[key])
              && (target.Obj? && (key !in f || key == "$ref") ==>
                    (key in out.fields <==> key in target.fields) &&
                    (key in out.fields ==> out.fields[key] == target.fields[key]))
  {
  }

  /** The siblings of a union stay, except a null default where null was an alternative;
      the union itself, if it is no list, stays too. */
  lemma UnionSiblings(node: Json, defs: Fields, stack: seq<string>, key: string)
    requires node.Obj? && !HasRef(node.fields) && IsUnion(node.fields) && key in node.fields
    ensures var f, out := node.fields, Normalize(node, defs, stack);
            var raw := if "oneOf" in f then f["oneOf"] else f["anyOf"];
            if !raw.Arr? then out == node
            else if key in {"oneOf", "anyOf", "discriminator"} then
              key in out.fields ==> exists s | s in NormalizeAll(raw, defs, stack) :: s.Obj? && key in s.fields
            else if key == "default" && f[key] == Null &&
                    exists s | s in NormalizeAll(raw, defs, stack) :: IsNullSchema(s) then
              key in out.fields ==> exists s | s in NormalizeAll(raw, defs, stack) :: s.Obj? && key in s.fields
            else key in out.fields && out.fields[key] == f[key]
  {
    if RawVariants(node.fields).Arr? && key in {"oneOf", "anyOf", "discriminator", "default"} {
      KeysOfFlattened(NormalizeAll(RawVariants(node.fields), defs, stack), key);
    }
  }

  /** A keyword of the flattened union other than those of a merged object comes from an
      alternative. */
  lemma KeysOfFlattened(normalized: seq<Json>, key: string)
    requires key !in {"type", "properties", "required", "additionalProperties"}
    ensures key in FlattenVariants(normalized) ==> exists s | s in normalized :: s.Obj? && key in s.fields
  {
    var variants := KeptVariants(normalized);
    KeptVariantsElements(normalized);
    MergedVariantsShape(variants);
    if key in FlattenVariants(normalized) {
      assert variants[0] in variants && key in variants[0].fields;
    }
  }

  /** The keywords of a schema that is neither, other than those that hold schemas or a
      constant, stay as they are; an `enum` stays beside a `const`, which goes. */
  lemma PlainSiblings(node: Json, defs: Fields, stack: seq<string>, key: string)
    requires node.Obj? && !HasRef(node.fields) && !IsUnion(node.fields) && key !in SCHEMA_POSITIONS
    ensures var f, out := node.fields, Normalize(node, defs, stack).fields;
            if key == "discriminator" || key == "const" then key !in out
            else if key == "enum" && key !in f && "const" in f then key in out && out[key] == Arr([f["const"]])
            else (key in out <==> key in f) && (key in f ==> out[key] == f[key])
  {
    NotSchemaPositions();
    if key != "discriminator" {
      UntouchedKey(node, key, defs, stack);
    }
    UntouchedKey(node, "const", defs, stack);
    UntouchedKey(node, "enum", defs, stack);
  }

  lemma {:induction false} PropertiesAreExact(o: Oracle, node: Json, defs: Fields, stack: seq<string>, nulls: bool,
                                              v: Json)
    requires Lawful(o) && node.Obj? && OptionalChildren(node, defs, stack, nulls) && (nulls ==> NullFree(v))
    ensures PropertiesOk(o, map[], [], Obj(NormalizeChildren(node, defs, stack)), v) ==
            PropertiesOk(o, defs, stack, node, v)
    decreases |defs.Keys - Elements(stack)|, node, 0
  {
    if v.Obj? {
      var f, g := node.fields, NormalizeChildren(node, defs, stack);
      if "properties" in f {
        NormalizedProperties(node, defs, stack);
      }
      forall name | name in v.fields
        ensures HasObject(f, "properties") && name in f["properties"].fields ==>
                  Accepts(o, map[], [], g["properties"].fields[name], v.fields[name]) ==
                  Accepts(o, defs, stack, f["properties"].fields[name], v.fields[name])
        ensures "additionalProperties" in f ==>
                  Accepts(o, map[], [], g["additionalProperties"], v.fields[name]) ==
                  Accepts(o, defs, stack, f["additionalProperties"], v.fields[name])
      {
        if HasObject(f, "properties") && name in f["properties"].fields {
          InliningIsExact(o, f["properties"].fields[name], defs, stack, nulls, v.fields[name]);
        }
        if "additionalProperties" in f {
          NormalizedChild(node, "additionalProperties", defs, stack);
          InliningIsExact(o, f["additionalProperties"], defs, stack, nulls, v.fields[name]);
        }
      }
    }
  }

  lemma {:induction false} ItemsAreExact(o: Oracle, node: Json, defs: Fields, stack: seq<string>, nulls: bool,
                                         v: Json)
    requires Lawful(o) && node.Obj? && OptionalChildren(node, defs, stack, nulls) && (nulls ==> NullFree(v))
    ensures ItemsOk(o, map[], [], Obj(NormalizeChildren(node, defs, stack)), v) == ItemsOk(o, defs, stack, node, v)
    decreases |defs.Keys - Elements(stack)|, node, 0
  {
    if v.Arr? {
      var f, g := node.fields, NormalizeChildren(node, defs, stack);
      var prefix := ListAt(f, "prefixItems");
      NormalizedPrefix(node, defs, stack);
      forall i | 0 <= i < |prefix| && i < |v.items|
        ensures Accepts(o, map[], [], ListAt(g, "prefixItems")[i], v.items[i]) ==
                Accepts(o, defs, stack, prefix[i], v.items[i])
      {
        InliningIsExact(o, prefix[i], defs, stack, nulls, v.items[i]);
      }
      SubschemaIsExact(o, node, "items", defs, stack, nulls, v);
      SubschemaIsExact(o, node, "contains", defs, stack, nulls, v);
    }
  }

  lemma {:induction false} SubschemaIsExact(o: Oracle, node: Json, key: string, defs: Fields, stack: seq<string>,
                                            nulls: bool, v: Json)
    requires Lawful(o) && node.Obj? && OptionalChildren(node, defs, stack, nulls) && (nulls ==> NullFree(v)) && v.Arr?
    requires key == "items" || key == "contains"
    ensures var f, g := node.fields, NormalizeChildren(node, defs, stack);
            && (key in g <==> key in f)
            && (key in f ==> forall i | 0 <= i < |v.items| ::
                  Accepts(o, map[], [], g[key], v.items[i]) == Accepts(o, defs, stack, f[key], v.items[i]))
    decreases |defs.Keys - Elements(stack)|, node, 0, 0
  {
    var f, g := node.fields, NormalizeChildren(node, defs, stack);
    if key in f {
      NormalizedChild(node, key, defs, stack);
      forall i | 0 <= i < |v.items|
        ensures Accepts(o, map[], [], g[key], v.items[i]) == Accepts(o, defs, stack, f[key], v.items[i])
      {
        InliningIsExact(o, f[key], defs, stack, nulls, v.items[i]);
      }
    }
  }

  lemma {:induction false} ChildrenAreExact(o: Oracle, node: Json, defs: Fields, stack: seq<string>, nulls: bool,
                                            v: Json)
    requires Lawful(o) && OptionalOnly(node, defs, stack, nulls) && (nulls ==> NullFree(v))
    requires node.Obj? && !HasRef(node.fields) && !IsUnion(node.fields)
    ensures Same(o, node, defs, stack, v)
    decreases |defs.Keys - Elements(stack)|, node, 1
  {
    var g := NormalizeChildren(node, defs, stack);
    PropertiesAreExact(o, node, defs, stack, nulls, v);
    ItemsAreExact(o, node, defs, stack, nulls, v);
    KeywordsAreExact(o, node, defs, stack, v);
    NotSchemaPositions();
    UntouchedKey(node, "const", defs, stack);
    UntouchedKey(node, "enum", defs, stack);
    ConstIsOneValueEnum(o, g, v);
  }

  lemma KeywordsAreExact(o: Oracle, node: Json, defs: Fields, stack: seq<string>, v: Json)
    requires node.Obj? && !HasRef(node.fields) && !IsUnion(node.fields)
    requires ItemsOk(o, map[], [], Obj(NormalizeChildren(node, defs, stack)), v) == ItemsOk(o, defs, stack, node, v)
    ensures var g := NormalizeChildren(node, defs, stack);
            && OthersOk(o, map[], [], Obj(g), v) == OthersOk(o, defs, stack, node, v)
            && EnumOk(g, v) == EnumOk(node.fields, v) && RequiredOk(g, v) == RequiredOk(node.fields, v)
  {
    KeywordsAreKept(node, defs, stack);
  }

  lemma KeywordsAreKept(node: Json, defs: Fields, stack: seq<string>)
    requires node.Obj? && !HasRef(node.fields) && !IsUnion(node.fields)
    ensures var f, g := node.fields, NormalizeChildren(node, defs, stack);
            && !HasRef(g) && "oneOf" !in g && "anyOf" !in g && Rest(g) == Rest(f)
            && KeptKey(f, g, "type") && KeptKey(f, g, "const") && KeptKey(f, g, "enum") && KeptKey(f, g, "required")
  {
    var f, g := node.fields, NormalizeChildren(node, defs, stack);
    forall key | key != "discriminator" && key !in SCHEMA_POSITIONS
      ensures key in g <==> key in f
      ensures key in f ==> g[key] == f[key]
    {
      UntouchedKey(node, key, defs, stack);
    }
    RestUntouched(f, g);
    NotSchemaPositions();
  }

  predicate KeptKey(f: Fields, g: Fields, key: string) {
    (key in g <==> key in f) && (key in f ==> g[key] == f[key])
  }

  /** `const` and the `enum` of that one value accept the same. */
  lemma ConstIsOneValueEnum(o: Oracle, f: Fields, v: Json)
    requires !("const" in f && "enum" in f)
    ensures Accepts(o, map[], [], Obj(ConstToEnum(f)), v) == Accepts(o, map[], [], Obj(f), v)
  {
    if "const" in f {
      var g := ConstToEnum(f);
      SamePropertiesOk(o, map[], [], f, g, v);
      assert Others(g) == Others(f - {"const"});
      SameOthersOk(o, map[], [], Obj(g), Obj(f - {"const"}), v);
      WithoutConst(o, f, v);
      assert RequiredOk(g, v) == RequiredOk(f, v);
    }
  }

  lemma WithoutConst(o: Oracle, f: Fields, v: Json)
    requires "const" in f
    ensures OthersOk(o, map[], [], Obj(f), v) <==> OthersOk(o, map[], [], Obj(f - {"const"}), v) && v == f["const"]
  {
    var g := f - {"const"};
    assert Rest(g) == Rest(f);
    assert RefOk(o, map[], [], Obj(g), v) == RefOk(o, map[], [], Obj(f), v);
    assert ItemsOk(o, map[], [], Obj(g), v) == ItemsOk(o, map[], [], Obj(f), v);
  }
}
