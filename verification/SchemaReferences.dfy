/** References and combinators in the normalized schema: what is inlined away,
    which definitions are kept, and why no reference is left dangling. */
module SchemaReferences {
  import opened Options
  import opened JsonValues
  import opened SchemaNormalizer
  import opened SchemaAcceptance
  import opened SchemaFlattening

  const FLATTENED: set<string> := {"$ref", "oneOf", "anyOf", "discriminator", "const"}

  // ------------------------------------------------------- combinator freedom

  /** None of the given keywords in any schema position. */
  predicate Free(s: Json, banned: set<string>)
    decreases s, 1
  {
    s.Obj? ==> s.fields.Keys !! banned && FreeTable(s, banned) && FreeSubschemas(s, banned) && FreePrefix(s, banned)
  }

  /** No flattened keyword in any schema position. */
  predicate Plain(s: Json) {
    Free(s, FLATTENED)
  }

  predicate FreeTable(s: Json, banned: set<string>)
    requires s.Obj?
    decreases s, 0
  {
    HasObject(s.fields, "properties") ==>
      forall name | name in s.fields["properties"].fields :: Free(s.fields["properties"].fields[name], banned)
  }

  predicate FreeSubschemas(s: Json, banned: set<string>)
    requires s.Obj?
    decreases s, 0
  {
    forall key | key in SUBSCHEMA_KEYS && key in s.fields :: Free(s.fields[key], banned)
  }

  predicate FreePrefix(s: Json, banned: set<string>)
    requires s.Obj?
    decreases s, 0
  {
    HasList(s.fields, "prefixItems") ==>
      forall i | 0 <= i < |s.fields["prefixItems"].items| :: Free(s.fields["prefixItems"].items[i], banned)
  }

  type Rank = map<string, nat>

  /** Every reference in a schema position names a definition of lower rank, and
      the siblings of references and unions are annotations. */
  predicate Inlinable(node: Json, defs: Fields, rank: Rank, bound: nat)
    decreases node, 1
  {
    node.Obj? ==>
      var f := node.fields;
      if "$ref" in f then
        && f["$ref"].Str?
        && f.Keys - {"$ref"} <= ANNOTATIONS - {"discriminator"}
        && var name := RefName(f["$ref"].s); name in defs && defs[name] != Null && name in rank && rank[name] < bound
      else if IsUnion(f) then
        && f.Keys - {"oneOf", "anyOf"} <= ANNOTATIONS
        && RawVariants(f).Arr?
        && forall i | 0 <= i < |RawVariants(f).items| :: Inlinable(RawVariants(f).items[i], defs, rank, bound)
      else InlinableChildren(node, defs, rank, bound)
  }

  predicate InlinableChildren(node: Json, defs: Fields, rank: Rank, bound: nat)
    requires node.Obj?
    decreases node, 0
  {
    var f := node.fields;
    && (HasObject(f, "properties") ==>
          forall name | name in f["properties"].fields :: Inlinable(f["properties"].fields[name], defs, rank, bound))
    && (forall key | key in SUBSCHEMA_KEYS && key in f :: Inlinable(f[key], defs, rank, bound))
    && (HasList(f, "prefixItems") ==>
          forall i | 0 <= i < |f["prefixItems"].items| :: Inlinable(f["prefixItems"].items[i], defs, rank, bound))
  }

  /** The definition table is acyclic: references go down in rank. */
  predicate Acyclic(defs: Fields, rank: Rank) {
    forall name | name in defs && name in rank :: Inlinable(defs[name], defs, rank, rank[name])
  }

  lemma PositionsAreNotAnnotations()
    ensures SCHEMA_POSITIONS !! ANNOTATIONS && FLATTENED * ANNOTATIONS == {"discriminator"}
    ensures "properties" in SCHEMA_POSITIONS && "prefixItems" in SCHEMA_POSITIONS
  {
  }

  lemma FreeAnnotated(f: Fields, notes: Fields, banned: set<string>)
    requires Free(Obj(f), banned) && notes.Keys <= ANNOTATIONS && notes.Keys !! banned
    ensures Free(Obj(f + notes), banned)
  {
    PositionsAreNotAnnotations();
    SamePositionsFree(f, f + notes, banned);
  }

  lemma SamePositionsFree(f: Fields, g: Fields, banned: set<string>)
    requires Free(Obj(f), banned) && g.Keys !! banned
    requires forall key | key in SCHEMA_POSITIONS :: (key in g <==> key in f)
    requires forall key | key in SCHEMA_POSITIONS && key in f :: g[key] == f[key]
    ensures Free(Obj(g), banned)
  {
    assert "properties" in SCHEMA_POSITIONS && "prefixItems" in SCHEMA_POSITIONS;
    assert FreeTable(Obj(g), banned) && FreeSubschemas(Obj(g), banned) && FreePrefix(Obj(g), banned);
  }

  /** A subschema of a merge comes unchanged from one of the two sides. */
  lemma MergedPosition(l: Json, r: Json, key: string)
    requires l != r && l.Obj? && r.Obj? && key in SUBSCHEMA_KEYS + {"prefixItems"}
    requires key in MergeProperty(l, r).fields
    ensures var value := MergeProperty(l, r).fields[key];
            (key in l.fields && value == l.fields[key]) || (key in r.fields && value == r.fields[key])
  {
    assert MergeProperty(l, r).fields[key] == MergedValue(l, r, key);
  }

  lemma {:induction false} FreeMerge(l: Json, r: Json, banned: set<string>)
    requires Free(l, banned) && Free(r, banned)
    ensures Free(MergeProperty(l, r), banned)
    decreases l, 1
  {
    if l != r && l.Obj? && r.Obj? {
      var m := MergeProperty(l, r);
      assert m.fields.Keys <= l.fields.Keys + r.fields.Keys;
      assert m.fields.Keys !! banned;
      assert FreeSubschemas(m, banned) by {
        forall key | key in SUBSCHEMA_KEYS && key in m.fields ensures Free(m.fields[key], banned) {
          MergedPosition(l, r, key);
        }
      }
      assert FreePrefix(m, banned) by {
        if "prefixItems" in m.fields {
          MergedPosition(l, r, "prefixItems");
        }
      }
      FreeMergedTable(l, r, banned);
    }
  }

  lemma {:induction false} FreeMergedTable(l: Json, r: Json, banned: set<string>)
    requires l != r && l.Obj? && r.Obj? && FreeTable(l, banned) && FreeTable(r, banned)
    ensures FreeTable(MergeProperty(l, r), banned)
    decreases l, 0
  {
    var m := MergeProperty(l, r);
    if "properties" in m.fields {
      assert m.fields["properties"] == MergedValue(l, r, "properties");
      if HasObject(l.fields, "properties") && HasObject(r.fields, "properties") {
        FreeMergedTables(l.fields["properties"], r.fields["properties"], banned);
      }
    }
  }

  lemma {:induction false} FreeMergedTables(l: Json, r: Json, banned: set<string>)
    requires l.Obj? && r.Obj?
    requires forall name | name in l.fields :: Free(l.fields[name], banned)
    requires forall name | name in r.fields :: Free(r.fields[name], banned)
    ensures forall name | name in MergeProperties(l, r) :: Free(MergeProperties(l, r)[name], banned)
    decreases l, 0
  {
    forall name | name in l.fields && name in r.fields
      ensures Free(MergeProperty(l.fields[name], r.fields[name]), banned)
    {
      FreeMerge(l.fields[name], r.fields[name], banned);
    }
  }

  lemma {:induction false} FreeFold(variants: seq<Json>, banned: set<string>)
    requires forall v | v in variants :: Free(v, banned)
    ensures forall name | name in FoldedProperties(variants) :: Free(FoldedProperties(variants)[name], banned)
  {
    if variants == [] {
    } else {
      var n := |variants| - 1;
      FreeFold(variants[..n], banned);
      assert Free(variants[n], banned) && (variants[n].Obj? ==> FreeTable(variants[n], banned));
      FreeMergedTables(Obj(FoldedProperties(variants[..n])), PropertyTable(variants[n]), banned);
    }
  }

  lemma ObjectKeywordsArePlain(keys: set<string>)
    requires keys <= {"type", "properties", "required", "additionalProperties"}
    ensures keys !! FLATTENED && "items" !in keys && "contains" !in keys && "prefixItems" !in keys
  {
  }

  lemma FreeVariants(variants: seq<Json>, banned: set<string>)
    requires banned <= FLATTENED && forall v | v in variants :: Free(v, banned)
    ensures Free(Obj(MergeVariants(variants)), banned)
  {
    var s := Obj(MergeVariants(variants));
    MergedVariantsShape(variants);
    ObjectKeywordsArePlain(s.fields.Keys);
    assert FreeTable(s, banned) by {
      FreeFold(variants, banned);
    }
    assert FreeSubschemas(s, banned);
  }

  lemma FreeFlattened(normalized: seq<Json>, banned: set<string>)
    requires banned <= FLATTENED && forall v | v in normalized :: Free(v, banned)
    ensures Free(Obj(FlattenVariants(normalized)), banned)
  {
    var variants := KeptVariants(normalized);
    KeptVariantsElements(normalized);
    if variants != [] {
      assert variants[0] in variants;
      FreeVariants(variants, banned);
    }
  }

  lemma FreeUnion(f: Fields, normalized: seq<Json>, banned: set<string>)
    requires banned <= FLATTENED && f.Keys - {"oneOf", "anyOf"} <= ANNOTATIONS
    requires forall v | v in normalized :: Free(v, banned)
    ensures Free(Obj(FlattenUnion(f, normalized)), banned)
  {
    PositionsAreNotAnnotations();
    FreeFlattened(normalized, banned);
    FreeAnnotated(FlattenVariants(normalized), UnionWrapper(f, Nullable(normalized)), banned);
  }

  /** Normalizing a schema over acyclic definitions leaves no `$ref`, `oneOf`,
      `anyOf`, `discriminator` or `const` in any schema position. */
  lemma {:induction false} NormalizePlain(node: Json, defs: Fields, stack: seq<string>, rank: Rank, bound: nat)
    requires Acyclic(defs, rank) && Inlinable(node, defs, rank, bound)
    requires forall name | name in stack :: name in rank && bound <= rank[name]
    ensures Plain(Normalize(node, defs, stack))
    decreases |defs.Keys - Elements(stack)|, node, 1
  {
    if node.Obj? {
      var f := node.fields;
      if "$ref" in f {
        var name := RefName(f["$ref"].s);
        StackGrows(defs, stack, name);
        NormalizePlain(defs[name], defs, stack + [name], rank, rank[name]);
        var resolved := Normalize(defs[name], defs, stack + [name]);
        if resolved.Obj? {
          PositionsAreNotAnnotations();
          FreeAnnotated(resolved.fields, f - {"$ref"}, FLATTENED);
        }
      } else if IsUnion(f) {
        var raw := RawVariants(f);
        forall i | 0 <= i < |raw.items| ensures Plain(NormalizeAll(raw, defs, stack)[i]) {
          NormalizePlain(raw.items[i], defs, stack, rank, bound);
        }
        FreeUnion(f, NormalizeAll(raw, defs, stack), FLATTENED);
      } else {
        NormalizeChildrenPlain(node, defs, stack, rank, bound);
      }
    }
  }

  lemma {:induction false} NormalizeChildrenPlain(node: Json, defs: Fields, stack: seq<string>, rank: Rank, bound: nat)
    requires Acyclic(defs, rank) && node.Obj? && InlinableChildren(node, defs, rank, bound)
    requires "$ref" !in node.fields && !IsUnion(node.fields)
    requires forall name | name in stack :: name in rank && bound <= rank[name]
    ensures Plain(Obj(ConstToEnum(NormalizeChildren(node, defs, stack))))
    decreases |defs.Keys - Elements(stack)|, node, 0
  {
    var f, g := node.fields, Obj(NormalizeChildren(node, defs, stack));
    assert FreeSubschemas(g, FLATTENED) by {
      forall key | key in SUBSCHEMA_KEYS && key in g.fields ensures Plain(g.fields[key]) {
        NormalizedChild(node, key, defs, stack);
        NormalizePlain(f[key], defs, stack, rank, bound);
      }
    }
    assert FreeTable(g, FLATTENED) by {
      if HasObject(f, "properties") {
        forall name | name in f["properties"].fields
          ensures Plain(Normalize(f["properties"].fields[name], defs, stack))
        {
          NormalizePlain(f["properties"].fields[name], defs, stack, rank, bound);
        }
      }
      if "properties" in f {
        NormalizedProperties(node, defs, stack);
      }
    }
    assert FreePrefix(g, FLATTENED) by {
      var prefix := ListAt(f, "prefixItems");
      NormalizedPrefix(node, defs, stack);
      forall i | 0 <= i < |prefix| ensures Plain(Normalize(prefix[i], defs, stack)) {
        NormalizePlain(prefix[i], defs, stack, rank, bound);
      }
    }
    FreeConstToEnum(g.fields, FLATTENED);
  }

  lemma FreeConstToEnum(f: Fields, banned: set<string>)
    requires banned <= FLATTENED && f.Keys !! banned - {"const"}
    requires FreeTable(Obj(f), banned) && FreeSubschemas(Obj(f), banned) && FreePrefix(Obj(f), banned)
    ensures Free(Obj(ConstToEnum(f)), banned)
  {
    var g := ConstToEnum(f);
    assert g.Keys !! banned;
    assert forall key | key in SCHEMA_POSITIONS :: (key in g <==> key in f) && (key in f ==> g[key] == f[key]);
    assert "properties" in SCHEMA_POSITIONS && "prefixItems" in SCHEMA_POSITIONS;
    assert FreeTable(Obj(g), banned) && FreeSubschemas(Obj(g), banned) && FreePrefix(Obj(g), banned);
  }

  // --------------------------------------------------------- reference names

  /** Every reference name inside a document, in any position. */
  function RefNames(node: Json): set<string> {
    match node
    case Obj(f) =>
      (if HasRef(f) then {RefName(f["$ref"].s)} else {}) +
      (set key, name | key in f && name in RefNames(f[key]) :: name)
    case Arr(items) => set i, name | 0 <= i < |items| && name in RefNames(items[i]) :: name
    case _ => {}
  }

  /** The name is the part of the reference after its last slash, or all of it. */
  predicate EndsIn(ref: string, name: string) {
    && '/' !in name && |name| <= |ref| && ref[|ref| - |name|..] == name
    && (|name| == |ref| || ref[|ref| - |name| - 1] == '/')
  }

  lemma EndsInNothing(ref: string)
    requires ref == "" || ref[|ref| - 1] == '/'
    ensures EndsIn(ref, "")
  {
    assert ref[|ref|..] == "";
  }

  lemma {:induction false} RefNameEnds(ref: string)
    ensures EndsIn(ref, RefName(ref))
  {
    if ref == "" || ref[|ref| - 1] == '/' {
      EndsInNothing(ref);
    } else {
      var init, c := ref[..|ref| - 1], ref[|ref| - 1];
      RefNameEnds(init);
      EndsLater(init, RefName(init), c);
      assert init + [c] == ref && RefName(ref) == RefName(init) + [c];
    }
  }

  lemma EndsLater(ref: string, name: string, c: char)
    requires EndsIn(ref, name) && c != '/'
    ensures EndsIn(ref + [c], name + [c])
  {
    var longer, n := ref + [c], |ref| - |name|;
    assert longer[n..] == ref[n..] + [c];
  }

  lemma LongerHasSlash(ref: string, a: string, b: string)
    requires EndsIn(ref, a) && |a| < |b| <= |ref| && ref[|ref| - |b|..] == b
    ensures '/' in b
  {
    assert b[|b| - |a| - 1] == ref[|ref| - |a| - 1];
  }

  lemma RefNameIff(ref: string, name: string)
    ensures RefName(ref) == name <==> EndsIn(ref, name)
  {
    RefNameEnds(ref);
    if EndsIn(ref, name) {
      if |name| < |RefName(ref)| {
        LongerHasSlash(ref, name, RefName(ref));
      } else if |RefName(ref)| < |name| {
        LongerHasSlash(ref, RefName(ref), name);
      }
    }
  }

  datatype Step = Under(key: string) | Item(i: nat)

  /** The document at a position. */
  function At(node: Json, path: seq<Step>): Option<Json> {
    if path == [] then Some(node)
    else
      match path[0]
      case Under(key) => if node.Obj? && key in node.fields then At(node.fields[key], path[1..]) else None
      case Item(i) => if node.Arr? && i < |node.items| then At(node.items[i], path[1..]) else None
  }

  /** There is an object at the position with a `$ref` to that name. */
  predicate RefersAt(node: Json, path: seq<Step>, name: string) {
    var found := At(node, path);
    && found.Some? && found.value.Obj? && "$ref" in found.value.fields && found.value.fields["$ref"].Str?
    && EndsIn(found.value.fields["$ref"].s, name)
  }

  /** The collected names are those of the references at any position. */
  lemma RefNamesIff(node: Json, name: string)
    ensures name in RefNames(node) <==> exists path :: RefersAt(node, path, name)
  {
    if name in RefNames(node) {
      var path := FindReference(node, name);
    }
    if path :| RefersAt(node, path, name) {
      ReferenceFound(node, path, name);
    }
  }

  lemma {:induction false} FindReference(node: Json, name: string) returns (path: seq<Step>)
    requires name in RefNames(node)
    ensures RefersAt(node, path, name)
  {
    if node.Obj? && HasRef(node.fields) && RefName(node.fields["$ref"].s) == name {
      RefNameIff(node.fields["$ref"].s, name);
      path := [];
    } else if node.Obj? {
      var key :| key in node.fields && name in RefNames(node.fields[key]);
      var rest := FindReference(node.fields[key], name);
      path := [Under(key)] + rest;
      assert path[1..] == rest;
    } else {
      var i :| 0 <= i < |node.items| && name in RefNames(node.items[i]);
      var rest := FindReference(node.items[i], name);
      path := [Item(i)] + rest;
      assert path[1..] == rest;
    }
  }

  lemma {:induction false} ReferenceFound(node: Json, path: seq<Step>, name: string)
    requires RefersAt(node, path, name)
    ensures name in RefNames(node)
    decreases |path|
  {
    if path == [] {
      RefNameIff(node.fields["$ref"].s, name);
    } else {
      match path[0]
      case Under(key) => ReferenceFound(node.fields[key], path[1..], name);
      case Item(i) => ReferenceFound(node.items[i], path[1..], name);
    }
  }

  /** `names` is closed under the references of the definitions it contains. */
  predicate Closed(defs: Fields, names: set<string>) {
    forall name | name in names && name in defs :: RefNames(defs[name]) <= names
  }

  predicate Within(node: Json, names: set<string>) {
    RefNames(node) <= names
  }

  lemma WithinFields(f: Fields, names: set<string>)
    ensures Within(Obj(f), names) <==>
            (HasRef(f) ==> RefName(f["$ref"].s) in names) && forall key | key in f :: Within(f[key], names)
  {
    if Within(Obj(f), names) {
      forall key | key in f ensures Within(f[key], names) {
        assert forall name | name in RefNames(f[key]) :: name in RefNames(Obj(f));
      }
    }
  }

  lemma WithinItems(items: seq<Json>, names: set<string>)
    ensures Within(Arr(items), names) <==> forall x | x in items :: Within(x, names)
  {
    if Within(Arr(items), names) {
      forall i | 0 <= i < |items| ensures Within(items[i], names) {
        assert forall name | name in RefNames(items[i]) :: name in RefNames(Arr(items));
      }
    }
    if forall x | x in items :: Within(x, names) {
      forall name | name in RefNames(Arr(items)) ensures name in names {
        var i :| 0 <= i < |items| && name in RefNames(items[i]);
        assert Within(items[i], names);
      }
    }
  }

  lemma WithinListAt(f: Fields, key: string, names: set<string>)
    requires Within(Obj(f), names)
    ensures forall x | x in ListAt(f, key) :: Within(x, names)
  {
    WithinFields(f, names);
    if HasList(f, key) {
      WithinItems(f[key].items, names);
    }
  }

  /** Merging introduces no reference. */
  lemma {:induction false} MergeWithin(l: Json, r: Json, names: set<string>)
    requires Within(l, names) && Within(r, names)
    ensures Within(MergeProperty(l, r), names)
    decreases l, 2
  {
    if l != r && l.Obj? && r.Obj? {
      var m := MergeProperty(l, r).fields;
      WithinFields(l.fields, names);
      WithinFields(r.fields, names);
      forall key | key in m ensures Within(m[key], names) {
        MergedValueWithin(l, r, key, names);
      }
      WithinFields(m, names);
    }
  }

  lemma {:induction false} MergedValueWithin(l: Json, r: Json, key: string, names: set<string>)
    requires l.Obj? && r.Obj? && Within(l, names) && Within(r, names)
    requires KeepsKey(l.fields, r.fields, key)
    ensures Within(MergedValue(l, r, key), names)
    decreases l, 1
  {
    WithinFields(l.fields, names);
    WithinFields(r.fields, names);
    if key == "required" {
      WithinListAt(l.fields, key, names);
      CommonIsIntersection(ListAt(l.fields, key), ListAt(r.fields, key));
      WithinItems(CommonRequired(l.fields, r.fields), names);
    } else if key == "enum" && HasList(l.fields, key) && HasList(r.fields, key) {
      WithinListAt(l.fields, key, names);
      WithinListAt(r.fields, key, names);
      var both := l.fields[key].items + r.fields[key].items;
      DedupeKeepsElements(both);
      WithinItems(Dedupe(both), names);
    } else if key == "properties" && HasObject(l.fields, key) && HasObject(r.fields, key) {
      MergedTablesWithin(l.fields[key], r.fields[key], names);
    }
  }

  lemma {:induction false} MergedTablesWithin(l: Json, r: Json, names: set<string>)
    requires l.Obj? && r.Obj? && Within(l, names) && Within(r, names)
    ensures Within(Obj(MergeProperties(l, r)), names)
    decreases l, 0
  {
    var m := MergeProperties(l, r);
    WithinFields(l.fields, names);
    WithinFields(r.fields, names);
    forall name | name in m ensures Within(m[name], names) {
      if name in l.fields && name in r.fields {
        MergeWithin(l.fields[name], r.fields[name], names);
      }
    }
    WithinFields(m, names);
  }

  lemma {:induction false} FoldWithin(variants: seq<Json>, names: set<string>)
    requires forall v | v in variants :: Within(v, names)
    ensures Within(Obj(FoldedProperties(variants)), names)
  {
    if variants == [] {
    } else {
      var n := |variants| - 1;
      FoldWithin(variants[..n], names);
      assert Within(variants[n], names);
      if variants[n].Obj? {
        WithinFields(variants[n].fields, names);
      }
      MergedTablesWithin(Obj(FoldedProperties(variants[..n])), PropertyTable(variants[n]), names);
    }
  }

  lemma VariantsWithin(variants: seq<Json>, names: set<string>)
    requires forall v | v in variants :: Within(v, names)
    ensures Within(Obj(MergeVariants(variants)), names)
  {
    var m, required := MergeVariants(variants), RequiredEverywhere(Dedupe(AllRequired(variants)), variants);
    FoldWithin(variants, names);
    RequiredEverywhereElements(Dedupe(AllRequired(variants)), variants);
    WithinItems(required, names);
    ObjectKeywords();
    forall key | key in m ensures Within(m[key], names) {
      assert m[key] in {Str("object"), Obj(FoldedProperties(variants)), Arr(required), Bool(false)};
    }
    MergedVariantsShape(variants);
    ObjectKeywordsArePlain(m.Keys);
    WithinFields(m, names);
  }

  lemma UpdateWithin(f: Fields, g: Fields, names: set<string>)
    requires Within(Obj(f), names) && Within(Obj(g), names)
    ensures Within(Obj(f + g), names)
  {
    WithinFields(f, names);
    WithinFields(g, names);
    WithinFields(f + g, names);
  }

  lemma RemoveWithin(f: Fields, keys: set<string>, names: set<string>)
    requires Within(Obj(f), names)
    ensures Within(Obj(f - keys), names)
  {
    WithinFields(f, names);
    WithinFields(f - keys, names);
  }

  lemma FlattenedWithin(normalized: seq<Json>, names: set<string>)
    requires forall v | v in normalized :: Within(v, names)
    ensures Within(Obj(FlattenVariants(normalized)), names)
  {
    var variants := KeptVariants(normalized);
    KeptVariantsElements(normalized);
    if variants == [] {
      WithinFields(FlattenVariants(normalized), names);
    } else {
      VariantsWithin(variants, names);
      assert variants[0] in variants && variants[0].Obj?;
    }
  }

  lemma WrapperWithin(f: Fields, nullable: bool, names: set<string>)
    requires Within(Obj(f), names)
    ensures Within(Obj(UnionWrapper(f, nullable)), names)
  {
    RemoveWithin(f, COMBINATORS, names);
    RemoveWithin(f - COMBINATORS, {"default"}, names);
  }

  lemma UnionWithin(f: Fields, normalized: seq<Json>, names: set<string>)
    requires Within(Obj(f), names)
    requires forall v | v in normalized :: Within(v, names)
    ensures Within(Obj(FlattenUnion(f, normalized)), names)
  {
    FlattenedWithin(normalized, names);
    WrapperWithin(f, Nullable(normalized), names);
    UpdateWithin(FlattenVariants(normalized), UnionWrapper(f, Nullable(normalized)), names);
  }

  /** A definition with a slash in its name cannot be referred to. */
  predicate Referable(name: string) {
    RefName(name) == name
  }

  lemma {:induction false} RefNamesAreReferable(ref: string)
    ensures Referable(RefName(ref))
  {
    if ref != "" && ref[|ref| - 1] != '/' {
      var n := |ref| - 1;
      RefNamesAreReferable(ref[..n]);
      assert RefName(ref)[..|RefName(ref)| - 1] == RefName(ref[..n]);
    }
  }

  /** A definition that is a text would, inlined under a property named `$ref`, read as
      a reference: to one of these names. */
  predicate TextsWithin(defs: Fields, names: set<string>) {
    forall name | name in defs && Referable(name) && defs[name].Str? :: RefName(defs[name].s) in names
  }

  lemma {:induction false} NormalizedText(node: Json, defs: Fields, stack: seq<string>, names: set<string>)
    requires TextsWithin(defs, names)
    ensures var n := Normalize(node, defs, stack); n.Str? ==> node.Str? || RefName(n.s) in names
    decreases |defs.Keys - Elements(stack)|
  {
    if node.Obj? && HasRef(node.fields) {
      var name := RefName(node.fields["$ref"].s);
      RefNamesAreReferable(node.fields["$ref"].s);
      if Resolvable(name, defs, stack) {
        StackGrows(defs, stack, name);
        NormalizedText(defs[name], defs, stack + [name], names);
      }
    }
  }

  /** Normalizing introduces no reference from outside a closed set of names. */
  lemma {:induction false} NormalizeWithin(node: Json, defs: Fields, stack: seq<string>, names: set<string>)
    requires TextsWithin(defs, names) && Closed(defs, names) && Within(node, names)
    ensures Within(Normalize(node, defs, stack), names)
    decreases |defs.Keys - Elements(stack)|, node, 2
  {
    if node.Obj? {
      var f := node.fields;
      WithinFields(f, names);
      if HasRef(f) {
        var name := RefName(f["$ref"].s);
        if Resolvable(name, defs, stack) {
          StackGrows(defs, stack, name);
          NormalizeWithin(defs[name], defs, stack + [name], names);
          var resolved := Normalize(defs[name], defs, stack + [name]);
          if resolved.Obj? {
            WithinFields(resolved.fields, names);
            WithinFields(resolved.fields + (f - {"$ref"}), names);
          }
        }
      } else if IsUnion(f) {
        var raw := RawVariants(f);
        if raw.Arr? {
          NormalizeAllWithin(raw, defs, stack, names);
          UnionWithin(f, NormalizeAll(raw, defs, stack), names);
        }
      } else {
        NormalizeChildrenWithin(node, defs, stack, names);
      }
    }
  }

  lemma {:induction false} NormalizeAllWithin(list: Json, defs: Fields, stack: seq<string>, names: set<string>)
    requires TextsWithin(defs, names) && Closed(defs, names) && list.Arr? && Within(list, names)
    ensures forall v | v in NormalizeAll(list, defs, stack) :: Within(v, names)
    ensures Within(Arr(NormalizeAll(list, defs, stack)), names)
    decreases |defs.Keys - Elements(stack)|, list, 0
  {
    WithinItems(list.items, names);
    forall i | 0 <= i < |list.items| ensures Within(NormalizeAll(list, defs, stack)[i], names) {
      NormalizeWithin(list.items[i], defs, stack, names);
    }
    WithinItems(NormalizeAll(list, defs, stack), names);
  }

  lemma {:induction false} NormalizeChildrenWithin(node: Json, defs: Fields, stack: seq<string>, names: set<string>)
    requires TextsWithin(defs, names) && Closed(defs, names) && node.Obj? && !HasRef(node.fields) && Within(node, names)
    ensures Within(Obj(ConstToEnum(NormalizeChildren(node, defs, stack))), names)
    decreases |defs.Keys - Elements(stack)|, node, 1
  {
    var g := NormalizeChildren(node, defs, stack);
    WithinFields(node.fields, names);
    forall key | key in g ensures Within(g[key], names) {
      NormalizeChildWithin(node, key, defs, stack, names);
      assert g[key] == NormalizeChild(node, key, defs, stack);
    }
    if "$ref" in g {
      assert g["$ref"] == NormalizeChild(node, "$ref", defs, stack);
    }
    WithinFields(g, names);
    ConstToEnumWithin(g, names);
  }

  lemma ConstToEnumWithin(g: Fields, names: set<string>)
    requires Within(Obj(g), names)
    ensures Within(Obj(ConstToEnum(g)), names)
  {
    WithinFields(g, names);
    if "const" in g {
      WithinItems([g["const"]], names);
    }
    WithinFields(ConstToEnum(g), names);
  }

  lemma {:induction false} NormalizeChildWithin(node: Json, key: string, defs: Fields, stack: seq<string>,
                                                names: set<string>)
    requires TextsWithin(defs, names) && Closed(defs, names) && node.Obj? && key in node.fields && Within(node, names)
    ensures Within(NormalizeChild(node, key, defs, stack), names)
    decreases |defs.Keys - Elements(stack)|, node, 0
  {
    WithinFields(node.fields, names);
    var value := node.fields[key];
    if key == "properties" && value.Obj? {
      WithinFields(value.fields, names);
      var q := NormalizeChild(node, key, defs, stack).fields;
      forall name | name in value.fields ensures Within(q[name], names) {
        NormalizeWithin(value.fields[name], defs, stack, names);
      }
      if "$ref" in value.fields {
        NormalizedText(value.fields["$ref"], defs, stack, names);
      }
      WithinFields(q, names);
    } else if key in SUBSCHEMA_KEYS && value.Obj? {
      NormalizeWithin(value, defs, stack, names);
    } else if key == "prefixItems" && value.Arr? {
      NormalizeAllWithin(value, defs, stack, names);
    }
  }

  // ---------------------------------------------------- pruning definitions

  /** A chain of references from `roots` down to `name`, all of it defined. */
  predicate IsReferenceChain(defs: Fields, roots: set<string>, chain: seq<string>, name: string) {
    && chain != [] && chain[0] in roots && chain[|chain| - 1] == name
    && (forall i | 0 <= i < |chain| :: chain[i] in defs)
    && (forall i | 0 <= i < |chain| - 1 :: chain[i + 1] in RefNames(defs[chain[i]]))
  }

  ghost predicate Reachable(defs: Fields, roots: set<string>, name: string) {
    exists chain :: IsReferenceChain(defs, roots, chain, name)
  }

  lemma ReachableStep(defs: Fields, roots: set<string>, name: string, next: string)
    requires Reachable(defs, roots, name) && name in defs && next in defs && next in RefNames(defs[name])
    ensures Reachable(defs, roots, next)
  {
    var chain :| IsReferenceChain(defs, roots, chain, name);
    assert IsReferenceChain(defs, roots, chain + [next], next);
  }

  lemma {:induction false} ClosedContainsChain(defs: Fields, roots: set<string>, kept: set<string>, chain: seq<string>,
                                               name: string)
    requires IsReferenceChain(defs, roots, chain, name)
    requires forall r | r in roots && r in defs :: r in kept
    requires forall k | k in kept && k in defs :: forall n | n in RefNames(defs[k]) && n in defs :: n in kept
    ensures name in kept
    decreases |chain|
  {
    if |chain| > 1 {
      var n := |chain| - 2;
      assert IsReferenceChain(defs, roots, chain[..n + 1], chain[n]);
      ClosedContainsChain(defs, roots, kept, chain[..n + 1], chain[n]);
    }
  }

  /** The definitions kept for a set of remaining references. */
  ghost function Pruned(defs: Fields, roots: set<string>): Fields {
    map name | name in defs && Reachable(defs, roots, name) :: defs[name]
  }

  function Kept(defs: Fields, names: set<string>): Fields {
    map name | name in defs && name in names :: defs[name]
  }

  /** Lists a set in some order, as iterating over it does. */
  method ListNames(names: set<string>) returns (list: seq<string>)
    ensures Elements(list) == names
  {
    list := [];
    var left := names;
    while left != {}
      invariant left <= names && Elements(list) == names - left
    {
      var name :| name in left;
      left := left - {name};
      AppendElements(list, [name]);
      list := list + [name];
    }
  }

  /** What the worklist has found so far is reachable, and nothing is forgotten. */
  ghost predicate Frontier(defs: Fields, roots: set<string>, names: set<string>, found: set<string>) {
    && names <= defs.Keys && names <= found && roots <= found
    && (forall name | name in found && name in defs :: Reachable(defs, roots, name))
    && (forall name | name in names :: RefNames(defs[name]) <= found)
  }

  lemma FrontierGrows(defs: Fields, roots: set<string>, names: set<string>, found: set<string>, name: string)
    requires Frontier(defs, roots, names, found) && name in found && name in defs
    ensures Frontier(defs, roots, names + {name}, found + RefNames(defs[name]))
  {
    forall next | next in RefNames(defs[name]) && next in defs ensures Reachable(defs, roots, next) {
      ReachableStep(defs, roots, name, next);
    }
  }

  lemma FrontierComplete(defs: Fields, roots: set<string>, names: set<string>, found: set<string>)
    requires Frontier(defs, roots, names, found) && found * defs.Keys <= names
    ensures Kept(defs, names) == Pruned(defs, roots)
  {
    forall name | Reachable(defs, roots, name) ensures name in names {
      var chain :| IsReferenceChain(defs, roots, chain, name);
      ClosedContainsChain(defs, roots, names, chain, name);
    }
  }

  /** Every defined name found is either kept or still on the worklist. */
  predicate Waiting(defs: Fields, names: set<string>, found: set<string>, pending: seq<string>) {
    Elements(pending) <= found && found * defs.Keys <= names + Elements(pending)
  }

  lemma WaitingPop(defs: Fields, names: set<string>, found: set<string>, pending: seq<string>)
    requires pending != [] && Waiting(defs, names, found, pending)
    ensures var name := pending[|pending| - 1];
            && name in found
            && (name in names || name !in defs ==> Waiting(defs, names, found, pending[..|pending| - 1]))
            && Waiting(defs, names + {name}, found, pending[..|pending| - 1])
  {
    var init, name := pending[..|pending| - 1], pending[|pending| - 1];
    assert pending == init + [name];
    AppendElements(init, [name]);
  }

  lemma WaitingPush(defs: Fields, names: set<string>, found: set<string>, pending: seq<string>, name: string,
                    refs: seq<string>)
    requires name in defs && name !in names && Waiting(defs, names + {name}, found, pending)
    ensures Waiting(defs, names + {name}, found + Elements(refs), pending + refs)
    ensures |defs.Keys - (names + {name})| < |defs.Keys - names|
  {
    AppendElements(pending, refs);
    forall n | n in (found + Elements(refs)) * defs.Keys ensures n in names + {name} + Elements(pending + refs) {
      if n in found {
        assert n in found * defs.Keys;
      }
    }
    assert defs.Keys - names == (defs.Keys - (names + {name})) + {name};
  }

  lemma AppendElements(xs: seq<string>, ys: seq<string>)
    ensures Elements(xs + ys) == Elements(xs) + Elements(ys)
  {
  }

  lemma FrontierStart(defs: Fields, roots: set<string>)
    ensures Frontier(defs, roots, {}, roots)
  {
    forall name | name in roots && name in defs ensures Reachable(defs, roots, name) {
      assert IsReferenceChain(defs, roots, [name], name);
    }
  }

  /** `_prune_defs`: the worklist keeps exactly the definitions reachable from the
      initial references. */
  method PruneDefs(defs: Fields, initial: set<string>) returns (kept: Fields)
    ensures kept == Pruned(defs, initial)
  {
    var names: set<string> := {};
    var pending := ListNames(initial);
    ghost var found := initial;
    FrontierStart(defs, initial);
    while pending != []
      invariant Frontier(defs, initial, names, found)
      invariant Waiting(defs, names, found, pending)
      decreases |defs.Keys - names|, |pending|
    {
      var name := pending[|pending| - 1];
      WaitingPop(defs, names, found, pending);
      pending := pending[..|pending| - 1];
      if name !in names && name in defs {
        FrontierGrows(defs, initial, names, found, name);
        var refs := ListNames(RefNames(defs[name]));
        WaitingPush(defs, names, found, pending, name, refs);
        names, found, pending := names + {name}, found + Elements(refs), pending + refs;
      }
    }
    FrontierComplete(defs, initial, names, found);
    kept := Kept(defs, names);
  }

  // --------------------------------------------------------- the whole schema

  function DefinitionsOf(schema: Fields): Fields {
    if HasObject(schema, "$defs") then schema["$defs"].fields else map[]
  }

  function NormalizeTable(kept: Fields): Fields {
    map name | name in kept :: Normalize(kept[name], kept, [name])
  }

  /** `normalize_input_schema` of a schema object; `None` is the type error of
      adding definitions to a root that normalizes to something else. */
  ghost function NormalizeInput(schema: Fields): Option<Json> {
    var defs := DefinitionsOf(schema);
    var root := Normalize(Obj(schema - {"$defs"}), defs, []);
    var pending := RefNames(root);
    if pending == {} then Some(root)
    else if !root.Obj? then None
    else
      var kept := Pruned(defs, pending);
      Some(Obj(root.fields["$defs" := Obj(NormalizeTable(kept))]))
  }

  /** It fails exactly when the normal form of the root is no object and has references;
      definitions are added exactly when there are references. */
  lemma InputFailsIff(schema: Fields)
    ensures var root := Normalize(Obj(schema - {"$defs"}), DefinitionsOf(schema), []);
            var out := NormalizeInput(schema);
            && (out.None? <==> !root.Obj? && RefNames(root) != {})
            && (RefNames(root) == {} ==> out == Some(root))
            && (out.Some? && RefNames(root) != {} ==> HasObject(out.value.fields, "$defs"))
  {
  }

  lemma PrunedClosed(defs: Fields, roots: set<string>)
    requires forall name | name in defs :: RefNames(defs[name]) <= defs.Keys
    ensures Closed(defs, Pruned(defs, roots).Keys) && Closed(Pruned(defs, roots), Pruned(defs, roots).Keys)
    ensures roots * defs.Keys <= Pruned(defs, roots).Keys
  {
    forall name, next | name in defs && Reachable(defs, roots, name) && next in RefNames(defs[name])
      ensures next in Pruned(defs, roots)
    {
      ReachableStep(defs, roots, name, next);
    }
    forall name | name in roots && name in defs ensures Reachable(defs, roots, name) {
      assert IsReferenceChain(defs, roots, [name], name);
    }
  }

  /** `normalize_input_schema` itself. */
  method NormalizeInputSchema(schema: Fields) returns (result: Option<Json>)
    ensures result == NormalizeInput(schema)
  {
    var defs := DefinitionsOf(schema);
    var normalized := Normalize(Obj(schema - {"$defs"}), defs, []);
    var pending := RefNames(normalized);
    if pending == {} {
      return Some(normalized);
    }
    if !normalized.Obj? {
      return None;
    }
    var kept := PruneDefs(defs, pending);
    result := Some(Obj(normalized.fields["$defs" := Obj(NormalizeTable(kept))]));
  }

  lemma InputRoot(schema: Fields) returns (notes: Fields)
    requires NormalizeInput(schema).Some?
    ensures notes.Keys <= ANNOTATIONS - {"discriminator"}
    ensures var root := Normalize(Obj(schema - {"$defs"}), DefinitionsOf(schema), []);
            NormalizeInput(schema).value == if root.Obj? then Obj(root.fields + notes) else root
  {
    var defs := DefinitionsOf(schema);
    var root := Normalize(Obj(schema - {"$defs"}), defs, []);
    if RefNames(root) != {} {
      notes := map["$defs" := Obj(NormalizeTable(Pruned(defs, RefNames(root))))];
      assert root.fields["$defs" := notes["$defs"]] == root.fields + notes;
    } else {
      notes := map[];
      if root.Obj? {
        assert root.fields + notes == root.fields;
      }
    }
  }

  /** The published schema accepts every value the input schema accepts, whatever the
      references that are left in it mean. */
  lemma InputKeepsValues(o: Oracle, schema: Fields, nulls: bool, v: Json)
    requires Lawful(o) && NormalizeInput(schema).Some? && (nulls ==> NullFree(v))
    requires Flattenable(Obj(schema - {"$defs"}), DefinitionsOf(schema), [], nulls)
    requires Accepts(o, DefinitionsOf(schema), [], Obj(schema - {"$defs"}), v)
    ensures Accepts(o, map[], [], NormalizeInput(schema).value, v)
  {
    NormalizeAccepts(o, Obj(schema - {"$defs"}), DefinitionsOf(schema), [], nulls, v);
    var root := Normalize(Obj(schema - {"$defs"}), DefinitionsOf(schema), []);
    var notes := InputRoot(schema);
    if root.Obj? {
      AnnotatedAccepts(o, map[], [], root.fields, notes, v);
    }
  }

  /** Over acyclic definitions the published schema is free of combinators. */
  lemma InputIsPlain(schema: Fields, rank: Rank, bound: nat)
    requires NormalizeInput(schema).Some?
    requires Acyclic(DefinitionsOf(schema), rank)
    requires Inlinable(Obj(schema - {"$defs"}), DefinitionsOf(schema), rank, bound)
    ensures Plain(NormalizeInput(schema).value)
  {
    NormalizePlain(Obj(schema - {"$defs"}), DefinitionsOf(schema), [], rank, bound);
    var root := Normalize(Obj(schema - {"$defs"}), DefinitionsOf(schema), []);
    var notes := InputRoot(schema);
    if root.Obj? {
      PositionsAreNotAnnotations();
      FreeAnnotated(root.fields, notes, FLATTENED);
    }
  }
}
