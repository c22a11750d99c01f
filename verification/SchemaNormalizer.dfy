/** The schema flattening compiler: `$ref` inlining, union flattening, and the
    merge of alternative object shapes (src/gdb_mcp/mcp/schema_normalizer.py).

    The recursive tree passes are functions. The two merge routines loop over
    local dictionaries, so each is a method proved equal to the function the
    theorems are about. */
module SchemaNormalizer {
  import opened JsonValues

  type Fields = map<string, Json>

  /** The four keywords of a merged object are different words. */
  lemma ObjectKeywords()
    ensures "type" != "properties" && "type" != "required" && "type" != "additionalProperties"
    ensures "properties" != "required" && "properties" != "additionalProperties" && "required" != "additionalProperties"
  {
  }

  const COMBINATORS: set<string> := {"oneOf", "anyOf", "discriminator"}

  // ---------------------------------------------------------------- merging

  /** First occurrences only, in order. */
  function Dedupe<T(==)>(values: seq<T>): seq<T> {
    if values == [] then []
    else
      var rest := Dedupe(values[..|values| - 1]);
      var last := values[|values| - 1];
      if last in rest then rest else rest + [last]
  }

  /** `Dedupe` keeps exactly the elements of its argument, each of them once. */
  lemma {:induction false} DedupeKeepsElements<T>(values: seq<T>)
    ensures forall x :: x in Dedupe(values) <==> x in values
    ensures forall i, j | 0 <= i < j < |Dedupe(values)| :: Dedupe(values)[i] != Dedupe(values)[j]
  {
    if values == [] {
    } else {
      DedupeKeepsElements(values[..|values| - 1]);
      assert values == values[..|values| - 1] + [values[|values| - 1]];
    }
  }

  method DedupeLoop<T(==)>(values: seq<T>) returns (deduped: seq<T>)
    ensures deduped == Dedupe(values)
  {
    deduped := [];
    for i := 0 to |values|
      invariant deduped == Dedupe(values[..i])
    {
      assert values[..i + 1][..i] == values[..i];
      if values[i] !in deduped {
        deduped := deduped + [values[i]];
      }
    }
    assert values[..|values|] == values;
  }

  /** Joins alternative labels; a missing label is `Null`. */
  function MergeText(left: Json, right: Json): Json {
    if !right.Str? || right.s == "" then left
    else if !left.Str? || left.s == "" then right
    else if left == right then left
    else Str(left.s + " | " + right.s)
  }

  /** The elements of `xs` that also occur in `ys`, in the order of `xs`. */
  function Common<T(==)>(xs: seq<T>, ys: seq<T>): seq<T> {
    if xs == [] then []
    else
      var rest := Common(xs[..|xs| - 1], ys);
      if xs[|xs| - 1] in ys then rest + [xs[|xs| - 1]] else rest
  }

  lemma {:induction false} CommonIsIntersection<T>(xs: seq<T>, ys: seq<T>)
    ensures forall x :: x in Common(xs, ys) <==> x in xs && x in ys
  {
    if xs == [] {
    } else {
      CommonIsIntersection(xs[..|xs| - 1], ys);
      assert xs == xs[..|xs| - 1] + [xs[|xs| - 1]];
    }
  }

  function ListAt(f: Fields, key: string): seq<Json> {
    if key in f && f[key].Arr? then f[key].items else []
  }

  predicate HasList(f: Fields, key: string) {
    key in f && f[key].Arr?
  }

  predicate HasObject(f: Fields, key: string) {
    key in f && f[key].Obj?
  }

  predicate ForbidsExtras(f: Fields) {
    "additionalProperties" in f && f["additionalProperties"] == Bool(false)
  }

  function CommonRequired(l: Fields, r: Fields): seq<Json> {
    Common(ListAt(l, "required"), ListAt(r, "required"))
  }

  /** Whether one key survives the merge of two property schemas. */
  predicate KeepsKey(l: Fields, r: Fields, key: string) {
    if key == "required" then
      if HasList(l, key) || HasList(r, key) then CommonRequired(l, r) != [] else key in l
    else if key == "additionalProperties" then
      key in l && (key in r ==> ForbidsExtras(l) && ForbidsExtras(r))
    else key in l || key in r
  }

  /** The merge of one property that appears in several alternative shapes. */
  function MergeProperty(left: Json, right: Json): Json
    decreases left, 2
  {
    if left == right then left
    else if !left.Obj? || !right.Obj? then left
    else
      Obj(map key | key in left.fields.Keys + right.fields.Keys && KeepsKey(left.fields, right.fields, key)
            :: MergedValue(left, right, key))
  }

  /** The value under one surviving key of the merge. */
  function MergedValue(left: Json, right: Json, key: string): Json
    requires left.Obj? && right.Obj? && KeepsKey(left.fields, right.fields, key)
    decreases left, 1
  {
    var l, r := left.fields, right.fields;
    if key == "required" then
      if HasList(l, key) || HasList(r, key) then Arr(CommonRequired(l, r)) else l[key]
    else if key in {"title", "description"} && key in r then
      MergeText(if key in l then l[key] else Null, r[key])
    else if key !in l then r[key]
    else if key !in r then l[key]
    else if key == "enum" && l[key].Arr? && r[key].Arr? then
      Arr(Dedupe(l[key].items + r[key].items))
    else if key == "properties" && l[key].Obj? && r[key].Obj? then
      Obj(MergeProperties(l[key], r[key]))
    else l[key]
  }

  /** Two property tables: shared names merge, the others are taken over. */
  function MergeProperties(left: Json, right: Json): Fields
    requires left.Obj? && right.Obj?
    decreases left, 0
  {
    var l, r := left.fields, right.fields;
    map name | name in l.Keys + r.Keys ::
      if name in l && name in r then MergeProperty(l[name], r[name])
      else if name in l then l[name] else r[name]
  }

  /** `_merge_property_schemas` as the source runs it: a copy of the left schema
      updated key by key from the right one, in whatever order the keys come. */
  method MergePropertySchemas(left: Json, right: Json) returns (m: Json)
    ensures m == MergeProperty(left, right)
    decreases left, 2
  {
    if left == right {
      return left;
    }
    if !left.Obj? || !right.Obj? {
      return left;
    }
    var l, r := left.fields, right.fields;
    var merged := l;
    if HasList(l, "required") || HasList(r, "required") {
      var common := CommonRequired(l, r);
      if common != [] {
        merged := merged["required" := Arr(common)];
      } else {
        merged := merged - {"required"};
      }
    }
    var pending := r.Keys - {"required"};
    while pending != {}
      invariant "required" !in pending && pending <= r.Keys
      invariant forall key | key in pending :: Agree(merged, l, key)
      invariant forall key | key !in pending :: Merged(left, right, merged, key)
      decreases pending
    {
      var key :| key in pending;
      pending := pending - {key};
      ghost var before := merged;
      merged := MergeKey(left, right, merged, key);
      assert forall k | k in pending :: Agree(before, l, k) && Agree(merged, before, k);
      assert forall k | k !in pending && k != key :: Merged(left, right, before, k) && Agree(merged, before, k);
    }
    MergedEverywhere(left, right, merged);
    m := Obj(merged);
  }

  predicate Agree(f: Fields, g: Fields, key: string) {
    (key in f <==> key in g) && (key in f ==> f[key] == g[key])
  }

  predicate Merged(left: Json, right: Json, merged: Fields, key: string)
    requires left.Obj? && right.Obj?
  {
    && (key in merged <==> KeepsKey(left.fields, right.fields, key))
    && (key in merged ==> merged[key] == MergedValue(left, right, key))
  }

  lemma MergedEverywhere(left: Json, right: Json, merged: Fields)
    requires left != right && left.Obj? && right.Obj?
    requires forall key :: Merged(left, right, merged, key)
    ensures Obj(merged) == MergeProperty(left, right)
  {
    var m := MergeProperty(left, right).fields;
    assert forall key :: key in m <==> KeepsKey(left.fields, right.fields, key);
    assert merged.Keys == m.Keys by {
      forall key ensures key in merged <==> key in m {
        assert Merged(left, right, merged, key);
      }
    }
    forall key | key in merged ensures merged[key] == m[key] {
      assert Merged(left, right, merged, key);
    }
  }

  /** One step of the merge loop: what the right schema does to one key. */
  method MergeKey(left: Json, right: Json, merged: Fields, key: string) returns (next: Fields)
    requires left.Obj? && right.Obj? && key in right.fields && key != "required"
    requires Agree(merged, left.fields, key)
    ensures forall k | k != key :: Agree(next, merged, k)
    ensures Merged(left, right, next, key)
    decreases left, 1
  {
    var value := right.fields[key];
    next := merged;
    if key == "additionalProperties" {
      if !(key in merged && merged[key] == Bool(false) && value == Bool(false)) {
        next := merged - {key};
      }
    } else if key == "title" || key == "description" {
      next := merged[key := MergeText(if key in merged then merged[key] else Null, value)];
    } else if key !in merged {
      next := merged[key := value];
    } else if key == "enum" && merged[key].Arr? && value.Arr? {
      var both := DedupeLoop(merged[key].items + value.items);
      next := merged[key := Arr(both)];
    } else if key == "properties" && merged[key].Obj? && value.Obj? {
      var properties := MergePropertyTables(merged[key], value);
      next := merged[key := Obj(properties)];
    }
  }

  /** The inner loop over one shared `properties` table. */
  method MergePropertyTables(left: Json, right: Json) returns (properties: Fields)
    requires left.Obj? && right.Obj?
    ensures properties == MergeProperties(left, right)
    decreases left
  {
    var l, r := left.fields, right.fields;
    properties := l;
    var pending := r.Keys;
    while pending != {}
      invariant pending <= r.Keys
      invariant properties.Keys == l.Keys + (r.Keys - pending)
      invariant forall name | name in properties ::
                  properties[name] == if name in pending then l[name] else MergeProperties(left, right)[name]
      decreases pending
    {
      var name :| name in pending;
      pending := pending - {name};
      var value := r[name];
      if name in properties {
        value := MergePropertySchemas(properties[name], r[name]);
      }
      properties := properties[name := value];
    }
  }

  // ------------------------------------------------- alternative object shapes

  function FieldsOf(s: Json): Fields {
    if s.Obj? then s.fields else map[]
  }

  function StringsOf(values: seq<Json>): seq<string> {
    if values == [] then []
    else
      var rest := StringsOf(values[..|values| - 1]);
      if values[|values| - 1].Str? then rest + [values[|values| - 1].s] else rest
  }

  lemma {:induction false} StringsOfElements(values: seq<Json>)
    ensures forall x :: x in StringsOf(values) <==> Str(x) in values
  {
    if values == [] {
    } else {
      StringsOfElements(values[..|values| - 1]);
      assert values == values[..|values| - 1] + [values[|values| - 1]];
    }
  }

  /** The names a variant requires. */
  function RequiredNames(variant: Json): seq<string> {
    StringsOf(ListAt(FieldsOf(variant), "required"))
  }

  /** The property table of a variant; empty when absent or malformed. */
  function PropertyTable(variant: Json): Json {
    var f := FieldsOf(variant);
    if HasObject(f, "properties") then f["properties"] else Obj(map[])
  }

  function FoldedProperties(variants: seq<Json>): Fields {
    if variants == [] then map[]
    else MergeProperties(Obj(FoldedProperties(variants[..|variants| - 1])), PropertyTable(variants[|variants| - 1]))
  }

  function AllRequired(variants: seq<Json>): seq<string> {
    if variants == [] then []
    else AllRequired(variants[..|variants| - 1]) + RequiredNames(variants[|variants| - 1])
  }

  function RequiredEverywhere(names: seq<string>, variants: seq<Json>): seq<Json> {
    if names == [] then []
    else
      var rest := RequiredEverywhere(names[..|names| - 1], variants);
      var last := names[|names| - 1];
      if forall v | v in variants :: last in RequiredNames(v) then rest + [Str(last)] else rest
  }

  lemma {:induction false} RequiredEverywhereElements(names: seq<string>, variants: seq<Json>)
    ensures forall x :: x in RequiredEverywhere(names, variants) <==>
                        x.Str? && x.s in names && forall v | v in variants :: x.s in RequiredNames(v)
  {
    if names == [] {
    } else {
      RequiredEverywhereElements(names[..|names| - 1], variants);
      assert names == names[..|names| - 1] + [names[|names| - 1]];
    }
  }

  function AssembleVariants(properties: Fields, required: seq<Json>, closed: bool): Fields {
    var base: Fields := map["type" := Str("object")];
    var withProperties := if properties != map[] then base["properties" := Obj(properties)] else base;
    var withRequired := if required != [] then withProperties["required" := Arr(required)] else withProperties;
    if closed then withRequired["additionalProperties" := Bool(false)] else withRequired
  }

  /** All alternatives of an object union in one object schema. */
  function MergeVariants(variants: seq<Json>): Fields {
    AssembleVariants(
      FoldedProperties(variants),
      RequiredEverywhere(Dedupe(AllRequired(variants)), variants),
      variants != [] && forall v | v in variants :: ForbidsExtras(FieldsOf(v)))
  }

  lemma {:induction false} DedupeAppend<T>(xs: seq<T>, ys: seq<T>)
    ensures Dedupe(Dedupe(xs) + ys) == Dedupe(xs + ys)
  {
    if ys == [] {
      DedupeKeepsElements(xs);
      DedupeDistinct(Dedupe(xs));
      assert Dedupe(xs) + ys == Dedupe(xs);
      assert xs + ys == xs;
    } else {
      var init, last := ys[..|ys| - 1], ys[|ys| - 1];
      DedupeAppend(xs, init);
      assert (Dedupe(xs) + ys)[..|Dedupe(xs) + ys| - 1] == Dedupe(xs) + init;
      assert (xs + ys)[..|xs + ys| - 1] == xs + init;
    }
  }

  lemma {:induction false} DedupeDistinct<T>(xs: seq<T>)
    requires forall i, j | 0 <= i < j < |xs| :: xs[i] != xs[j]
    ensures Dedupe(xs) == xs
  {
    if xs == [] {
    } else {
      DedupeDistinct(xs[..|xs| - 1]);
    }
  }

  lemma FoldStep(variants: seq<Json>, i: nat)
    requires i < |variants|
    ensures FoldedProperties(variants[..i + 1]) ==
            MergeProperties(Obj(FoldedProperties(variants[..i])), PropertyTable(variants[i]))
    ensures Dedupe(AllRequired(variants[..i + 1])) ==
            Dedupe(Dedupe(AllRequired(variants[..i])) + RequiredNames(variants[i]))
  {
    assert variants[..i + 1][..i] == variants[..i];
    DedupeAppend(AllRequired(variants[..i]), RequiredNames(variants[i]));
  }

  /** The names required by every alternative, in the order first seen. */
  method KeepCommonRequired(order: seq<string>, variants: seq<Json>) returns (required: seq<Json>)
    ensures required == RequiredEverywhere(order, variants)
  {
    required := [];
    for i := 0 to |order|
      invariant required == RequiredEverywhere(order[..i], variants)
    {
      assert order[..i + 1][..i] == order[..i];
      if forall v | v in variants :: order[i] in RequiredNames(v) {
        required := required + [Str(order[i])];
      }
    }
    assert order[..|order|] == order;
  }

  /** `_merge_object_variants` as the source runs it. */
  method MergeObjectVariants(variants: seq<Json>) returns (merged: Fields)
    ensures merged == MergeVariants(variants)
  {
    var properties: Fields := map[];
    var requiredOrder: seq<string> := [];
    for i := 0 to |variants|
      invariant properties == FoldedProperties(variants[..i])
      invariant requiredOrder == Dedupe(AllRequired(variants[..i]))
    {
      FoldStep(variants, i);
      requiredOrder := DedupeLoop(requiredOrder + RequiredNames(variants[i]));
      properties := MergePropertyTables(Obj(properties), PropertyTable(variants[i]));
    }
    assert variants[..|variants|] == variants;
    var required := KeepCommonRequired(requiredOrder, variants);
    var closed := variants != [] && forall v | v in variants :: ForbidsExtras(FieldsOf(v));
    merged := AssembleVariants(properties, required, closed);
  }

  // ------------------------------------------------------------ normalization

  function Elements<T>(xs: seq<T>): set<T> {
    set x | x in xs
  }

  /** The part of a reference after its last slash. */
  function RefName(ref: string): string {
    if ref == "" || ref[|ref| - 1] == '/' then ""
    else RefName(ref[..|ref| - 1]) + [ref[|ref| - 1]]
  }

  predicate HasRef(f: Fields) {
    "$ref" in f && f["$ref"].Str?
  }

  predicate Resolvable(name: string, defs: Fields, stack: seq<string>) {
    name in defs && defs[name] != Null && name !in stack
  }

  lemma StackGrows(defs: Fields, stack: seq<string>, name: string)
    requires name in defs && name !in stack
    ensures |defs.Keys - Elements(stack + [name])| < |defs.Keys - Elements(stack)|
  {
    assert Elements(stack + [name]) == Elements(stack) + {name};
    assert defs.Keys - Elements(stack) == (defs.Keys - Elements(stack + [name])) + {name};
  }

  predicate IsUnion(f: Fields) {
    "oneOf" in f || "anyOf" in f
  }

  function RawVariants(f: Fields): Json
    requires IsUnion(f)
  {
    if "oneOf" in f then f["oneOf"] else f["anyOf"]
  }

  predicate IsNullSchema(s: Json) {
    s.Obj? && "type" in s.fields && s.fields["type"] == Str("null")
  }

  predicate IsObjectLike(s: Json) {
    s.Obj? && (("type" in s.fields && s.fields["type"] == Str("object")) || "properties" in s.fields)
  }

  /** The alternatives a union keeps: schemas other than the null schema. */
  function KeptVariants(normalized: seq<Json>): seq<Json> {
    if normalized == [] then []
    else
      var rest := KeptVariants(normalized[..|normalized| - 1]);
      var last := normalized[|normalized| - 1];
      if last.Obj? && !IsNullSchema(last) then rest + [last] else rest
  }

  lemma {:induction false} KeptVariantsElements(normalized: seq<Json>)
    ensures forall x :: x in KeptVariants(normalized) <==> x in normalized && x.Obj? && !IsNullSchema(x)
  {
    if normalized == [] {
    } else {
      KeptVariantsElements(normalized[..|normalized| - 1]);
      assert normalized == normalized[..|normalized| - 1] + [normalized[|normalized| - 1]];
    }
  }

  function UnionWrapper(f: Fields, nullable: bool): Fields {
    var wrapper := f - COMBINATORS;
    if nullable && "default" in wrapper && wrapper["default"] == Null then wrapper - {"default"} else wrapper
  }

  predicate Nullable(normalized: seq<Json>) {
    exists v | v in normalized :: IsNullSchema(v)
  }

  /** The one schema that stands for the normalized alternatives. */
  function FlattenVariants(normalized: seq<Json>): Fields {
    var variants := KeptVariants(normalized);
    if variants == [] then if Nullable(normalized) then map["type" := Str("null")] else map[]
    else if |variants| == 1 then FieldsOf(variants[0])
    else if forall v | v in variants :: IsObjectLike(v) then MergeVariants(variants)
    else FieldsOf(variants[0])
  }

  /** What a union becomes once its alternatives are normalized. */
  function FlattenUnion(f: Fields, normalized: seq<Json>): Fields {
    FlattenVariants(normalized) + UnionWrapper(f, Nullable(normalized))
  }

  const SUBSCHEMA_KEYS: set<string> := {"items", "additionalProperties", "contains"}

  /** The keys under which a schema that is not a union holds further schemas. */
  const SCHEMA_POSITIONS: set<string> := SUBSCHEMA_KEYS + {"properties", "prefixItems"}

  lemma NotSchemaPositions()
    ensures "$ref" !in SCHEMA_POSITIONS && "oneOf" !in SCHEMA_POSITIONS && "anyOf" !in SCHEMA_POSITIONS
    ensures "type" !in SCHEMA_POSITIONS && "const" !in SCHEMA_POSITIONS && "enum" !in SCHEMA_POSITIONS
    ensures "required" !in SCHEMA_POSITIONS && "discriminator" !in SCHEMA_POSITIONS
    ensures "$ref" != "discriminator" && "oneOf" != "discriminator" && "anyOf" != "discriminator"
    ensures "type" != "discriminator" && "const" != "discriminator" && "enum" != "discriminator"
    ensures "required" != "discriminator" && "const" != "enum" && "$ref" != "enum" && "oneOf" != "enum" &&
            "anyOf" != "enum"
  {
  }

  /** Normalizes one schema node. The measure is the number of definitions not
      being expanded, then the node: cyclic definition tables terminate too. */
  function Normalize(node: Json, defs: Fields, stack: seq<string>): Json
    decreases |defs.Keys - Elements(stack)|, node, 2
  {
    if !node.Obj? then node
    else
      var f := node.fields;
      if HasRef(f) then
        var name := RefName(f["$ref"].s);
        if !Resolvable(name, defs, stack) then node
        else
          StackGrows(defs, stack, name);
          var resolved := Normalize(defs[name], defs, stack + [name]);
          if resolved.Obj? then Obj(resolved.fields + (f - {"$ref"})) else resolved
      else if IsUnion(f) then
        var raw := RawVariants(f);
        if !raw.Arr? then node
        else Obj(FlattenUnion(f, NormalizeAll(raw, defs, stack)))
      else Obj(ConstToEnum(NormalizeChildren(node, defs, stack)))
  }

  function NormalizeAll(list: Json, defs: Fields, stack: seq<string>): (r: seq<Json>)
    requires list.Arr?
    ensures |r| == |list.items|
    decreases |defs.Keys - Elements(stack)|, list, 0
  {
    seq(|list.items|, i requires 0 <= i < |list.items| => Normalize(list.items[i], defs, stack))
  }

  function NormalizeChildren(node: Json, defs: Fields, stack: seq<string>): Fields
    requires node.Obj?
    decreases |defs.Keys - Elements(stack)|, node, 1
  {
    map key | key in node.fields && key != "discriminator" :: NormalizeChild(node, key, defs, stack)
  }

  function NormalizeChild(node: Json, key: string, defs: Fields, stack: seq<string>): Json
    requires node.Obj? && key in node.fields
    decreases |defs.Keys - Elements(stack)|, node, 0
  {
    var value := node.fields[key];
    if key == "properties" && value.Obj? then
      Obj(map name | name in value.fields :: Normalize(value.fields[name], defs, stack))
    else if key in SUBSCHEMA_KEYS && value.Obj? then Normalize(value, defs, stack)
    else if key == "prefixItems" && value.Arr? then Arr(NormalizeAll(value, defs, stack))
    else value
  }

  /** `const` becomes a one-value `enum`; it is dropped when an `enum` is there. */
  function ConstToEnum(f: Fields): Fields {
    if "const" !in f then f
    else if "enum" in f then f - {"const"}
    else (f - {"const"})["enum" := Arr([f["const"]])]
  }

  lemma NormalizedChild(node: Json, key: string, defs: Fields, stack: seq<string>)
    requires node.Obj? && key in node.fields && key in SUBSCHEMA_KEYS
    ensures NormalizeChildren(node, defs, stack)[key] == Normalize(node.fields[key], defs, stack)
  {
    assert NormalizeChildren(node, defs, stack)[key] == NormalizeChild(node, key, defs, stack);
  }

  lemma NormalizedProperties(node: Json, defs: Fields, stack: seq<string>)
    requires node.Obj? && "properties" in node.fields
    ensures var p, q := node.fields["properties"], NormalizeChildren(node, defs, stack)["properties"];
            && (p.Obj? <==> q.Obj?)
            && (p.Obj? ==> q.fields.Keys == p.fields.Keys)
            && (p.Obj? ==> forall name | name in p.fields :: q.fields[name] == Normalize(p.fields[name], defs, stack))
  {
    assert NormalizeChildren(node, defs, stack)["properties"] == NormalizeChild(node, "properties", defs, stack);
  }

  lemma NormalizeAllAt(list: Json, defs: Fields, stack: seq<string>)
    requires list.Arr?
    ensures forall i | 0 <= i < |list.items| ::
            NormalizeAll(list, defs, stack)[i] == Normalize(list.items[i], defs, stack)
  {
  }

  lemma NormalizedPrefix(node: Json, defs: Fields, stack: seq<string>)
    requires node.Obj?
    ensures var p, q := ListAt(node.fields, "prefixItems"), ListAt(NormalizeChildren(node, defs, stack), "prefixItems");
            && |q| == |p|
            && forall i | 0 <= i < |p| :: q[i] == Normalize(p[i], defs, stack)
  {
    if "prefixItems" in node.fields {
      var p := node.fields["prefixItems"];
      assert NormalizeChildren(node, defs, stack)["prefixItems"] == NormalizeChild(node, "prefixItems", defs, stack);
      if p.Arr? {
        assert NormalizeChild(node, "prefixItems", defs, stack) == Arr(NormalizeAll(p, defs, stack));
        NormalizeAllAt(p, defs, stack);
      }
    }
  }

  /** Keys that are not schema positions pass through unchanged. */
  lemma UntouchedKey(node: Json, key: string, defs: Fields, stack: seq<string>)
    requires node.Obj? && key != "discriminator" && key !in SCHEMA_POSITIONS
    ensures key in NormalizeChildren(node, defs, stack) <==> key in node.fields
    ensures key in node.fields ==> NormalizeChildren(node, defs, stack)[key] == node.fields[key]
  {
    if key in node.fields {
      assert NormalizeChildren(node, defs, stack)[key] == NormalizeChild(node, key, defs, stack);
    }
  }
}
