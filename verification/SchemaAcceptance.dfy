/** What a schema accepts, and why flattening never loses a value.

    `Accepts` is written from the JSON Schema 2020-12 texts (Core sections 8.2.3,
    10.2.1, 10.3.1 and 10.3.2; Validation sections 6.1 and 6.5.3), not from the
    normalizer. Keywords it does not spell out are judged by an arbitrary oracle
    that sees them together, so every theorem holds for any reading of them. */
module SchemaAcceptance {
  import opened JsonValues
  import opened SchemaNormalizer

  type Oracle = (Fields, Json) -> bool

  /** Keywords that assert nothing about a value. */
  const ANNOTATIONS: set<string> :=
    {"$defs", "title", "description", "default", "examples", "deprecated", "readOnly", "writeOnly", "$comment",
     "discriminator"}

  const INTERPRETED: set<string> :=
    {"$ref", "oneOf", "anyOf", "type", "enum", "const", "required", "properties", "additionalProperties",
     "items", "prefixItems", "contains"}

  /** Keywords whose meaning depends on one of the interpreted ones. */
  const INTERACTING: set<string> :=
    {"patternProperties", "unevaluatedProperties", "unevaluatedItems", "minContains", "maxContains"}

  function Rest(f: Fields): Fields {
    f - (ANNOTATIONS + INTERPRETED)
  }

  /** A schema without further keywords puts no further constraint. */
  ghost predicate Lawful(o: Oracle) {
    forall v :: o(map[], v)
  }

  // ---------------------------------------------------------------- semantics

  predicate HasType(name: string, v: Json) {
    match name
    case "null" => v.Null?
    case "boolean" => v.Bool?
    case "number" => v.Num?
    case "integer" => v.Num? && v.n.Floor as real == v.n
    case "string" => v.Str?
    case "array" => v.Arr?
    case "object" => v.Obj?
    case _ => false
  }

  predicate TypeOk(f: Fields, v: Json) {
    "type" in f ==>
      match f["type"]
      case Str(name) => HasType(name, v)
      case Arr(names) => exists i | 0 <= i < |names| :: names[i].Str? && HasType(names[i].s, v)
      case _ => true
  }

  predicate EnumOk(f: Fields, v: Json) {
    HasList(f, "enum") ==> v in f["enum"].items
  }

  ghost predicate RequiredOk(f: Fields, v: Json) {
    v.Obj? ==> forall name | Str(name) in ListAt(f, "required") :: name in v.fields
  }

  ghost predicate Accepts(o: Oracle, defs: Fields, seen: seq<string>, s: Json, v: Json)
    decreases |defs.Keys - Elements(seen)|, s, 2
  {
    match s
    case Bool(b) => b
    case Obj(f) =>
      && OthersOk(o, defs, seen, s, v)
      && EnumOk(f, v)
      && RequiredOk(f, v)
      && PropertiesOk(o, defs, seen, s, v)
    case _ => true
  }

  /** Every keyword outside `enum` and the three object keywords. */
  ghost predicate OthersOk(o: Oracle, defs: Fields, seen: seq<string>, s: Json, v: Json)
    requires s.Obj?
    decreases |defs.Keys - Elements(seen)|, s, 1
  {
    var f := s.fields;
    && RefOk(o, defs, seen, s, v)
    && TypeOk(f, v)
    && ("const" in f ==> v == f["const"])
    && (HasList(f, "oneOf") ==> OneOfOk(o, defs, seen, f["oneOf"], v))
    && (HasList(f, "anyOf") ==> AnyOfOk(o, defs, seen, f["anyOf"], v))
    && ItemsOk(o, defs, seen, s, v)
    && o(Rest(f), v)
  }

  ghost predicate RefOk(o: Oracle, defs: Fields, seen: seq<string>, s: Json, v: Json)
    requires s.Obj?
    decreases |defs.Keys - Elements(seen)|, s, 0
  {
    HasRef(s.fields) ==>
      var name := RefName(s.fields["$ref"].s);
      if Resolvable(name, defs, seen) then
        (StackGrows(defs, seen, name); Accepts(o, defs, seen + [name], defs[name], v))
      else o(map["$ref" := s.fields["$ref"]], v)
  }

  ghost predicate AnyOfOk(o: Oracle, defs: Fields, seen: seq<string>, list: Json, v: Json)
    requires list.Arr?
    decreases |defs.Keys - Elements(seen)|, list, 0
  {
    exists i | 0 <= i < |list.items| :: Accepts(o, defs, seen, list.items[i], v)
  }

  ghost predicate OneOfOk(o: Oracle, defs: Fields, seen: seq<string>, list: Json, v: Json)
    requires list.Arr?
    decreases |defs.Keys - Elements(seen)|, list, 1
  {
    exists i | 0 <= i < |list.items| ::
      && Accepts(o, defs, seen, list.items[i], v)
      && forall j | 0 <= j < |list.items| && j != i :: !Accepts(o, defs, seen, list.items[j], v)
  }

  ghost predicate ItemsOk(o: Oracle, defs: Fields, seen: seq<string>, s: Json, v: Json)
    requires s.Obj?
    decreases |defs.Keys - Elements(seen)|, s, 0
  {
    v.Arr? ==>
      var f := s.fields;
      var prefix := ListAt(f, "prefixItems");
      && (forall i | 0 <= i < |prefix| && i < |v.items| :: Accepts(o, defs, seen, prefix[i], v.items[i]))
      && ("items" in f ==> forall i | |prefix| <= i < |v.items| :: Accepts(o, defs, seen, f["items"], v.items[i]))
      && ("contains" in f ==> exists i | 0 <= i < |v.items| :: Accepts(o, defs, seen, f["contains"], v.items[i]))
  }

  ghost predicate PropertiesOk(o: Oracle, defs: Fields, seen: seq<string>, s: Json, v: Json)
    requires s.Obj?
    decreases |defs.Keys - Elements(seen)|, s, 0
  {
    v.Obj? ==>
      var f := s.fields;
      forall name | name in v.fields ::
        if HasObject(f, "properties") && name in f["properties"].fields then
          Accepts(o, defs, seen, f["properties"].fields[name], v.fields[name])
        else "additionalProperties" in f ==> Accepts(o, defs, seen, f["additionalProperties"], v.fields[name])
  }

  // ------------------------------------------------------- mergeable schemas

  /** The keys a merge treats specially, and the annotations. */
  const MERGED_KEYS: set<string> := ANNOTATIONS + {"enum", "required", "properties", "additionalProperties"}

  function Others(f: Fields): Fields {
    f - MERGED_KEYS
  }

  lemma KeywordsAreOthers()
    ensures "$ref" !in MERGED_KEYS && "oneOf" !in MERGED_KEYS && "anyOf" !in MERGED_KEYS && "type" !in MERGED_KEYS
    ensures "const" !in MERGED_KEYS && "items" !in MERGED_KEYS && "prefixItems" !in MERGED_KEYS &&
            "contains" !in MERGED_KEYS
  {
  }

  function Table(f: Fields): Fields {
    if HasObject(f, "properties") then f["properties"].fields else map[]
  }

  /** The keywords that merge are well formed, and none interacts with them. */
  predicate Shaped(f: Fields) {
    && ("enum" in f ==> f["enum"].Arr?)
    && ("properties" in f ==> f["properties"].Obj?)
    && f.Keys !! INTERACTING
  }

  /** A name declared on one side only is one the other side forbids. */
  ghost predicate OneSidedForbidden(l: Fields, r: Fields) {
    && ((exists name :: name in Table(r) && name !in Table(l)) ==> ForbidsExtras(l))
    && ((exists name :: name in Table(l) && name !in Table(r)) ==> ForbidsExtras(r))
  }

  /** When two property schemas merge without losing a value: they differ only in
      annotations, in the values of an `enum` both have, in `required`, and in
      object properties, where a one-sided name is forbidden by the other side. */
  ghost predicate Mergeable(l: Json, r: Json)
    decreases l, 1
  {
    l == r || (l.Obj? && r.Obj? && MergeableObjects(l, r))
  }

  ghost predicate MergeableObjects(l: Json, r: Json)
    requires l.Obj? && r.Obj?
    decreases l, 0
  {
    && Shaped(l.fields) && Shaped(r.fields)
    && Others(l.fields) == Others(r.fields)
    && ("enum" in l.fields <==> "enum" in r.fields)
    && ("additionalProperties" in l.fields ==> "additionalProperties" in r.fields)
    && OneSidedForbidden(l.fields, r.fields)
    && forall name | name in Table(l.fields) && name in Table(r.fields) ::
         Mergeable(Table(l.fields)[name], Table(r.fields)[name])
  }

  ghost predicate MergeableTables(l: Fields, r: Fields) {
    forall name | name in l && name in r :: Mergeable(l[name], r[name])
  }

  lemma OthersAgree(f: Fields, g: Fields, key: string)
    requires Others(f) == Others(g)
    requires key !in MERGED_KEYS
    ensures key in f <==> key in g
    ensures key in f ==> f[key] == g[key]
  {
    assert key in f <==> key in Others(f);
    assert key in g <==> key in Others(g);
    if key in f {
      assert f[key] == Others(f)[key];
      assert g[key] == Others(g)[key];
    }
  }

  lemma RestOfOthers(f: Fields)
    ensures Rest(f) == Rest(Others(f))
  {
    assert MERGED_KEYS <= ANNOTATIONS + INTERPRETED;
  }

  lemma SameRefOk(o: Oracle, defs: Fields, seen: seq<string>, s: Json, t: Json, v: Json)
    requires s.Obj? && t.Obj? && Others(s.fields) == Others(t.fields)
    ensures RefOk(o, defs, seen, s, v) == RefOk(o, defs, seen, t, v)
  {
    KeywordsAreOthers();
    OthersAgree(s.fields, t.fields, "$ref");
  }

  lemma SameItemsOk(o: Oracle, defs: Fields, seen: seq<string>, s: Json, t: Json, v: Json)
    requires s.Obj? && t.Obj? && Others(s.fields) == Others(t.fields)
    ensures ItemsOk(o, defs, seen, s, v) == ItemsOk(o, defs, seen, t, v)
  {
    KeywordsAreOthers();
    OthersAgree(s.fields, t.fields, "items");
    OthersAgree(s.fields, t.fields, "prefixItems");
    OthersAgree(s.fields, t.fields, "contains");
  }

  lemma SameOthersOk(o: Oracle, defs: Fields, seen: seq<string>, s: Json, t: Json, v: Json)
    requires s.Obj? && t.Obj? && Others(s.fields) == Others(t.fields)
    ensures OthersOk(o, defs, seen, s, v) == OthersOk(o, defs, seen, t, v)
  {
    SameRefOk(o, defs, seen, s, t, v);
    SameItemsOk(o, defs, seen, s, t, v);
    KeywordsAreOthers();
    OthersAgree(s.fields, t.fields, "type");
    OthersAgree(s.fields, t.fields, "const");
    OthersAgree(s.fields, t.fields, "oneOf");
    OthersAgree(s.fields, t.fields, "anyOf");
    RestOfOthers(s.fields);
    RestOfOthers(t.fields);
  }

  /** The other keywords of a merge: the left side's, then what only the right has. */
  lemma MergedOthers(l: Json, r: Json)
    requires l != r && l.Obj? && r.Obj?
    ensures Others(MergeProperty(l, r).fields) == Others(r.fields) + Others(l.fields)
  {
    var m, both := Others(MergeProperty(l, r).fields), Others(r.fields) + Others(l.fields);
    forall key | key !in MERGED_KEYS
      ensures key in m <==> key in both
      ensures key in m ==> m[key] == both[key]
    {
      MergedOther(l, r, key);
    }
    assert m.Keys == both.Keys;
  }

  lemma MergedOther(l: Json, r: Json, key: string)
    requires l != r && l.Obj? && r.Obj? && key !in MERGED_KEYS
    ensures var m := MergeProperty(l, r).fields;
            && (key in m <==> key in l.fields || key in r.fields)
            && (key in m ==> m[key] == if key in l.fields then l.fields[key] else r.fields[key])
  {
    if key in l.fields || key in r.fields {
      assert KeepsKey(l.fields, r.fields, key);
      assert MergeProperty(l, r).fields[key] == MergedValue(l, r, key);
    }
  }

  lemma MergedTable(l: Json, r: Json)
    requires l != r && l.Obj? && r.Obj? && Shaped(l.fields) && Shaped(r.fields)
    ensures MergeProperty(l, r).Obj?
    ensures var m := MergeProperty(l, r).fields;
            && ("properties" in m ==> m["properties"].Obj?)
            && Table(m) == MergeProperties(Obj(Table(l.fields)), Obj(Table(r.fields)))
  {
    var m := MergeProperty(l, r).fields;
    if "properties" in m {
      assert m["properties"] == MergedValue(l, r, "properties");
    }
  }

  lemma MergedExtras(l: Json, r: Json)
    requires l != r && l.Obj? && r.Obj?
    requires "additionalProperties" in l.fields ==> "additionalProperties" in r.fields
    ensures var m := MergeProperty(l, r).fields;
            && (ForbidsExtras(m) <==> ForbidsExtras(l.fields) && ForbidsExtras(r.fields))
            && ("additionalProperties" in m ==> ForbidsExtras(m))
  {
    var m := MergeProperty(l, r).fields;
    if "additionalProperties" in m {
      assert m["additionalProperties"] == MergedValue(l, r, "additionalProperties");
    }
  }

  lemma MergedShape(l: Json, r: Json)
    requires l != r && l.Obj? && r.Obj? && Shaped(l.fields) && Shaped(r.fields)
    requires "enum" in l.fields <==> "enum" in r.fields
    ensures var m := MergeProperty(l, r).fields; Shaped(m) && ("enum" in m <==> "enum" in l.fields)
  {
    var m := MergeProperty(l, r).fields;
    MergedTable(l, r);
    if "enum" in m {
      assert m["enum"] == MergedValue(l, r, "enum");
    }
    assert m.Keys <= l.fields.Keys + r.fields.Keys;
  }

  /** The keys of a merge of two mergeable objects, one keyword at a time. */
  lemma MergedKeywords(l: Json, r: Json)
    requires l != r && l.Obj? && r.Obj? && MergeableObjects(l, r)
    ensures MergeProperty(l, r).Obj?
    ensures var m := MergeProperty(l, r).fields;
            && Others(m) == Others(l.fields)
            && (ForbidsExtras(m) <==> ForbidsExtras(l.fields) && ForbidsExtras(r.fields))
            && ("additionalProperties" in m ==> ForbidsExtras(m))
            && Table(m) == MergeProperties(Obj(Table(l.fields)), Obj(Table(r.fields)))
            && ("enum" in m <==> "enum" in l.fields)
            && Shaped(m)
  {
    MergedOthers(l, r);
    assert Others(r.fields) + Others(l.fields) == Others(l.fields);
    MergedTable(l, r);
    MergedExtras(l, r);
    MergedShape(l, r);
  }

  lemma MergedEnum(l: Json, r: Json, v: Json)
    requires l != r && l.Obj? && r.Obj? && MergeableObjects(l, r)
    ensures EnumOk(MergeProperty(l, r).fields, v) <==> EnumOk(l.fields, v) || EnumOk(r.fields, v)
  {
    if "enum" in l.fields {
      DedupeKeepsElements(l.fields["enum"].items + r.fields["enum"].items);
    }
  }

  /** The names a merge requires are those both sides require. */
  lemma MergedRequiredIsIntersection(l: Json, r: Json, name: Json)
    requires l != r && l.Obj? && r.Obj?
    ensures name in ListAt(MergeProperty(l, r).fields, "required") <==>
            name in ListAt(l.fields, "required") && name in ListAt(r.fields, "required")
  {
    CommonIsIntersection(ListAt(l.fields, "required"), ListAt(r.fields, "required"));
    var m := MergeProperty(l, r).fields;
    if "required" in m {
      assert m["required"] == MergedValue(l, r, "required");
    }
  }

  lemma MergedRequired(l: Json, r: Json, v: Json)
    requires l != r && l.Obj? && r.Obj?
    ensures RequiredOk(l.fields, v) || RequiredOk(r.fields, v) ==> RequiredOk(MergeProperty(l, r).fields, v)
  {
    CommonIsIntersection(ListAt(l.fields, "required"), ListAt(r.fields, "required"));
  }

  lemma TableAccepts(o: Oracle, defs: Fields, seen: seq<string>, s: Json, v: Json)
    requires s.Obj? && v.Obj? && PropertiesOk(o, defs, seen, s, v)
    ensures forall name | name in v.fields ::
              if name in Table(s.fields) then Accepts(o, defs, seen, Table(s.fields)[name], v.fields[name])
              else !ForbidsExtras(s.fields)
  {
  }

  // -------------------------------------- exactly which values a merge keeps

  /** An `enum` that one side only has is an `enum` of the merge. */
  predicate OneSidedEnumOk(l: Fields, r: Fields, v: Json) {
    && ("enum" in l && "enum" !in r ==> EnumOk(l, v))
    && ("enum" in r && "enum" !in l ==> EnumOk(r, v))
  }

  /** A name that one side only declares keeps its schema, and the left side's schema
      for undeclared names stays when the right side has none. */
  ghost predicate OneSidedNameOk(o: Oracle, defs: Fields, seen: seq<string>, l: Fields, r: Fields, name: string,
                                 v: Json) {
    && (name in Table(l) && name !in Table(r) ==> Accepts(o, defs, seen, Table(l)[name], v))
    && (name in Table(r) && name !in Table(l) ==> Accepts(o, defs, seen, Table(r)[name], v))
    && (name !in Table(l) && name !in Table(r) && "additionalProperties" in l && "additionalProperties" !in r ==>
          Accepts(o, defs, seen, l["additionalProperties"], v))
  }

  ghost predicate OneSidedNamesOk(o: Oracle, defs: Fields, seen: seq<string>, l: Fields, r: Fields, v: Json) {
    v.Obj? ==> forall name | name in v.fields :: OneSidedNameOk(o, defs, seen, l, r, name, v.fields[name])
  }

  /** The other keywords of both sides together, the left one's where both have one. */
  ghost predicate JointOthersOk(o: Oracle, defs: Fields, seen: seq<string>, l: Fields, r: Fields, v: Json) {
    OthersOk(o, defs, seen, Obj(Others(r) + Others(l)), v)
  }

  lemma EnumOfMerge(l: Json, r: Json, v: Json)
    requires l != r && l.Obj? && r.Obj? && Shaped(l.fields) && Shaped(r.fields)
    requires EnumOk(l.fields, v) || EnumOk(r.fields, v)
    ensures EnumOk(MergeProperty(l, r).fields, v) <==> OneSidedEnumOk(l.fields, r.fields, v)
  {
    var m := MergeProperty(l, r).fields;
    if "enum" in m {
      assert m["enum"] == MergedValue(l, r, "enum");
    }
    if "enum" in l.fields && "enum" in r.fields {
      DedupeKeepsElements(l.fields["enum"].items + r.fields["enum"].items);
    }
  }

  lemma ExtrasOfMerge(l: Json, r: Json)
    requires l != r && l.Obj? && r.Obj?
    ensures var m := MergeProperty(l, r).fields;
            && ("additionalProperties" in m <==>
                  "additionalProperties" in l.fields &&
                  ("additionalProperties" in r.fields ==> ForbidsExtras(l.fields) && ForbidsExtras(r.fields)))
            && ("additionalProperties" in m ==> m["additionalProperties"] == l.fields["additionalProperties"])
  {
    var m := MergeProperty(l, r).fields;
    if "additionalProperties" in m {
      assert m["additionalProperties"] == MergedValue(l, r, "additionalProperties");
    }
  }

  /** The keywords that merge are well formed wherever two object schemas meet. */
  ghost predicate DeepShaped(l: Json, r: Json) {
    l != r && l.Obj? && r.Obj? ==>
      && Shaped(l.fields) && Shaped(r.fields)
      && forall name | name in Table(l.fields) && name in Table(r.fields) ::
           DeepShaped(Table(l.fields)[name], Table(r.fields)[name])
  }

  /** The constraints that the merge adds to what either side accepts: those of one
      side alone, here and wherever the two sides declare the same name. */
  ghost predicate Keeps(o: Oracle, defs: Fields, seen: seq<string>, l: Json, r: Json, v: Json)
    decreases l, 1
  {
    if l == r then true
    else if !l.Obj? || !r.Obj? then Accepts(o, defs, seen, l, v)
    else
      && JointOthersOk(o, defs, seen, l.fields, r.fields, v)
      && OneSidedEnumOk(l.fields, r.fields, v)
      && OneSidedNamesOk(o, defs, seen, l.fields, r.fields, v)
      && SharedNamesKept(o, defs, seen, l, r, v)
  }

  ghost predicate SharedNamesKept(o: Oracle, defs: Fields, seen: seq<string>, l: Json, r: Json, v: Json)
    requires l.Obj? && r.Obj?
    decreases l, 0
  {
    v.Obj? ==>
      forall name | name in v.fields && name in Table(l.fields) && name in Table(r.fields) ::
        Keeps(o, defs, seen, Table(l.fields)[name], Table(r.fields)[name], v.fields[name])
  }

  /** What the merge asks of one name of an object. */
  ghost predicate MergedNameOk(o: Oracle, defs: Fields, seen: seq<string>, l: Json, r: Json, name: string, v: Json)
    requires l != r && l.Obj? && r.Obj?
  {
    var m := MergeProperty(l, r).fields;
    if name in Table(m) then Accepts(o, defs, seen, Table(m)[name], v)
    else "additionalProperties" in m ==> Accepts(o, defs, seen, m["additionalProperties"], v)
  }

  lemma {:induction false} NameOfMerge(o: Oracle, defs: Fields, seen: seq<string>, l: Json, r: Json, v: Json,
                                       name: string)
    requires l != r && l.Obj? && r.Obj? && DeepShaped(l, r) && v.Obj? && name in v.fields
    requires PropertiesOk(o, defs, seen, l, v) || PropertiesOk(o, defs, seen, r, v)
    ensures MergedNameOk(o, defs, seen, l, r, name, v.fields[name]) <==>
            && OneSidedNameOk(o, defs, seen, l.fields, r.fields, name, v.fields[name])
            && (name in Table(l.fields) && name in Table(r.fields) ==>
                  Keeps(o, defs, seen, Table(l.fields)[name], Table(r.fields)[name], v.fields[name]))
    decreases l, 0
  {
    MergedTable(l, r);
    ExtrasOfMerge(l, r);
    var tl, tr := Table(l.fields), Table(r.fields);
    if PropertiesOk(o, defs, seen, l, v) {
      TableAccepts(o, defs, seen, l, v);
    } else {
      TableAccepts(o, defs, seen, r, v);
    }
    if name in tl && name in tr {
      MergeKeepsIff(o, defs, seen, tl[name], tr[name], v.fields[name]);
    }
  }

  lemma {:induction false} NamesOfMerge(o: Oracle, defs: Fields, seen: seq<string>, l: Json, r: Json, v: Json)
    requires l != r && l.Obj? && r.Obj? && DeepShaped(l, r)
    requires PropertiesOk(o, defs, seen, l, v) || PropertiesOk(o, defs, seen, r, v)
    ensures PropertiesOk(o, defs, seen, MergeProperty(l, r), v) <==>
            OneSidedNamesOk(o, defs, seen, l.fields, r.fields, v) && SharedNamesKept(o, defs, seen, l, r, v)
    decreases l, 1
  {
    if v.Obj? {
      MergedTable(l, r);
      forall name | name in v.fields
        ensures MergedNameOk(o, defs, seen, l, r, name, v.fields[name]) <==>
                && OneSidedNameOk(o, defs, seen, l.fields, r.fields, name, v.fields[name])
                && (name in Table(l.fields) && name in Table(r.fields) ==>
                      Keeps(o, defs, seen, Table(l.fields)[name], Table(r.fields)[name], v.fields[name]))
      {
        NameOfMerge(o, defs, seen, l, r, v, name);
      }
      assert PropertiesOk(o, defs, seen, MergeProperty(l, r), v) <==>
             forall name | name in v.fields :: MergedNameOk(o, defs, seen, l, r, name, v.fields[name]);
    }
  }

  /** Exactly which of the values that either side accepts the merge keeps, at any
      nesting depth and whatever the two schemas require, declare or forbid: those
      that every one-sided constraint accepts too. */
  lemma {:induction false} MergeKeepsIff(o: Oracle, defs: Fields, seen: seq<string>, l: Json, r: Json, v: Json)
    requires DeepShaped(l, r)
    requires Accepts(o, defs, seen, l, v) || Accepts(o, defs, seen, r, v)
    ensures Accepts(o, defs, seen, MergeProperty(l, r), v) <==> Keeps(o, defs, seen, l, r, v)
    decreases l, 2
  {
    if l != r && l.Obj? && r.Obj? {
      var m := MergeProperty(l, r);
      MergedOthers(l, r);
      OthersOnly(Others(r.fields) + Others(l.fields), l.fields, r.fields);
      SameOthersOk(o, defs, seen, m, Obj(Others(r.fields) + Others(l.fields)), v);
      EnumOfMerge(l, r, v);
      MergedRequired(l, r, v);
      NamesOfMerge(o, defs, seen, l, r, v);
    }
  }

  // ------------------------------------------- exactly what a merge accepts

  /** The merged `enum`: a value of either list, or of the one list there is. */
  predicate EitherEnumOk(l: Fields, r: Fields, v: Json) {
    "enum" in l || "enum" in r ==> v in ListAt(l, "enum") || v in ListAt(r, "enum")
  }

  /** The names both sides require. */
  ghost predicate BothRequiredOk(l: Fields, r: Fields, v: Json) {
    v.Obj? ==> forall name | Str(name) in ListAt(l, "required") && Str(name) in ListAt(r, "required") ::
                 name in v.fields
  }

  /** A name that neither side declares is refused when both refuse it; otherwise only a
      constraint that the left side has and the right one lacks remains. */
  ghost predicate UndeclaredNameOk(o: Oracle, defs: Fields, seen: seq<string>, l: Fields, r: Fields, v: Json) {
    && !(ForbidsExtras(l) && ForbidsExtras(r))
    && ("additionalProperties" in l && "additionalProperties" !in r ==>
          Accepts(o, defs, seen, l["additionalProperties"], v))
  }

  /** What the merge of two schemas means, keyword by keyword. */
  ghost predicate MergeMeaning(o: Oracle, defs: Fields, seen: seq<string>, l: Json, r: Json, v: Json)
    decreases l, 1
  {
    if l == r || !l.Obj? || !r.Obj? then Accepts(o, defs, seen, l, v)
    else
      && JointOthersOk(o, defs, seen, l.fields, r.fields, v)
      && EitherEnumOk(l.fields, r.fields, v)
      && BothRequiredOk(l.fields, r.fields, v)
      && (v.Obj? ==> forall name | name in v.fields :: NameMeaning(o, defs, seen, l, r, name, v.fields[name]))
  }

  ghost predicate NameMeaning(o: Oracle, defs: Fields, seen: seq<string>, l: Json, r: Json, name: string, v: Json)
    requires l.Obj? && r.Obj?
    decreases l, 0
  {
    var tl, tr := Table(l.fields), Table(r.fields);
    if name in tl && name in tr then MergeMeaning(o, defs, seen, tl[name], tr[name], v)
    else if name in tl then Accepts(o, defs, seen, tl[name], v)
    else if name in tr then Accepts(o, defs, seen, tr[name], v)
    else UndeclaredNameOk(o, defs, seen, l.fields, r.fields, v)
  }

  lemma {:induction false} NameMeans(o: Oracle, defs: Fields, seen: seq<string>, l: Json, r: Json, name: string,
                                     v: Json)
    requires l != r && l.Obj? && r.Obj? && DeepShaped(l, r)
    ensures MergedNameOk(o, defs, seen, l, r, name, v) <==> NameMeaning(o, defs, seen, l, r, name, v)
    decreases l, 0
  {
    MergedTable(l, r);
    ExtrasOfMerge(l, r);
    var tl, tr := Table(l.fields), Table(r.fields);
    if name in tl && name in tr {
      MergeMeans(o, defs, seen, tl[name], tr[name], v);
    }
  }

  /** The merge accepts exactly that, for every value and any two schemas. */
  lemma {:induction false} MergeMeans(o: Oracle, defs: Fields, seen: seq<string>, l: Json, r: Json, v: Json)
    requires DeepShaped(l, r)
    ensures Accepts(o, defs, seen, MergeProperty(l, r), v) <==> MergeMeaning(o, defs, seen, l, r, v)
    decreases l, 1
  {
    if l != r && l.Obj? && r.Obj? {
      var m := MergeProperty(l, r);
      MergedOthers(l, r);
      OthersOnly(Others(r.fields) + Others(l.fields), l.fields, r.fields);
      SameOthersOk(o, defs, seen, m, Obj(Others(r.fields) + Others(l.fields)), v);
      EitherEnumOfMerge(l, r, v);
      BothRequiredOfMerge(l, r, v);
      MergedTable(l, r);
      if v.Obj? {
        forall name | name in v.fields
          ensures MergedNameOk(o, defs, seen, l, r, name, v.fields[name]) <==>
                  NameMeaning(o, defs, seen, l, r, name, v.fields[name])
        {
          NameMeans(o, defs, seen, l, r, name, v.fields[name]);
        }
        assert PropertiesOk(o, defs, seen, m, v) <==>
               forall name | name in v.fields :: MergedNameOk(o, defs, seen, l, r, name, v.fields[name]);
      }
    }
  }

  lemma EitherEnumOfMerge(l: Json, r: Json, v: Json)
    requires l != r && l.Obj? && r.Obj? && Shaped(l.fields) && Shaped(r.fields)
    ensures EnumOk(MergeProperty(l, r).fields, v) <==> EitherEnumOk(l.fields, r.fields, v)
  {
    var m := MergeProperty(l, r).fields;
    if "enum" in m {
      assert m["enum"] == MergedValue(l, r, "enum");
    }
    if "enum" in l.fields && "enum" in r.fields {
      DedupeKeepsElements(l.fields["enum"].items + r.fields["enum"].items);
    }
  }

  lemma BothRequiredOfMerge(l: Json, r: Json, v: Json)
    requires l != r && l.Obj? && r.Obj?
    ensures RequiredOk(MergeProperty(l, r).fields, v) <==> BothRequiredOk(l.fields, r.fields, v)
  {
    forall name: string
      ensures Str(name) in ListAt(MergeProperty(l, r).fields, "required") <==>
              Str(name) in ListAt(l.fields, "required") && Str(name) in ListAt(r.fields, "required")
    {
      MergedRequiredIsIntersection(l, r, Str(name));
    }
  }

  /** Titles and descriptions: both texts when they differ, or the one that says
      something. */
  lemma MergedLabel(l: Json, r: Json, key: string)
    requires l != r && l.Obj? && r.Obj? && key in {"title", "description"}
    ensures var m := MergeProperty(l, r).fields;
            var left, right := Label(l.fields, key), Label(r.fields, key);
            && (left != "" && right != "" && left != right ==> key in m && m[key] == Str(left + " | " + right))
            && (left != "" && (right == "" || left == right) ==> key in m && m[key] == Str(left))
            && (left == "" && right != "" ==> key in m && m[key] == Str(right))
            && (key !in l.fields && key !in r.fields ==> key !in m)
  {
    var m := MergeProperty(l, r).fields;
    assert key in m ==> m[key] == MergedValue(l, r, key);
    assert KeepsKey(l.fields, r.fields, key) <==> key in l.fields || key in r.fields;
  }

  /** The text under a key, empty if there is none. */
  function Label(f: Fields, key: string): string {
    if key in f && f[key].Str? then f[key].s else ""
  }

  lemma OthersOnly(both: Fields, l: Fields, r: Fields)
    requires both == Others(r) + Others(l)
    ensures Others(both) == both
  {
  }

  lemma {:induction false} MergeableIsDeepShaped(l: Json, r: Json)
    requires Mergeable(l, r)
    ensures DeepShaped(l, r)
  {
    if l != r {
      forall name | name in Table(l.fields) && name in Table(r.fields)
        ensures DeepShaped(Table(l.fields)[name], Table(r.fields)[name])
      {
        MergeableIsDeepShaped(Table(l.fields)[name], Table(r.fields)[name]);
      }
    }
  }

  /** Merging two mergeable property schemas accepts what either accepts. */
  lemma {:induction false} MergeAccepts(o: Oracle, defs: Fields, seen: seq<string>, l: Json, r: Json, v: Json)
    requires Mergeable(l, r)
    requires Accepts(o, defs, seen, l, v) || Accepts(o, defs, seen, r, v)
    ensures Accepts(o, defs, seen, MergeProperty(l, r), v)
    decreases l, 1
  {
    if l != r {
      FlatMergeKeepsIff(o, defs, seen, l, r, v);
      JointOthersAccept(o, defs, seen, l, r, v);
      OneSidedNamesAccept(o, defs, seen, l, r, v);
    }
  }

  /** When the shared properties are mergeable only the top level matters. */
  lemma {:induction false} FlatMergeKeepsIff(o: Oracle, defs: Fields, seen: seq<string>, l: Json, r: Json, v: Json)
    requires l != r && l.Obj? && r.Obj? && Shaped(l.fields) && Shaped(r.fields)
    requires MergeableTables(Table(l.fields), Table(r.fields))
    requires Accepts(o, defs, seen, l, v) || Accepts(o, defs, seen, r, v)
    ensures Accepts(o, defs, seen, MergeProperty(l, r), v) <==>
            && JointOthersOk(o, defs, seen, l.fields, r.fields, v)
            && OneSidedEnumOk(l.fields, r.fields, v)
            && OneSidedNamesOk(o, defs, seen, l.fields, r.fields, v)
    decreases l, 0
  {
    var tl, tr := Table(l.fields), Table(r.fields);
    forall name | name in tl && name in tr ensures DeepShaped(tl[name], tr[name]) {
      MergeableIsDeepShaped(tl[name], tr[name]);
    }
    MergeKeepsIff(o, defs, seen, l, r, v);
    if v.Obj? {
      forall name | name in v.fields && name in tl && name in tr
        ensures Keeps(o, defs, seen, tl[name], tr[name], v.fields[name])
      {
        if PropertiesOk(o, defs, seen, l, v) {
          TableAccepts(o, defs, seen, l, v);
        } else {
          TableAccepts(o, defs, seen, r, v);
        }
        MergeAccepts(o, defs, seen, tl[name], tr[name], v.fields[name]);
        MergeKeepsIff(o, defs, seen, tl[name], tr[name], v.fields[name]);
      }
    }
  }

  lemma JointOthersAccept(o: Oracle, defs: Fields, seen: seq<string>, l: Json, r: Json, v: Json)
    requires l.Obj? && r.Obj? && Others(l.fields) == Others(r.fields)
    requires Accepts(o, defs, seen, l, v) || Accepts(o, defs, seen, r, v)
    ensures JointOthersOk(o, defs, seen, l.fields, r.fields, v)
  {
    var both := Others(r.fields) + Others(l.fields);
    assert both == Others(l.fields);
    OthersOnly(both, l.fields, r.fields);
    SameOthersOk(o, defs, seen, l, Obj(both), v);
    SameOthersOk(o, defs, seen, r, Obj(both), v);
  }

  lemma OneSidedNamesAccept(o: Oracle, defs: Fields, seen: seq<string>, l: Json, r: Json, v: Json)
    requires l.Obj? && r.Obj? && OneSidedForbidden(l.fields, r.fields)
    requires "additionalProperties" in l.fields ==> "additionalProperties" in r.fields
    requires PropertiesOk(o, defs, seen, l, v) || PropertiesOk(o, defs, seen, r, v)
    ensures OneSidedNamesOk(o, defs, seen, l.fields, r.fields, v)
  {
    if v.Obj? {
      forall name | name in v.fields ensures OneSidedNameOk(o, defs, seen, l.fields, r.fields, name, v.fields[name]) {
        if PropertiesOk(o, defs, seen, l, v) {
          TableAccepts(o, defs, seen, l, v);
        } else {
          TableAccepts(o, defs, seen, r, v);
        }
      }
    }
  }

  // ------------------------------------------------------- values that are lost

  /** With a `false` on the left that the right side lacks, and schemas alike in all
      else, the merge keeps an object that either side accepts exactly when each of
      its names is declared by the right side, or by the left side with a schema
      that accepts its value. */
  lemma LeftFalseKeepsIff(o: Oracle, defs: Fields, seen: seq<string>, l: Json, r: Json, v: Json)
    requires l.Obj? && r.Obj? && Shaped(l.fields) && Shaped(r.fields) && Others(l.fields) == Others(r.fields)
    requires "enum" in l.fields <==> "enum" in r.fields
    requires ForbidsExtras(l.fields) && "additionalProperties" !in r.fields
    requires MergeableTables(Table(l.fields), Table(r.fields))
    requires Accepts(o, defs, seen, l, v) || Accepts(o, defs, seen, r, v)
    ensures Accepts(o, defs, seen, MergeProperty(l, r), v) <==>
            (v.Obj? ==> forall name | name in v.fields ::
               || name in Table(r.fields)
               || (name in Table(l.fields) && Accepts(o, defs, seen, Table(l.fields)[name], v.fields[name])))
  {
    FlatMergeKeepsIff(o, defs, seen, l, r, v);
    JointOthersAccept(o, defs, seen, l, r, v);
    if v.Obj? {
      forall name | name in v.fields
        ensures OneSidedNameOk(o, defs, seen, l.fields, r.fields, name, v.fields[name]) <==>
                || name in Table(r.fields)
                || (name in Table(l.fields) && Accepts(o, defs, seen, Table(l.fields)[name], v.fields[name]))
      {
        if PropertiesOk(o, defs, seen, l, v) {
          TableAccepts(o, defs, seen, l, v);
        } else {
          TableAccepts(o, defs, seen, r, v);
        }
      }
    }
  }

  /** With an `enum` on one side only, and schemas alike in all else, the merge keeps
      a value that either side accepts exactly when it is in that list. */
  lemma OneSidedEnumKeepsIff(o: Oracle, defs: Fields, seen: seq<string>, l: Json, r: Json, v: Json)
    requires l.Obj? && r.Obj? && Shaped(l.fields) && Shaped(r.fields) && Others(l.fields) == Others(r.fields)
    requires "enum" in l.fields <==> "enum" !in r.fields
    requires "additionalProperties" in l.fields ==> "additionalProperties" in r.fields
    requires OneSidedForbidden(l.fields, r.fields) && MergeableTables(Table(l.fields), Table(r.fields))
    requires Accepts(o, defs, seen, l, v) || Accepts(o, defs, seen, r, v)
    ensures Accepts(o, defs, seen, MergeProperty(l, r), v) <==>
            v in (if "enum" in l.fields then l.fields["enum"].items else r.fields["enum"].items)
  {
    FlatMergeKeepsIff(o, defs, seen, l, r, v);
    JointOthersAccept(o, defs, seen, l, r, v);
    OneSidedNamesAccept(o, defs, seen, l, r, v);
  }

  lemma EmptySchemaAccepts(o: Oracle, defs: Fields, seen: seq<string>, v: Json)
    requires Lawful(o)
    ensures Accepts(o, defs, seen, Obj(map[]), v)
  {
    assert Rest(map[]) == map[];
  }

  /** The merge of `{additionalProperties: false}` and `{}` refuses an object that the
      second accepts. */
  lemma LeftFalseLosesAValue(o: Oracle, defs: Fields, seen: seq<string>)
    requires Lawful(o)
    ensures var l, r, v := Obj(map["additionalProperties" := Bool(false)]), Obj(map[]), Obj(map["x" := Null]);
            Accepts(o, defs, seen, r, v) && !Accepts(o, defs, seen, MergeProperty(l, r), v)
  {
    var l, r, v := Obj(map["additionalProperties" := Bool(false)]), Obj(map[]), Obj(map["x" := Null]);
    EmptySchemaAccepts(o, defs, seen, v);
    assert Others(l.fields) == Others(r.fields);
    LeftFalseKeepsIff(o, defs, seen, l, r, v);
    assert "x" in v.fields;
  }

  /** The merge of `{enum: ["a"]}` and `{}` refuses a text that the second accepts. */
  lemma OneSidedEnumLosesAValue(o: Oracle, defs: Fields, seen: seq<string>)
    requires Lawful(o)
    ensures var l, r, v := Obj(map["enum" := Arr([Str("a")])]), Obj(map[]), Str("b");
            Accepts(o, defs, seen, r, v) && !Accepts(o, defs, seen, MergeProperty(l, r), v)
  {
    var l, r, v := Obj(map["enum" := Arr([Str("a")])]), Obj(map[]), Str("b");
    EmptySchemaAccepts(o, defs, seen, v);
    assert Others(l.fields) == Others(r.fields);
    OneSidedEnumKeepsIff(o, defs, seen, l, r, v);
  }

  function OneProperty(name: string, s: Json): Json {
    Obj(map["properties" := Obj(map[name := s])])
  }

  lemma OnePropertyAccepts(o: Oracle, defs: Fields, seen: seq<string>, name: string, s: Json, v: Json)
    requires Lawful(o) && Accepts(o, defs, seen, s, v)
    ensures Accepts(o, defs, seen, OneProperty(name, s), Obj(map[name := v]))
  {
    var whole, u := OneProperty(name, s), Obj(map[name := v]);
    EmptySchemaAccepts(o, defs, seen, u);
    assert Others(whole.fields) == Others(map[]);
    SameOthersOk(o, defs, seen, whole, Obj(map[]), u);
    assert PropertiesOk(o, defs, seen, whole, u);
  }

  lemma OnePropertyShaped(name: string, s: Json)
    ensures Shaped(OneProperty(name, s).fields) && Table(OneProperty(name, s).fields) == map[name := s]
  {
  }

  /** A value that the merge of two schemas loses is lost one level up too, when both
      are declared for the same name. */
  lemma NestedLoss(o: Oracle, defs: Fields, seen: seq<string>, name: string, l: Json, r: Json, v: Json)
    requires Lawful(o) && DeepShaped(l, r) && l != r && Accepts(o, defs, seen, r, v)
    requires !Accepts(o, defs, seen, MergeProperty(l, r), v)
    ensures var outerL, outerR, u := OneProperty(name, l), OneProperty(name, r), Obj(map[name := v]);
            Accepts(o, defs, seen, outerR, u) && !Accepts(o, defs, seen, MergeProperty(outerL, outerR), u)
  {
    var outerL, outerR, u := OneProperty(name, l), OneProperty(name, r), Obj(map[name := v]);
    OnePropertyAccepts(o, defs, seen, name, r, v);
    OnePropertyShaped(name, l);
    OnePropertyShaped(name, r);
    assert Table(outerL.fields)[name] == l && Table(outerR.fields)[name] == r && outerL != outerR;
    MergeKeepsIff(o, defs, seen, l, r, v);
    assert name in u.fields && !SharedNamesKept(o, defs, seen, outerL, outerR, u);
    MergeKeepsIff(o, defs, seen, outerL, outerR, u);
  }

  /** So the merge of `{properties: {p: {enum: ["a"]}}}` and `{properties: {p: {}}}`
      refuses an object that the second accepts. */
  lemma NestedEnumLosesAValue(o: Oracle, defs: Fields, seen: seq<string>)
    requires Lawful(o)
    ensures var l, r := OneProperty("p", Obj(map["enum" := Arr([Str("a")])])), OneProperty("p", Obj(map[]));
            var v := Obj(map["p" := Str("b")]);
            Accepts(o, defs, seen, r, v) && !Accepts(o, defs, seen, MergeProperty(l, r), v)
  {
    OneSidedEnumLosesAValue(o, defs, seen);
    var l, r := Obj(map["enum" := Arr([Str("a")])]), Obj(map[]);
    assert Table(r.fields) == map[];
    NestedLoss(o, defs, seen, "p", l, r, Str("b"));
  }

  // ------------------------------------------------------------ along a fold

  lemma MergedForbids(a: Json, b: Json, c: Json)
    requires a != b && a.Obj? && b.Obj? && c.Obj? && MergeableObjects(a, b)
    requires OneSidedForbidden(a.fields, c.fields) && OneSidedForbidden(b.fields, c.fields)
    ensures OneSidedForbidden(MergeProperty(a, b).fields, c.fields)
  {
    MergedKeywords(a, b);
    assert Table(MergeProperty(a, b).fields).Keys == Table(a.fields).Keys + Table(b.fields).Keys;
  }

  /** Each merge keeps mergeability with whatever was mergeable with both parts. */
  lemma {:induction false} MergeStaysMergeable(a: Json, b: Json, c: Json)
    requires Mergeable(a, b) && Mergeable(a, c) && Mergeable(b, c)
    ensures Mergeable(MergeProperty(a, b), c)
    decreases a
  {
    if a != b && MergeProperty(a, b) != c {
      var m := MergeProperty(a, b);
      MergedKeywords(a, b);
      assert MergeableObjects(a, c) && MergeableObjects(b, c);
      MergedForbids(a, b, c);
      var ta, tb, tc, tm := Table(a.fields), Table(b.fields), Table(c.fields), Table(m.fields);
      forall name | name in tm && name in tc
        ensures Mergeable(tm[name], tc[name])
      {
        if name in ta && name in tb {
          MergeStaysMergeable(ta[name], tb[name], tc[name]);
        }
      }
    }
  }

  // -------------------------------------------------- folding the alternatives

  /** One alternative of an object union. */
  predicate ObjectVariant(s: Json) {
    s.Obj? && Shaped(s.fields) && "type" in s.fields && s.fields["type"] == Str("object")
  }

  ghost predicate MergeableVariants(variants: seq<Json>) {
    && (forall i | 0 <= i < |variants| :: ObjectVariant(variants[i]))
    && (forall i, j | 0 <= i < j < |variants| ::
          && OneSidedForbidden(variants[i].fields, variants[j].fields)
          && MergeableTables(Table(variants[i].fields), Table(variants[j].fields)))
  }

  lemma {:induction false} FoldedNames(variants: seq<Json>, name: string)
    requires forall i | 0 <= i < |variants| :: variants[i].Obj?
    ensures name in FoldedProperties(variants) <==>
            exists i | 0 <= i < |variants| :: name in Table(variants[i].fields)
  {
    if variants == [] {
    } else {
      var n := |variants| - 1;
      FoldedNames(variants[..n], name);
      assert PropertyTable(variants[n]) == Obj(Table(variants[n].fields));
      forall i | 0 <= i < n ensures variants[..n][i] == variants[i] {
      }
    }
  }

  lemma {:induction false} FoldStaysMergeable(variants: seq<Json>, name: string, c: Json)
    requires MergeableVariants(variants)
    requires forall i | 0 <= i < |variants| ::
               name in Table(variants[i].fields) ==> Mergeable(Table(variants[i].fields)[name], c)
    ensures name in FoldedProperties(variants) ==> Mergeable(FoldedProperties(variants)[name], c)
    decreases |variants|, 1
  {
    if variants == [] {
    } else {
      var n := |variants| - 1;
      var init, last := variants[..n], Table(variants[n].fields);
      assert PropertyTable(variants[n]) == Obj(last);
      assert MergeableVariants(init);
      FoldStaysMergeable(init, name, c);
      if name in last {
        FoldMergeableWithNext(variants, name);
        if name in FoldedProperties(init) {
          MergeStaysMergeable(FoldedProperties(init)[name], last[name], c);
        }
      }
    }
  }

  lemma {:induction false} FoldMergeableWithNext(variants: seq<Json>, name: string)
    requires MergeableVariants(variants) && variants != []
    requires name in Table(variants[|variants| - 1].fields)
    ensures var init := FoldedProperties(variants[..|variants| - 1]);
            name in init ==> Mergeable(init[name], Table(variants[|variants| - 1].fields)[name])
    decreases |variants|, 0
  {
    var n := |variants| - 1;
    assert forall i | 0 <= i < n :: MergeableTables(Table(variants[i].fields), Table(variants[n].fields));
    FoldStaysMergeable(variants[..n], name, Table(variants[n].fields)[name]);
  }

  lemma {:induction false} FoldedPropertyAccepts(o: Oracle, defs: Fields, seen: seq<string>,
                                                 variants: seq<Json>, k: nat, name: string, v: Json)
    requires MergeableVariants(variants) && k < |variants|
    requires name in Table(variants[k].fields)
    requires Accepts(o, defs, seen, Table(variants[k].fields)[name], v)
    ensures name in FoldedProperties(variants)
    ensures Accepts(o, defs, seen, FoldedProperties(variants)[name], v)
  {
    var n := |variants| - 1;
    var init, last := variants[..n], Table(variants[n].fields);
    assert PropertyTable(variants[n]) == Obj(last);
    assert MergeableVariants(init);
    if k < n {
      FoldedPropertyAccepts(o, defs, seen, init, k, name, v);
    }
    if name in last && name in FoldedProperties(init) {
      FoldMergeableWithNext(variants, name);
      MergeAccepts(o, defs, seen, FoldedProperties(init)[name], last[name], v);
    }
  }

  lemma {:induction false} MergedRequiredEverywhere(variants: seq<Json>, k: nat, v: Json)
    requires k < |variants| && variants[k].Obj? && RequiredOk(variants[k].fields, v)
    ensures RequiredOk(MergeVariants(variants), v)
  {
    var names := Dedupe(AllRequired(variants));
    RequiredEverywhereElements(names, variants);
    StringsOfElements(ListAt(variants[k].fields, "required"));
    assert variants[k] in variants;
  }

  lemma MergedVariantsShape(variants: seq<Json>)
    ensures var f := MergeVariants(variants);
            && f.Keys <= {"type", "properties", "required", "additionalProperties"}
            && "type" in f && f["type"] == Str("object")
            && Table(f) == FoldedProperties(variants)
            && (ForbidsExtras(f) <==> variants != [] && forall v | v in variants :: ForbidsExtras(FieldsOf(v)))
            && ("additionalProperties" in f ==> ForbidsExtras(f))
  {
    ObjectKeywords();
  }

  lemma MergedVariantsOthers(o: Oracle, defs: Fields, seen: seq<string>, variants: seq<Json>, v: Json)
    requires Lawful(o) && v.Obj?
    ensures OthersOk(o, defs, seen, Obj(MergeVariants(variants)), v)
    ensures EnumOk(MergeVariants(variants), v)
  {
    MergedVariantsShape(variants);
    assert Rest(MergeVariants(variants)) == map[];
  }

  lemma ForeignNameForbidden(variants: seq<Json>, k: nat, name: string)
    requires MergeableVariants(variants) && k < |variants|
    ensures name in FoldedProperties(variants) && name !in Table(variants[k].fields) ==>
              ForbidsExtras(variants[k].fields)
  {
    FoldedNames(variants, name);
    if name in FoldedProperties(variants) && name !in Table(variants[k].fields) {
      var i :| 0 <= i < |variants| && name in Table(variants[i].fields);
      assert i < k || k < i;
    }
  }

  lemma {:induction false} MergedVariantsProperty(o: Oracle, defs: Fields, seen: seq<string>,
                                                  variants: seq<Json>, k: nat, name: string, v: Json)
    requires MergeableVariants(variants) && k < |variants| && v.Obj? && name in v.fields
    requires PropertiesOk(o, defs, seen, variants[k], v)
    ensures var f := MergeVariants(variants);
            if name in Table(f) then Accepts(o, defs, seen, Table(f)[name], v.fields[name])
            else !ForbidsExtras(f)
  {
    MergedVariantsShape(variants);
    TableAccepts(o, defs, seen, variants[k], v);
    ForeignNameForbidden(variants, k, name);
    assert variants[k] in variants;
    if name in Table(variants[k].fields) {
      FoldedPropertyAccepts(o, defs, seen, variants, k, name, v.fields[name]);
    }
  }

  /** Folding any list of pairwise mergeable object alternatives yields a schema
      that accepts every value accepted by any of them. */
  lemma {:induction false} MergedVariantsAccept(o: Oracle, defs: Fields, seen: seq<string>,
                                                variants: seq<Json>, k: nat, v: Json)
    requires Lawful(o) && MergeableVariants(variants) && k < |variants|
    requires Accepts(o, defs, seen, variants[k], v)
    ensures Accepts(o, defs, seen, Obj(MergeVariants(variants)), v)
  {
    assert TypeOk(variants[k].fields, v);
    MergedVariantsShape(variants);
    MergedVariantsOthers(o, defs, seen, variants, v);
    MergedRequiredEverywhere(variants, k, v);
    forall name | name in v.fields
      ensures var f := MergeVariants(variants);
              if name in Table(f) then Accepts(o, defs, seen, Table(f)[name], v.fields[name])
              else !ForbidsExtras(f)
    {
      MergedVariantsProperty(o, defs, seen, variants, k, name, v);
    }
  }

  // --------------------------------------------- exactly what the fold accepts

  /** What the alternatives declare for a name, in order. */
  function Declarations(variants: seq<Json>, name: string): seq<Json> {
    if variants == [] then []
    else
      var rest, last := Declarations(variants[..|variants| - 1], name), FieldsOf(variants[|variants| - 1]);
      if name in Table(last) then rest + [Table(last)[name]] else rest
  }

  /** Schemas merged from the left. */
  function MergeAll(schemas: seq<Json>): Json
    requires schemas != []
  {
    if |schemas| == 1 then schemas[0]
    else MergeProperty(MergeAll(schemas[..|schemas| - 1]), schemas[|schemas| - 1])
  }

  /** The folded table holds each declared name, with the merge of its declarations. */
  lemma {:induction false} FoldedIsMerged(variants: seq<Json>, name: string)
    ensures name in FoldedProperties(variants) <==> Declarations(variants, name) != []
    ensures name in FoldedProperties(variants) ==>
              FoldedProperties(variants)[name] == MergeAll(Declarations(variants, name))
  {
    if variants != [] {
      var n := |variants| - 1;
      FoldedIsMerged(variants[..n], name);
      var last := Table(FieldsOf(variants[n]));
      assert PropertyTable(variants[n]) == Obj(last);
      if name in last {
        var all := Declarations(variants, name);
        assert all[..|all| - 1] == Declarations(variants[..n], name);
      }
    }
  }

  /** The merged alternatives accept exactly the objects that have the names all of them
      require, whose declared names hold what the merge of their declarations accepts,
      and that have no other names if all alternatives are closed. */
  lemma MergedVariantsMean(o: Oracle, defs: Fields, seen: seq<string>, variants: seq<Json>, v: Json)
    requires Lawful(o) && variants != []
    ensures Accepts(o, defs, seen, Obj(MergeVariants(variants)), v) <==>
            && v.Obj?
            && (forall name: string | (forall u | u in variants :: name in RequiredNames(u)) :: name in v.fields)
            && (forall name | name in v.fields ::
                  if Declarations(variants, name) != [] then
                    Accepts(o, defs, seen, MergeAll(Declarations(variants, name)), v.fields[name])
                  else exists u | u in variants :: !ForbidsExtras(FieldsOf(u)))
  {
    var s := Obj(MergeVariants(variants));
    MergedVariantsShape(variants);
    if v.Obj? {
      MergedVariantsOthers(o, defs, seen, variants, v);
      forall name: string
        ensures Str(name) in ListAt(s.fields, "required") <==> forall u | u in variants :: name in RequiredNames(u)
      {
        MergedVariantsRequire(variants, name);
      }
      forall name ensures name in Table(s.fields) <==> Declarations(variants, name) != []
                  ensures name in Table(s.fields) ==>
                            Table(s.fields)[name] == MergeAll(Declarations(variants, name))
      {
        FoldedIsMerged(variants, name);
      }
      TableMeans(o, defs, seen, s, v);
    } else {
      assert !TypeOk(s.fields, v) && !OthersOk(o, defs, seen, s, v);
    }
  }

  lemma TableMeans(o: Oracle, defs: Fields, seen: seq<string>, s: Json, v: Json)
    requires s.Obj? && v.Obj? && ("additionalProperties" in s.fields ==> ForbidsExtras(s.fields))
    ensures PropertiesOk(o, defs, seen, s, v) <==>
            forall name | name in v.fields ::
              if name in Table(s.fields) then Accepts(o, defs, seen, Table(s.fields)[name], v.fields[name])
              else !ForbidsExtras(s.fields)
  {
  }

  // ------------------------------------------------------ no wider than needed

  predicate RequiredBySome(variants: seq<Json>, name: string) {
    exists i | 0 <= i < |variants| :: name in RequiredNames(variants[i])
  }

  lemma RequiredBySnoc(variants: seq<Json>, name: string)
    requires variants != []
    ensures var n := |variants| - 1;
            RequiredBySome(variants, name) <==>
              RequiredBySome(variants[..n], name) || name in RequiredNames(variants[n])
  {
    var n := |variants| - 1;
    if RequiredBySome(variants[..n], name) {
      var i :| 0 <= i < n && name in RequiredNames(variants[..n][i]);
      assert name in RequiredNames(variants[i]);
    }
    if i :| 0 <= i < n && name in RequiredNames(variants[i]) {
      assert name in RequiredNames(variants[..n][i]);
    }
  }

  lemma {:induction false} AllRequiredElements(variants: seq<Json>, name: string)
    ensures name in AllRequired(variants) <==> RequiredBySome(variants, name)
  {
    if variants == [] {
    } else {
      AllRequiredElements(variants[..|variants| - 1], name);
      RequiredBySnoc(variants, name);
    }
  }

  lemma MergedRequiredList(variants: seq<Json>)
    ensures ListAt(MergeVariants(variants), "required") == RequiredEverywhere(Dedupe(AllRequired(variants)), variants)
  {
    ObjectKeywords();
  }

  /** The merged object requires exactly the names every alternative requires. */
  lemma MergedVariantsRequire(variants: seq<Json>, name: string)
    requires variants != []
    ensures Str(name) in ListAt(MergeVariants(variants), "required") <==>
            forall v | v in variants :: name in RequiredNames(v)
  {
    MergedRequiredList(variants);
    RequiredEverywhereElements(Dedupe(AllRequired(variants)), variants);
    assert Str(name) in RequiredEverywhere(Dedupe(AllRequired(variants)), variants) <==>
      name in Dedupe(AllRequired(variants)) && forall v | v in variants :: name in RequiredNames(v);
    DedupeKeepsElements(AllRequired(variants));
    AllRequiredElements(variants, name);
    assert variants[0] in variants;
  }

  /** What the merged object accepts is an object with the common required names;
      when every alternative is closed it has only names some alternative declares,
      and each of their values is accepted by the merge of their declarations. */
  lemma MergedVariantsBound(o: Oracle, defs: Fields, seen: seq<string>, variants: seq<Json>, v: Json)
    requires variants != [] && MergeableVariants(variants)
    requires Accepts(o, defs, seen, Obj(MergeVariants(variants)), v)
    ensures v.Obj?
    ensures forall name | (forall u | u in variants :: name in RequiredNames(u)) :: name in v.fields
    ensures (forall u | u in variants :: ForbidsExtras(FieldsOf(u))) ==>
              forall name | name in v.fields :: exists i | 0 <= i < |variants| :: name in Table(variants[i].fields)
    ensures forall name | name in v.fields && name in FoldedProperties(variants) ::
              Accepts(o, defs, seen, FoldedProperties(variants)[name], v.fields[name])
  {
    var s := Obj(MergeVariants(variants));
    MergedVariantsShape(variants);
    assert OthersOk(o, defs, seen, s, v) && TypeOk(s.fields, v);
    forall name | (forall u | u in variants :: name in RequiredNames(u)) ensures name in v.fields {
      MergedVariantsRequire(variants, name);
    }
    TableAccepts(o, defs, seen, s, v);
    forall name | name in v.fields ensures name in FoldedProperties(variants) <==>
                                           exists i | 0 <= i < |variants| :: name in Table(variants[i].fields)
    {
      FoldedNames(variants, name);
    }
  }

  predicate Enumerates(f: Fields, name: string, v: Json) {
    name in Table(f) && v in ListAt(FieldsOf(Table(f)[name]), "enum")
  }

  predicate EnumeratedBySome(variants: seq<Json>, name: string, v: Json) {
    exists i | 0 <= i < |variants| :: Enumerates(FieldsOf(variants[i]), name, v)
  }

  lemma EnumeratedSnoc(variants: seq<Json>, name: string, v: Json)
    requires variants != []
    ensures var n := |variants| - 1;
            EnumeratedBySome(variants, name, v) <==>
            EnumeratedBySome(variants[..n], name, v) || Enumerates(FieldsOf(variants[n]), name, v)
  {
    var n := |variants| - 1;
    if EnumeratedBySome(variants[..n], name, v) {
      var i :| 0 <= i < n && Enumerates(FieldsOf(variants[..n][i]), name, v);
      assert Enumerates(FieldsOf(variants[i]), name, v);
    }
    if i :| 0 <= i < n && Enumerates(FieldsOf(variants[i]), name, v) {
      assert Enumerates(FieldsOf(variants[..n][i]), name, v);
    }
  }

  predicate DeclaresEnum(f: Fields, name: string) {
    name in Table(f) ==> Table(f)[name].Obj? && HasList(Table(f)[name].fields, "enum")
  }

  /** The `enum` of a property declared by several alternatives, such as their
      discriminator, is the union of theirs. */
  lemma {:induction false} FoldedEnumIsUnion(variants: seq<Json>, name: string, v: Json)
    requires MergeableVariants(variants)
    requires forall i | 0 <= i < |variants| :: DeclaresEnum(variants[i].fields, name)
    ensures name !in FoldedProperties(variants) ==> !EnumeratedBySome(variants, name, v)
    ensures name in FoldedProperties(variants) ==>
              var p := FoldedProperties(variants)[name];
              && p.Obj? && HasList(p.fields, "enum")
              && (v in p.fields["enum"].items <==> EnumeratedBySome(variants, name, v))
  {
    if variants == [] {
    } else {
      var n := |variants| - 1;
      var init, last := variants[..n], Table(variants[n].fields);
      assert PropertyTable(variants[n]) == Obj(last);
      assert MergeableVariants(init);
      FoldedEnumIsUnion(init, name, v);
      EnumeratedSnoc(variants, name, v);
      if name in FoldedProperties(init) && name in last {
        FoldMergeableWithNext(variants, name);
        MergedEnumBoth(FoldedProperties(init)[name], last[name], v);
      }
    }
  }

  lemma MergedEnumBoth(l: Json, r: Json, v: Json)
    requires Mergeable(l, r) && l.Obj? && r.Obj? && HasList(l.fields, "enum") && HasList(r.fields, "enum")
    ensures var m := MergeProperty(l, r);
            && m.Obj? && HasList(m.fields, "enum")
            && (v in m.fields["enum"].items <==> v in l.fields["enum"].items || v in r.fields["enum"].items)
  {
    if l != r {
      MergedKeywords(l, r);
      MergedEnum(l, r, v);
    }
  }
}
