/** Which definition tables make the normalizer publish a dangling reference: exactly
    the ones with a definition that is a text in the wrong place. The only caller
    passes the output of Pydantic, where definitions are schemas, as section 8.2.4 of
    JSON Schema Core 2020-12 requires, so no table of the program is among them. */
module DanglingReferences {
  import opened Options
  import opened JsonValues
  import opened SchemaNormalizer
  import opened SchemaReferences

  /** Definitions refer to definitions only. */
  predicate ClosedTable(defs: Fields) {
    Closed(defs, defs.Keys)
  }

  /** No definition that can be referred to is a text. */
  predicate SchemaTable(defs: Fields) {
    forall name | name in defs && Referable(name) :: !defs[name].Str?
  }

  /** A schema over these definitions, without a dangling reference. */
  predicate OverTable(schema: Fields, defs: Fields) {
    && "$defs" in schema && schema["$defs"] == Obj(defs)
    && RefNames(Obj(schema - {"$defs"})) <= defs.Keys
  }

  /** Every reference left in the output, also inside the re-normalized definitions,
      resolves in the output. */
  ghost predicate OutputResolves(schema: Fields) {
    NormalizeInput(schema).Some? ==>
      var out := NormalizeInput(schema).value;
      RefNames(out) <= if out.Obj? then DefinitionsOf(out.fields).Keys else {}
  }

  ghost predicate AlwaysResolves(defs: Fields) {
    forall schema: Fields | OverTable(schema, defs) :: OutputResolves(schema)
  }

  /** The definitions kept for one reference refer to one another only, once they are
      normalized. */
  ghost predicate SelfContained(defs: Fields, name: string) {
    var kept := Pruned(defs, {name});
    Within(Obj(NormalizeTable(kept)), kept.Keys)
  }

  /** Every text that can be referred to names a definition, and each definition that
      can be referred to is self-contained. */
  ghost predicate SafeTable(defs: Fields) {
    && TextsWithin(defs, defs.Keys)
    && forall name | name in defs && Referable(name) :: SelfContained(defs, name)
  }

  // ------------------------------------------------ a safe table never dangles

  predicate SameAt(defs: Fields, other: Fields, names: set<string>) {
    forall name | name in names :: Agree(defs, other, name)
  }

  /** The normal form depends on the definitions that can be reached only. */
  lemma {:induction false} NormalizeIsLocal(node: Json, defs: Fields, other: Fields, stack: seq<string>,
                                            names: set<string>)
    requires SameAt(defs, other, names) && Closed(defs, names) && Within(node, names)
    ensures Normalize(node, defs, stack) == Normalize(node, other, stack)
    decreases |defs.Keys - Elements(stack)|, node, 2
  {
    if node.Obj? {
      var f := node.fields;
      WithinFields(f, names);
      if HasRef(f) {
        var name := RefName(f["$ref"].s);
        assert Agree(defs, other, name);
        if Resolvable(name, defs, stack) {
          StackGrows(defs, stack, name);
          NormalizeIsLocal(defs[name], defs, other, stack + [name], names);
        }
      } else if IsUnion(f) {
        if RawVariants(f).Arr? {
          NormalizeAllIsLocal(RawVariants(f), defs, other, stack, names);
        }
      } else {
        NormalizeChildrenIsLocal(node, defs, other, stack, names);
      }
    }
  }

  lemma {:induction false} NormalizeAllIsLocal(list: Json, defs: Fields, other: Fields, stack: seq<string>,
                                               names: set<string>)
    requires SameAt(defs, other, names) && Closed(defs, names) && list.Arr? && Within(list, names)
    ensures NormalizeAll(list, defs, stack) == NormalizeAll(list, other, stack)
    decreases |defs.Keys - Elements(stack)|, list, 0
  {
    WithinItems(list.items, names);
    forall i | 0 <= i < |list.items| ensures NormalizeAll(list, defs, stack)[i] == NormalizeAll(list, other, stack)[i] {
      NormalizeIsLocal(list.items[i], defs, other, stack, names);
    }
  }

  lemma {:induction false} NormalizeChildrenIsLocal(node: Json, defs: Fields, other: Fields, stack: seq<string>,
                                                    names: set<string>)
    requires SameAt(defs, other, names) && Closed(defs, names) && node.Obj? && Within(node, names)
    ensures NormalizeChildren(node, defs, stack) == NormalizeChildren(node, other, stack)
    decreases |defs.Keys - Elements(stack)|, node, 1
  {
    var g, h := NormalizeChildren(node, defs, stack), NormalizeChildren(node, other, stack);
    WithinFields(node.fields, names);
    forall key | key in g ensures g[key] == h[key] {
      assert g[key] == NormalizeChild(node, key, defs, stack) && h[key] == NormalizeChild(node, key, other, stack);
      NormalizeChildIsLocal(node, key, defs, other, stack, names);
    }
    assert g.Keys == h.Keys;
  }

  lemma {:induction false} NormalizeChildIsLocal(node: Json, key: string, defs: Fields, other: Fields,
                                                 stack: seq<string>, names: set<string>)
    requires SameAt(defs, other, names) && Closed(defs, names) && node.Obj? && key in node.fields && Within(node, names)
    ensures NormalizeChild(node, key, defs, stack) == NormalizeChild(node, key, other, stack)
    decreases |defs.Keys - Elements(stack)|, node, 0
  {
    WithinFields(node.fields, names);
    var value := node.fields[key];
    if key == "properties" && value.Obj? {
      WithinFields(value.fields, names);
      var p, q := NormalizeChild(node, key, defs, stack).fields, NormalizeChild(node, key, other, stack).fields;
      forall name | name in value.fields ensures p[name] == q[name] {
        NormalizeIsLocal(value.fields[name], defs, other, stack, names);
      }
      assert p == q;
    } else if key in SUBSCHEMA_KEYS && value.Obj? {
      NormalizeIsLocal(value, defs, other, stack, names);
    } else if key == "prefixItems" && value.Arr? {
      NormalizeAllIsLocal(value, defs, other, stack, names);
    }
  }

  /** What is reachable from a reference is reachable from every set that has it. */
  lemma OneRootReaches(defs: Fields, roots: set<string>, name: string) returns (root: string)
    requires Reachable(defs, roots, name)
    ensures root in roots && root in defs && Reachable(defs, {root}, name)
  {
    var chain :| IsReferenceChain(defs, roots, chain, name);
    root := chain[0];
    assert IsReferenceChain(defs, {root}, chain, name);
  }

  lemma FewerRootsReachLess(defs: Fields, roots: set<string>, root: string)
    requires root in roots
    ensures Pruned(defs, {root}).Keys <= Pruned(defs, roots).Keys
  {
    forall name | name in defs && Reachable(defs, {root}, name) ensures Reachable(defs, roots, name) {
      var chain :| IsReferenceChain(defs, {root}, chain, name);
      assert IsReferenceChain(defs, roots, chain, name);
    }
  }

  /** A definition and what reading it as a reference, were it `$ref`, would name. */
  predicate EntryWithin(name: string, value: Json, names: set<string>) {
    Within(value, names) && (name == "$ref" && value.Str? ==> RefName(value.s) in names)
  }

  lemma EntriesWithin(table: Fields, names: set<string>)
    ensures Within(Obj(table), names) <==> forall name | name in table :: EntryWithin(name, table[name], names)
  {
    WithinFields(table, names);
  }

  /** A kept definition is normalized as among those kept for one reference. */
  lemma KeptIsLocal(defs: Fields, roots: set<string>, root: string, name: string)
    requires ClosedTable(defs) && root in roots && name in Pruned(defs, {root})
    ensures var few, kept := Pruned(defs, {root}), Pruned(defs, roots);
            && few.Keys <= kept.Keys
            && Normalize(kept[name], kept, [name]) == Normalize(few[name], few, [name])
  {
    var few, kept := Pruned(defs, {root}), Pruned(defs, roots);
    FewerRootsReachLess(defs, roots, root);
    PrunedClosed(defs, {root});
    assert Closed(kept, few.Keys) && SameAt(kept, few, few.Keys);
    NormalizeIsLocal(kept[name], kept, few, [name], few.Keys);
  }

  lemma SelfContainedEntry(defs: Fields, root: string, name: string)
    requires SelfContained(defs, root) && name in Pruned(defs, {root})
    ensures EntryWithin(name, NormalizeTable(Pruned(defs, {root}))[name], Pruned(defs, {root}).Keys)
  {
    EntriesWithin(NormalizeTable(Pruned(defs, {root})), Pruned(defs, {root}).Keys);
  }

  lemma KeptDefinitionResolves(defs: Fields, roots: set<string>, name: string)
    requires ClosedTable(defs) && SafeTable(defs) && name in Pruned(defs, roots)
    requires forall root | root in roots :: Referable(root)
    ensures EntryWithin(name, NormalizeTable(Pruned(defs, roots))[name], Pruned(defs, roots).Keys)
  {
    var root := OneRootReaches(defs, roots, name);
    var few, kept := Pruned(defs, {root}), Pruned(defs, roots);
    assert SelfContained(defs, root) && name in few;
    KeptIsLocal(defs, roots, root, name);
    SelfContainedEntry(defs, root, name);
    assert NormalizeTable(kept)[name] == NormalizeTable(few)[name];
  }

  lemma KeptTableResolves(defs: Fields, roots: set<string>)
    requires ClosedTable(defs) && SafeTable(defs)
    requires forall root | root in roots :: Referable(root)
    ensures Within(Obj(NormalizeTable(Pruned(defs, roots))), Pruned(defs, roots).Keys)
  {
    var kept := Pruned(defs, roots);
    forall name | name in kept ensures EntryWithin(name, NormalizeTable(kept)[name], kept.Keys) {
      KeptDefinitionResolves(defs, roots, name);
    }
    EntriesWithin(NormalizeTable(kept), kept.Keys);
  }

  lemma {:induction false} ReferencesAreReferable(node: Json)
    ensures forall name | name in RefNames(node) :: Referable(name)
  {
    forall name | name in RefNames(node) ensures Referable(name) {
      match node
      case Obj(f) =>
        if HasRef(f) && name == RefName(f["$ref"].s) {
          RefNamesAreReferable(f["$ref"].s);
        } else {
          var key :| key in f && name in RefNames(f[key]);
          ReferencesAreReferable(f[key]);
        }
      case Arr(items) =>
        var i :| 0 <= i < |items| && name in RefNames(items[i]);
        ReferencesAreReferable(items[i]);
    }
  }

  lemma AddDefinitionsWithin(root: Fields, table: Fields, names: set<string>)
    requires Within(Obj(root), names) && Within(Obj(table), names)
    ensures Within(Obj(root["$defs" := Obj(table)]), names)
  {
    WithinFields(root, names);
    WithinFields(root["$defs" := Obj(table)], names);
  }

  lemma SafeRootResolves(root: Fields, defs: Fields)
    requires ClosedTable(defs) && SafeTable(defs) && RefNames(Obj(root)) <= defs.Keys
    ensures var kept := Pruned(defs, RefNames(Obj(root)));
            Within(Obj(root["$defs" := Obj(NormalizeTable(kept))]), kept.Keys)
  {
    var pending := RefNames(Obj(root));
    ReferencesAreReferable(Obj(root));
    PrunedClosed(defs, pending);
    KeptTableResolves(defs, pending);
    AddDefinitionsWithin(root, NormalizeTable(Pruned(defs, pending)), Pruned(defs, pending).Keys);
  }

  lemma SafeTableResolves(schema: Fields, defs: Fields)
    requires ClosedTable(defs) && SafeTable(defs) && OverTable(schema, defs)
    ensures OutputResolves(schema)
  {
    assert DefinitionsOf(schema) == defs;
    var root := Normalize(Obj(schema - {"$defs"}), defs, []);
    NormalizeWithin(Obj(schema - {"$defs"}), defs, [], defs.Keys);
    if RefNames(root) != {} && root.Obj? {
      SafeRootResolves(root.fields, defs);
      var kept := Pruned(defs, RefNames(root));
      var out := root.fields["$defs" := Obj(NormalizeTable(kept))];
      assert NormalizeInput(schema) == Some(Obj(out)) && DefinitionsOf(out).Keys == kept.Keys;
    }
  }

  // -------------------------------------------------- every other table dangles

  /** A schema with one property, named `$ref`, that refers to a definition. */
  function RefProperty(name: string, defs: Fields): Fields {
    map["properties" := Obj(map["$ref" := Obj(map["$ref" := Str(name)])]), "$defs" := Obj(defs)]
  }

  lemma RefPropertyRefs(name: string)
    requires RefName(name) == name
    ensures RefNames(Obj(map["properties" := Obj(map["$ref" := Obj(map["$ref" := Str(name)])])])) == {name}
  {
    var inner := Obj(map["$ref" := Str(name)]);
    var table := Obj(map["$ref" := inner]);
    assert RefNames(Str(name)) == {} && RefNames(inner) == {name};
    assert !HasRef(table.fields) && RefNames(table) == {name};
    var root := map["properties" := table];
    assert !HasRef(root);
    assert forall x :: x in RefNames(Obj(root)) <==> x in RefNames(root["properties"]);
  }

  lemma TextInlined(name: string, defs: Fields)
    requires name in defs && defs[name].Str? && RefName(name) == name
    ensures Normalize(Obj(map["$ref" := Str(name)]), defs, []) == defs[name]
  {
    assert Normalize(defs[name], defs, [] + [name]) == defs[name];
  }

  lemma OnePropertyNormalized(table: Json, defs: Fields)
    requires table.Obj? && table.fields.Keys == {"$ref"}
    ensures Normalize(Obj(map["properties" := table]), defs, []) ==
            Obj(map["properties" := Obj(map["$ref" := Normalize(table.fields["$ref"], defs, [])])])
  {
    var root := Obj(map["properties" := table]);
    NormalizedProperties(root, defs, []);
    var children := NormalizeChildren(root, defs, []);
    assert children.Keys == {"properties"};
    assert children["properties"].fields == map["$ref" := Normalize(table.fields["$ref"], defs, [])];
    assert !HasRef(root.fields) && !IsUnion(root.fields) && "const" !in children;
  }

  lemma RefPropertyNormalized(name: string, defs: Fields)
    requires name in defs && defs[name].Str? && RefName(name) == name
    ensures Normalize(Obj(map["properties" := Obj(map["$ref" := Obj(map["$ref" := Str(name)])])]), defs, []) ==
            Obj(map["properties" := Obj(map["$ref" := defs[name]])])
  {
    TextInlined(name, defs);
    OnePropertyNormalized(Obj(map["$ref" := Obj(map["$ref" := Str(name)])]), defs);
  }

  /** A text that names no definition can be inlined as a reference. */
  lemma TextDefinitionDangles(name: string, defs: Fields)
    requires name in defs && Referable(name) && defs[name].Str? && RefName(defs[name].s) !in defs
    ensures OverTable(RefProperty(name, defs), defs) && !OutputResolves(RefProperty(name, defs))
  {
    var made := RefName(defs[name].s);
    RefPropertyRefs(name);
    RefPropertyNormalized(name, defs);
    assert RefProperty(name, defs) - {"$defs"} ==
           map["properties" := Obj(map["$ref" := Obj(map["$ref" := Str(name)])])];
    var table := Obj(map["$ref" := defs[name]]);
    var root := Obj(map["properties" := table]);
    assert made in RefNames(table);
    assert made in RefNames(root) by {
      assert root.fields["properties"] == table;
    }
    var out := root.fields["$defs" := Obj(NormalizeTable(Pruned(defs, RefNames(root))))];
    assert NormalizeInput(RefProperty(name, defs)) == Some(Obj(out));
    assert out["properties"] == table;
    assert made in RefNames(Obj(out));
  }

  /** A schema that only mentions a definition, where nothing is inlined. */
  function MentionSchema(name: string, defs: Fields): Fields {
    map["default" := Obj(map["$ref" := Str(name)]), "$defs" := Obj(defs)]
  }

  lemma MentionRoot(name: string, defs: Fields)
    requires Referable(name)
    ensures var root := Obj(map["default" := Obj(map["$ref" := Str(name)])]);
            RefNames(root) == {name} && Normalize(root, defs, []) == root
  {
    var inner := Obj(map["$ref" := Str(name)]);
    var root := Obj(map["default" := inner]);
    assert RefNames(Str(name)) == {} && RefNames(inner) == {name};
    assert !HasRef(root.fields) && !IsUnion(root.fields);
    assert forall x :: x in RefNames(root) <==> x in RefNames(root.fields["default"]);
    var children := NormalizeChildren(root, defs, []);
    assert children["default"] == NormalizeChild(root, "default", defs, []) == inner;
    assert children.Keys == {"default"} && "const" !in children;
    assert children == root.fields;
  }

  /** A definition that is not self-contained dangles as soon as it is kept. */
  lemma UncontainedDefinitionDangles(name: string, defs: Fields)
    requires name in defs && Referable(name) && !SelfContained(defs, name)
    ensures OverTable(MentionSchema(name, defs), defs) && !OutputResolves(MentionSchema(name, defs))
  {
    var schema := MentionSchema(name, defs);
    var root := Obj(map["default" := Obj(map["$ref" := Str(name)])]);
    MentionRoot(name, defs);
    assert Obj(schema - {"$defs"}) == root && DefinitionsOf(schema) == defs;
    var kept := Pruned(defs, {name});
    var out := root.fields["$defs" := Obj(NormalizeTable(kept))];
    assert NormalizeInput(schema) == Some(Obj(out));
    assert out["$defs"] == Obj(NormalizeTable(kept)) && DefinitionsOf(out).Keys == kept.Keys;
    WithinFields(out, kept.Keys);
  }

  // ---------------------------------------------------------------- exactly when

  /** Every schema over a table has an output without dangling references exactly when
      the table is safe. */
  lemma AlwaysResolvesIff(defs: Fields)
    requires ClosedTable(defs)
    ensures AlwaysResolves(defs) <==> SafeTable(defs)
  {
    if SafeTable(defs) {
      forall schema: Fields | OverTable(schema, defs) ensures OutputResolves(schema) {
        SafeTableResolves(schema, defs);
      }
    } else if name :| name in defs && Referable(name) && defs[name].Str? && RefName(defs[name].s) !in defs {
      TextDefinitionDangles(name, defs);
    } else {
      var name :| name in defs && Referable(name) && !SelfContained(defs, name);
      UncontainedDefinitionDangles(name, defs);
    }
  }

  lemma PrunedIsSelfContained(defs: Fields, name: string)
    requires ClosedTable(defs) && SchemaTable(defs)
    ensures SelfContained(defs, name)
  {
    var kept := Pruned(defs, {name});
    PrunedClosed(defs, {name});
    forall n | n in kept ensures EntryWithin(n, NormalizeTable(kept)[n], kept.Keys) {
      NormalizeWithin(kept[n], kept, [n], kept.Keys);
      if n == "$ref" {
        assert !kept[n].Str? by {
          DollarRefIsReferable();
        }
        NormalizedText(kept[n], kept, [n], {});
      }
    }
    EntriesWithin(NormalizeTable(kept), kept.Keys);
  }

  lemma DollarRefIsReferable()
    ensures Referable("$ref")
  {
    assert RefName("") == "" && RefName("$") == "$" && RefName("$r") == "$r" && RefName("$re") == "$re" by {
      assert "$re"[..2] == "$r" && "$r"[..1] == "$" && "$"[..0] == "";
    }
    assert "$ref"[..3] == "$re";
  }

  /** Without a text that can be referred to no reference dangles. */
  lemma NoReferenceDangles(defs: Fields)
    requires ClosedTable(defs) && SchemaTable(defs)
    ensures AlwaysResolves(defs)
  {
    forall name | name in defs && Referable(name) ensures SelfContained(defs, name) {
      PrunedIsSelfContained(defs, name);
    }
    AlwaysResolvesIff(defs);
  }

  /** And when no text names a definition, that is the exact condition. */
  lemma OnlyTextsDangle(defs: Fields)
    requires ClosedTable(defs)
    requires forall name | name in defs && defs[name].Str? :: RefName(defs[name].s) !in defs
    ensures AlwaysResolves(defs) <==> SchemaTable(defs)
  {
    if SchemaTable(defs) {
      NoReferenceDangles(defs);
    } else {
      var name :| name in defs && Referable(name) && defs[name].Str?;
      TextDefinitionDangles(name, defs);
    }
  }
}
