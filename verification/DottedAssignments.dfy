/** Dotted command-line assignments folded into a nested mapping
    (src/gdb_mcp/client/parsers.py). */
module DottedAssignments {
  import opened Options

  /** What a mapping holds under a key: a value, the list that repeated
      assignments to one path build up, or a further mapping. */
  datatype Node = Leaf(value: string) | List(values: seq<string>) | Table(entries: Entries)

  type Entries = map<string, Node>

  datatype Attempt = Assigned(entries: Entries) | Conflict

  type Path = p: seq<string> | p != [] witness [""]

  /** `str.split(".")`: never empty. */
  function SplitDots(text: string): (path: Path)
    ensures |path| == 1 ==> path[0] == text
  {
    if text == "" then [""]
    else
      var rest := SplitDots(text[1..]);
      if text[0] == '.' then [""] + rest else [[text[0]] + rest[0]] + rest[1..]
  }

  function JoinDots(path: Path): string {
    if |path| == 1 then path[0] else path[0] + "." + JoinDots(path[1..])
  }

  /** Splitting loses nothing: the parts joined by dots are the text. */
  lemma {:induction false} SplitJoins(text: string)
    ensures JoinDots(SplitDots(text)) == text
  {
    if text != "" {
      SplitJoins(text[1..]);
      var rest := SplitDots(text[1..]);
      assert text == [text[0]] + text[1..];
      if text[0] == '.' {
        assert ([""] + rest)[1..] == rest;
      } else if |rest| > 1 {
        var path := SplitDots(text);
        assert path[1..] == rest[1..];
      }
    }
  }

  /** And no dot is left in a part. */
  lemma {:induction false} PartsHaveNoDots(text: string)
    ensures forall i | 0 <= i < |SplitDots(text)| :: '.' !in SplitDots(text)[i]
  {
    if text != "" {
      PartsHaveNoDots(text[1..]);
    }
  }

  /** It is the only such path. */
  lemma {:induction false} JoinSplits(path: Path)
    requires forall i | 0 <= i < |path| :: '.' !in path[i]
    ensures SplitDots(JoinDots(path)) == path
  {
    if |path| == 1 {
      SplitPart(path[0], "");
      assert path[0] + "" == path[0];
    } else {
      JoinSplits(path[1..]);
      var rest := JoinDots(path[1..]);
      SplitPart(path[0], "." + rest);
      assert ("." + rest)[1..] == rest;
      assert SplitDots("." + rest) == [""] + path[1..];
      assert ([""] + path[1..])[1..] == path[1..] && path[0] + "" == path[0];
      assert path[0] + "." + rest == path[0] + ("." + rest);
      assert path == [path[0]] + path[1..];
    }
  }

  /** A text without a dot goes to the first part of what follows. */
  lemma {:induction false} SplitPart(part: string, rest: string)
    requires '.' !in part
    ensures var tail := SplitDots(rest);
            SplitDots(part + rest) == [part + tail[0]] + tail[1..]
  {
    if part == "" {
      assert part + rest == rest && part + SplitDots(rest)[0] == SplitDots(rest)[0];
    } else {
      SplitPart(part[1..], rest);
      assert (part + rest)[1..] == part[1..] + rest;
      assert [part[0]] + (part[1..] + SplitDots(rest)[0]) == part + SplitDots(rest)[0];
    }
  }

  // ------------------------------------------------------------ one assignment

  function AssignLeaf(entries: Entries, key: string, value: string): Attempt {
    if key !in entries then Assigned(entries[key := Leaf(value)])
    else
      match entries[key]
      case Leaf(first) => Assigned(entries[key := List([first, value])])
      case List(values) => Assigned(entries[key := List(values + [value])])
      case Table(_) => Conflict
  }

  function Assign(entries: Entries, path: Path, value: string): Attempt
    decreases |path|
  {
    if |path| == 1 then AssignLeaf(entries, path[0], value)
    else if path[0] in entries && !entries[path[0]].Table? then Conflict
    else
      var child := if path[0] in entries then entries[path[0]].entries else map[];
      var inner := Assign(child, path[1..], value);
      if inner.Conflict? then Conflict else Assigned(entries[path[0] := Table(inner.entries)])
  }

  // ------------------------------------------------- the mapping at a prefix

  /** The mapping reached by following a prefix of keys. */
  function Descend(entries: Entries, prefix: seq<string>): Option<Entries>
    decreases |prefix|
  {
    if prefix == [] then Some(entries)
    else if prefix[0] in entries && entries[prefix[0]].Table? then Descend(entries[prefix[0]].entries, prefix[1..])
    else None
  }

  /** The whole after the mapping at a prefix has become `inner`. */
  function Replace(entries: Entries, prefix: seq<string>, inner: Entries): Entries
    requires Descend(entries, prefix).Some?
    decreases |prefix|
  {
    if prefix == [] then inner
    else entries[prefix[0] := Table(Replace(entries[prefix[0]].entries, prefix[1..], inner))]
  }

  lemma {:induction false} DescendReplace(entries: Entries, prefix: seq<string>, inner: Entries, again: Entries)
    requires Descend(entries, prefix).Some?
    ensures Descend(Replace(entries, prefix, inner), prefix) == Some(inner)
    ensures Replace(Replace(entries, prefix, inner), prefix, again) == Replace(entries, prefix, again)
    decreases |prefix|
  {
    if prefix == [] {
    } else {
      DescendReplace(entries[prefix[0]].entries, prefix[1..], inner, again);
    }
  }

  lemma {:induction false} DescendSnoc(entries: Entries, prefix: seq<string>, key: string)
    ensures Descend(entries, prefix + [key]) ==
            (var at := Descend(entries, prefix);
             if at.Some? && key in at.value && at.value[key].Table? then Some(at.value[key].entries) else None)
    decreases |prefix|
  {
    if prefix == [] {
      assert prefix + [key] == [key];
      assert [key][1..] == [];
    } else {
      assert (prefix + [key])[1..] == prefix[1..] + [key];
      if prefix[0] in entries && entries[prefix[0]].Table? {
        DescendSnoc(entries[prefix[0]].entries, prefix[1..], key);
      }
    }
  }

  /** Assigning below a prefix is assigning in the mapping found there. */
  lemma {:induction false} AssignBelow(entries: Entries, prefix: seq<string>, rest: Path, value: string)
    requires Descend(entries, prefix).Some?
    ensures Assign(entries, prefix + rest, value) ==
            (var inner := Assign(Descend(entries, prefix).value, rest, value);
             if inner.Conflict? then Conflict else Assigned(Replace(entries, prefix, inner.entries)))
    decreases |prefix|
  {
    if prefix == [] {
      assert prefix + rest == rest;
    } else {
      assert (prefix + rest)[1..] == prefix[1..] + rest;
      AssignBelow(entries[prefix[0]].entries, prefix[1..], rest, value);
    }
  }

  /** An empty mapping put where a key is missing does not change what the
      assignment through that key gives. */
  lemma CreatingIsHarmless(entries: Entries, prefix: seq<string>, rest: Path, value: string)
    requires |rest| > 1 && Descend(entries, prefix).Some? && rest[0] !in Descend(entries, prefix).value
    ensures var created := Replace(entries, prefix, Descend(entries, prefix).value[rest[0] := Table(map[])]);
            && Descend(created, prefix + [rest[0]]) == Some(map[])
            && Assign(created, prefix + rest, value) == Assign(entries, prefix + rest, value)
  {
    var current := Descend(entries, prefix).value;
    var wider := current[rest[0] := Table(map[])];
    var created := Replace(entries, prefix, wider);
    DescendReplace(entries, prefix, wider, wider);
    DescendSnoc(created, prefix, rest[0]);
    AssignBelow(entries, prefix, rest, value);
    AssignBelow(created, prefix, rest, value);
    var inner := Assign(map[], rest[1..], value);
    if inner.Assigned? {
      var final := current[rest[0] := Table(inner.entries)];
      assert wider[rest[0] := Table(inner.entries)] == final;
      DescendReplace(entries, prefix, wider, final);
    }
  }

  /** The target mapping of the command line. */
  class AssignmentTarget {
    var entries: Entries

    constructor ()
      ensures entries == map[]
    {
      entries := map[];
    }

    /** `assign_dotted_value`. The walk down creates missing mappings as it goes, and
        still a failing assignment leaves the mapping unchanged: once something was
        created the rest of the walk is through empty mappings. */
    method AssignDottedValue(path: string, value: string) returns (ok: bool)
      modifies this
      ensures ok == Assign(old(entries), SplitDots(path), value).Assigned?
      ensures entries == if ok then Assign(old(entries), SplitDots(path), value).entries else old(entries)
    {
      var parts := SplitDots(path);
      var current := entries;
      var last := |parts| - 1;
      for i := 0 to last
        invariant Descend(entries, parts[..i]) == Some(current)
        invariant Assign(entries, parts, value) == Assign(old(entries), parts, value)
        invariant entries != old(entries) ==> current == map[]
      {
        var part := parts[i];
        assert parts == parts[..i] + parts[i..];
        assert parts[..i + 1] == parts[..i] + [part];
        if part !in current {
          CreatingIsHarmless(entries, parts[..i], parts[i..], value);
          entries := Replace(entries, parts[..i], current[part := Table(map[])]);
          current := map[];
        } else if !current[part].Table? {
          AssignBelow(entries, parts[..i], parts[i..], value);
          return false;
        } else {
          DescendSnoc(entries, parts[..i], part);
          current := current[part].entries;
        }
      }
      var leaf := parts[last];
      assert parts == parts[..last] + [leaf];
      AssignBelow(entries, parts[..last], [leaf], value);
      if leaf !in current {
        entries := Replace(entries, parts[..last], current[leaf := Leaf(value)]);
        return true;
      }
      match current[leaf]
      case Table(_) => return false;
      case List(values) =>
        entries := Replace(entries, parts[..last], current[leaf := List(values + [value])]);
        return true;
      case Leaf(first) =>
        entries := Replace(entries, parts[..last], current[leaf := List([first, value])]);
        return true;
    }
  }

  function Lookup(entries: Entries, path: Path): Option<Node>
    decreases |path|
  {
    if path[0] !in entries then None
    else if |path| == 1 then Some(entries[path[0]])
    else if entries[path[0]].Table? then Lookup(entries[path[0]].entries, path[1..])
    else None
  }

  predicate IsTable(node: Option<Node>) {
    node.Some? && node.value.Table?
  }

  predicate IsValue(node: Option<Node>) {
    node.Some? && !node.value.Table?
  }

  /** An assignment fails exactly when its path passes through a value or ends at a
      mapping. */
  lemma {:induction false} AssignSucceeds(entries: Entries, path: Path, value: string)
    ensures Assign(entries, path, value).Assigned? <==>
            (forall n | 0 < n < |path| :: !IsValue(Lookup(entries, path[..n]))) && !IsTable(Lookup(entries, path))
    decreases |path|
  {
    if |path| > 1 {
      var rest := path[1..];
      assert path[..1] == [path[0]];
      if path[0] in entries && entries[path[0]].Table? {
        var child := entries[path[0]].entries;
        AssignSucceeds(child, rest, value);
        forall n | 1 < n < |path| ensures Lookup(entries, path[..n]) == Lookup(child, rest[..n - 1]) {
          assert path[..n][1..] == rest[..n - 1];
        }
        assert forall n | 0 < n < |rest| :: rest[..n] == path[..n + 1][1..];
        assert forall n | 0 < n < |rest| :: Lookup(child, rest[..n]) == Lookup(entries, path[..n + 1]);
      } else if path[0] !in entries {
        AssignSucceeds(map[], rest, value);
      } else {
        assert IsValue(Lookup(entries, path[..1]));
      }
    }
  }

  /** What one successful assignment changes: its own path, and the mappings on the
      way there. Every other path is untouched. */
  lemma {:induction false} AssignChanges(entries: Entries, path: Path, value: string, q: Path)
    requires Assign(entries, path, value).Assigned?
    ensures var after := Lookup(Assign(entries, path, value).entries, q);
            if q == path then
              after == Some(match Lookup(entries, path)
                            case None => Leaf(value)
                            case Some(Leaf(first)) => List([first, value])
                            case Some(List(values)) => List(values + [value])
                            case Some(Table(_)) => Leaf(value))
            else if q < path then IsTable(after)
            else after == Lookup(entries, q)
    decreases |path|
  {
    var after := Assign(entries, path, value).entries;
    if |path| == 1 {
      if q[0] == path[0] && |q| > 1 {
        assert after[path[0]].Leaf? || after[path[0]].List?;
      }
      assert q == path <==> |q| == 1 && q[0] == path[0];
    } else {
      assert q == path <==> q[0] == path[0] && q[1..] == path[1..] by {
        assert path == [path[0]] + path[1..] && q == [q[0]] + q[1..];
      }
      if q[0] == path[0] && |q| > 1 {
        var child := if path[0] in entries then entries[path[0]].entries else map[];
        AssignChanges(child, path[1..], value, q[1..]);
        assert q < path <==> q[1..] < path[1..];
      }
    }
  }

  // ------------------------------------------------------------ many assignments

  datatype Assignment = Assignment(path: Path, value: string)

  function Fold(assignments: seq<Assignment>): Attempt {
    if assignments == [] then Assigned(map[])
    else
      var init := Fold(assignments[..|assignments| - 1]);
      var last := assignments[|assignments| - 1];
      if init.Conflict? then Conflict else Assign(init.entries, last.path, last.value)
  }

  /** The values assigned to one path, in order. */
  function ValuesAt(assignments: seq<Assignment>, path: Path): seq<string> {
    if assignments == [] then []
    else
      var init := ValuesAt(assignments[..|assignments| - 1], path);
      var last := assignments[|assignments| - 1];
      if last.path == path then init + [last.value] else init
  }

  /** No assigned path is a strict prefix of another. */
  predicate PrefixFree(assignments: seq<Assignment>) {
    forall a, b | a in assignments && b in assignments :: !(a.path < b.path)
  }

  predicate LeadsFurther(assignments: seq<Assignment>, path: Path) {
    exists a | a in assignments :: path < a.path
  }

  /** The mapping agrees with the flat table of assignments at this path. */
  predicate AgreesAt(entries: Entries, assignments: seq<Assignment>, path: Path) {
    var values := ValuesAt(assignments, path);
    if |values| == 1 then Lookup(entries, path) == Some(Leaf(values[0]))
    else if |values| > 1 then Lookup(entries, path) == Some(List(values))
    else if LeadsFurther(assignments, path) then IsTable(Lookup(entries, path))
    else Lookup(entries, path) == None
  }

  lemma {:induction false} ValuesNonempty(assignments: seq<Assignment>, path: Path)
    ensures ValuesAt(assignments, path) != [] <==> exists a | a in assignments :: a.path == path
  {
    if assignments == [] {
    } else {
      var n := |assignments| - 1;
      ValuesNonempty(assignments[..n], path);
      assert assignments == assignments[..n] + [assignments[n]];
    }
  }

  lemma PrefixFreeSnoc(init: seq<Assignment>, last: Assignment)
    ensures PrefixFree(init + [last]) <==>
            PrefixFree(init) && forall a | a in init :: !(a.path < last.path) && !(last.path < a.path)
  {
  }

  /** Folding any list of assignments into an empty mapping succeeds exactly when
      no path is a strict prefix of another, and then the nested mapping holds at
      every path its one value, or the list of its values in order. */
  lemma {:induction false} FoldAgrees(assignments: seq<Assignment>)
    ensures Fold(assignments).Assigned? <==> PrefixFree(assignments)
    ensures Fold(assignments).Assigned? ==>
              forall path: Path :: AgreesAt(Fold(assignments).entries, assignments, path)
  {
    if assignments == [] {
    } else {
      var n := |assignments| - 1;
      var init, last := assignments[..n], assignments[n];
      assert assignments == init + [last];
      FoldAgrees(init);
      PrefixFreeSnoc(init, last);
      if Fold(init).Assigned? {
        AssignableAfter(Fold(init).entries, init, last);
        if Fold(assignments).Assigned? {
          forall path: Path ensures AgreesAt(Fold(assignments).entries, assignments, path) {
            AgreementKept(Fold(init).entries, init, last, path);
          }
        }
      }
    }
  }

  /** The next assignment goes through exactly when its path and the earlier ones
      are not strict prefixes of one another. */
  lemma AssignableAfter(entries: Entries, init: seq<Assignment>, last: Assignment)
    requires forall path: Path :: AgreesAt(entries, init, path)
    requires PrefixFree(init)
    ensures Assign(entries, last.path, last.value).Assigned? <==>
            forall a | a in init :: !(a.path < last.path) && !(last.path < a.path)
  {
    AssignSucceeds(entries, last.path, last.value);
    forall n | 0 < n < |last.path|
      ensures IsValue(Lookup(entries, last.path[..n])) <==> exists a | a in init :: a.path == last.path[..n]
    {
      ValueMeansAssigned(entries, init, last.path[..n]);
    }
    TableMeansLonger(entries, init, last.path);
    forall a | a in init && a.path < last.path
      ensures exists n | 0 < n < |last.path| :: IsValue(Lookup(entries, last.path[..n]))
    {
      assert last.path[..|a.path|] == a.path;
    }
  }

  lemma ValueMeansAssigned(entries: Entries, init: seq<Assignment>, path: Path)
    requires AgreesAt(entries, init, path)
    ensures IsValue(Lookup(entries, path)) <==> exists a | a in init :: a.path == path
  {
    ValuesNonempty(init, path);
  }

  lemma TableMeansLonger(entries: Entries, init: seq<Assignment>, path: Path)
    requires AgreesAt(entries, init, path) && PrefixFree(init)
    ensures IsTable(Lookup(entries, path)) <==> exists a | a in init :: path < a.path
  {
    ValuesNonempty(init, path);
  }

  lemma AgreementKept(entries: Entries, init: seq<Assignment>, last: Assignment, path: Path)
    requires AgreesAt(entries, init, path) && Assign(entries, last.path, last.value).Assigned?
    requires forall a | a in init :: !(a.path < last.path) && !(last.path < a.path)
    ensures AgreesAt(Assign(entries, last.path, last.value).entries, init + [last], path)
  {
    AssignChanges(entries, last.path, last.value, path);
    assert (init + [last])[..|init|] == init;
    ValuesNonempty(init, path);
    assert LeadsFurther(init + [last], path) <==> LeadsFurther(init, path) || path < last.path by {
      assert forall a | a in init + [last] :: a in init || a == last;
      assert last in init + [last];
      assert forall a | a in init :: a in init + [last];
    }
    if path == last.path {
      var before := ValuesAt(init, path);
      assert ValuesAt(init + [last], path) == before + [last.value];
      if |before| == 1 {
        assert before + [last.value] == [before[0], last.value];
      }
      assert !LeadsFurther(init, path);
    }
  }
}
