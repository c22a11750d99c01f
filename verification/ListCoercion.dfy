/** Validation with retries that widen scalars into one-element lists
    (src/gdb_mcp/client/parsers.py). The validator is arbitrary: it may answer
    differently in every round.

    The functions are on payloads as values. The source works on dictionaries: it
    copies the caller's and changes the copy in place, and so do the objects of
    `MappingNode`, one per dictionary. */
module ListCoercion {
  import opened Options

  datatype Payload =
    | Null
    | Text(text: string)
    | Scalar(code: int) // a number or a boolean
    | Listed(items: seq<Payload>)
    | Mapping(fields: map<string, Payload>)

  datatype Segment = Name(text: string) | Index(n: int)

  datatype ValidationError = ValidationError(kind: string, location: seq<Segment>)

  datatype Verdict = Accepted(dump: Payload) | Refused(errors: seq<ValidationError>)

  // ------------------------------------------------------------ one coercion

  /** The mapping keys a location names: none when it indexes a list; a leading
      segment equal to the action is the union tag and is skipped. */
  function KeysOf(location: seq<Segment>, action: Option<string>): Option<seq<string>> {
    if exists i | 0 <= i < |location| :: location[i].Index? then None
    else
      var names := seq(|location|, i requires 0 <= i < |location| => location[i].text);
      if names != [] && action == Some(names[0]) then Some(names[1..]) else Some(names)
  }

  /** Wraps the value at a path of mapping keys; `None` when there is nothing to wrap. */
  function WrapAt(payload: Payload, names: seq<string>): Option<Payload>
    decreases |names|
  {
    if names == [] || !payload.Mapping? || names[0] !in payload.fields then None
    else
      var value := payload.fields[names[0]];
      if |names| == 1 then
        if value.Null? || value.Listed? then None
        else Some(Mapping(payload.fields[names[0] := Listed([value])]))
      else
        var inner := WrapAt(value, names[1..]);
        if inner.None? then None else Some(Mapping(payload.fields[names[0] := inner.value]))
  }

  /** `_coerce_single_item_list_path`. */
  function CoerceLocation(payload: Payload, location: seq<Segment>, action: Option<string>): Option<Payload> {
    var names := KeysOf(location, action);
    if names.None? then None else WrapAt(payload, names.value)
  }

  // ------------------------------------------------- exactly what is coerced

  /** The value found by following mapping keys. */
  function Lookup(payload: Payload, names: seq<string>): Option<Payload> {
    if names == [] then Some(payload)
    else if payload.Mapping? && names[0] in payload.fields then Lookup(payload.fields[names[0]], names[1..])
    else None
  }

  /** There is a value at the path that is neither null nor a list. */
  predicate Coercible(payload: Payload, names: seq<string>) {
    && names != [] && Lookup(payload, names).Some?
    && !Lookup(payload, names).value.Null? && !Lookup(payload, names).value.Listed?
  }

  lemma {:induction false} WrapIff(payload: Payload, names: seq<string>)
    ensures WrapAt(payload, names).Some? <==> Coercible(payload, names)
    decreases |names|
  {
    if names != [] && payload.Mapping? && names[0] in payload.fields {
      if |names| == 1 {
        assert Lookup(payload.fields[names[0]], names[1..]) == Some(payload.fields[names[0]]);
      } else {
        WrapIff(payload.fields[names[0]], names[1..]);
      }
    }
  }

  /** What is found at a path after the value at `names` was wrapped: there a list of the
      old value and below it nothing, on the way there the same keys, and elsewhere
      what was found before. */
  ghost predicate WrappedOnly(before: Payload, after: Payload, names: seq<string>, path: seq<string>) {
    if path == names then
      Lookup(before, names).Some? && Lookup(after, names) == Some(Listed([Lookup(before, names).value]))
    else if names <= path then Lookup(after, path) == None
    else if path <= names then
      var x, y := Lookup(before, path), Lookup(after, path);
      x.Some? && y.Some? && x.value.Mapping? && y.value.Mapping? && x.value.fields.Keys == y.value.fields.Keys
    else Lookup(after, path) == Lookup(before, path)
  }

  lemma {:induction false} WrapLeaves(payload: Payload, names: seq<string>, path: seq<string>)
    requires WrapAt(payload, names).Some?
    ensures WrappedOnly(payload, WrapAt(payload, names).value, names, path)
    decreases |names|
  {
    var k, after := names[0], WrapAt(payload, names).value;
    var value := payload.fields[k];
    if path != [] && path[0] == k {
      assert path == [k] + path[1..] && names == [k] + names[1..];
      if |names| == 1 {
        assert names[1..] == [] && Lookup(value, []) == Some(value);
        assert after.fields[k] == Listed([value]);
      } else {
        WrapLeaves(value, names[1..], path[1..]);
      }
    }
  }

  /** The location spells these keys. */
  predicate Spells(location: seq<Segment>, names: seq<string>) {
    |location| == |names| && forall i | 0 <= i < |names| :: location[i] == Name(names[i])
  }

  /** The location without a leading union tag. */
  function WithoutTag(location: seq<Segment>, action: Option<string>): seq<Segment> {
    if location != [] && action.Some? && location[0] == Name(action.value) then location[1..] else location
  }

  /** A location is coerced exactly when, without a leading action, it spells a path of
      keys to a value that is neither null nor a list; what is wrapped then is that
      value alone. */
  lemma CoerceIff(payload: Payload, location: seq<Segment>, action: Option<string>)
    ensures CoerceLocation(payload, location, action).Some? <==>
            exists names :: Spells(WithoutTag(location, action), names) && Coercible(payload, names)
    ensures forall names, path | CoerceLocation(payload, location, action).Some? &&
                                 Spells(WithoutTag(location, action), names) ::
              WrappedOnly(payload, CoerceLocation(payload, location, action).value, names, path)
  {
    var rest := WithoutTag(location, action);
    KeysIff(location, action);
    if KeysOf(location, action).Some? {
      var keys := KeysOf(location, action).value;
      WrapIff(payload, keys);
      assert forall names | Spells(rest, names) :: names == keys;
      if WrapAt(payload, keys).Some? {
        forall path ensures WrappedOnly(payload, WrapAt(payload, keys).value, keys, path) {
          WrapLeaves(payload, keys, path);
        }
      }
    } else {
      assert forall names :: !Spells(rest, names);
    }
  }

  lemma KeysIff(location: seq<Segment>, action: Option<string>)
    ensures var keys := KeysOf(location, action);
            && (keys.Some? ==> Spells(WithoutTag(location, action), keys.value))
            && (keys.None? ==> exists i | 0 <= i < |WithoutTag(location, action)| ::
                                 WithoutTag(location, action)[i].Index?)
  {
    if i :| 0 <= i < |location| && location[i].Index? {
      var rest := WithoutTag(location, action);
      assert rest[if rest == location then i else i - 1].Index?;
    }
  }

  /** What cannot be coerced cannot be coerced after another coercion either. */
  lemma StaysUncoercible(payload: Payload, names: seq<string>, path: seq<string>)
    requires WrapAt(payload, names).Some? && !Coercible(payload, path)
    ensures !Coercible(WrapAt(payload, names).value, path)
  {
    WrapIff(payload, names);
    WrapLeaves(payload, names, path);
  }

  lemma CoercedIsUncoercible(payload: Payload, names: seq<string>)
    requires WrapAt(payload, names).Some?
    ensures !Coercible(WrapAt(payload, names).value, names)
  {
    WrapLeaves(payload, names, names);
  }

  // ------------------------------------------------------------ the measure

  /** The places, reached through mappings, that hold a value that is not a list. */
  ghost function LoosePaths(payload: Payload): set<seq<string>> {
    match payload
    case Null => {}
    case Listed(_) => {}
    case Mapping(fields) => {[]} + (set k, q | k in fields && q in LoosePaths(fields[k]) :: [k] + q)
    case _ => {[]}
  }

  lemma LooseBelow(fields: map<string, Payload>, k: string, q: seq<string>)
    ensures [k] + q in LoosePaths(Mapping(fields)) <==> k in fields && q in LoosePaths(fields[k])
  {
    if [k] + q in LoosePaths(Mapping(fields)) {
      var k', q' :| k' in fields && q' in LoosePaths(fields[k']) && [k'] + q' == [k] + q;
      assert ([k'] + q')[0] == k' && ([k] + q)[0] == k;
      assert ([k'] + q')[1..] == q' && ([k] + q)[1..] == q;
    }
  }

  /** Each coercion strictly shrinks the set of loose places. */
  lemma {:induction false} WrapShrinks(payload: Payload, names: seq<string>)
    requires WrapAt(payload, names).Some?
    ensures LoosePaths(WrapAt(payload, names).value) < LoosePaths(payload)
    decreases |names|
  {
    var fields, k := payload.fields, names[0];
    var value := fields[k];
    var fields' := WrapAt(payload, names).value.fields;
    if |names| == 1 {
      assert [] in LoosePaths(value) && LoosePaths(fields'[k]) == {};
    } else {
      WrapShrinks(value, names[1..]);
    }
    ReplaceShrinks(fields, k, fields'[k]);
  }

  /** How many loose places there are. */
  ghost function Looseness(payload: Payload): nat {
    |LoosePaths(payload)|
  }

  lemma WrapTightens(payload: Payload, names: seq<string>)
    requires WrapAt(payload, names).Some?
    ensures Looseness(WrapAt(payload, names).value) < Looseness(payload)
  {
    WrapShrinks(payload, names);
    Smaller(LoosePaths(WrapAt(payload, names).value), LoosePaths(payload));
  }

  lemma ReplaceShrinks(fields: map<string, Payload>, k: string, value: Payload)
    requires k in fields && LoosePaths(value) < LoosePaths(fields[k])
    ensures LoosePaths(Mapping(fields[k := value])) < LoosePaths(Mapping(fields))
  {
    var fields' := fields[k := value];
    forall p | p in LoosePaths(Mapping(fields')) ensures p in LoosePaths(Mapping(fields)) {
      if p != [] {
        assert p == [p[0]] + p[1..];
        LooseBelow(fields', p[0], p[1..]);
        LooseBelow(fields, p[0], p[1..]);
      }
    }
    var q :| q in LoosePaths(fields[k]) && q !in LoosePaths(value);
    LooseBelow(fields, k, q);
    LooseBelow(fields', k, q);
  }

  // ------------------------------------------------------------ what may change

  /** `after` is `before` with some values wrapped in one-element lists. */
  ghost predicate Widened(before: Payload, after: Payload)
    decreases after, 1
  {
    || SameShape(before, after)
    || (after.Listed? && |after.items| == 1 && !before.Listed? && !before.Null? && SameShape(before, after.items[0]))
  }

  ghost predicate SameShape(before: Payload, after: Payload)
    decreases after, 0
  {
    || before == after
    || (&& before.Mapping? && after.Mapping? && before.fields.Keys == after.fields.Keys
        && forall k | k in after.fields :: Widened(before.fields[k], after.fields[k]))
  }

  lemma {:induction false} WrapWidens(before: Payload, after: Payload, names: seq<string>)
    requires Widened(before, after) && WrapAt(after, names).Some?
    ensures Widened(before, WrapAt(after, names).value)
    decreases |names|
  {
    var k := names[0];
    var next := WrapAt(after, names).value;
    assert SameShape(before, after);
    assert Widened(before.fields[k], after.fields[k]);
    if |names| == 1 {
      assert SameShape(before.fields[k], after.fields[k]);
      assert Widened(before.fields[k], next.fields[k]);
    } else {
      WrapWidens(before.fields[k], after.fields[k], names[1..]);
    }
    forall j | j in next.fields ensures Widened(before.fields[j], next.fields[j]) {
      if j != k {
        assert Widened(before.fields[j], after.fields[j]);
      }
    }
    assert before.fields.Keys == next.fields.Keys;
  }

  // ------------------------------------------------------------ the retry loop

  predicate AllListErrors(errors: seq<ValidationError>) {
    errors != [] && forall e | e in errors :: e.kind == "list_type"
  }

  function ActionOf(payload: Payload): Option<string> {
    if payload.Mapping? && "action" in payload.fields && payload.fields["action"].Text?
    then Some(payload.fields["action"].text) else None
  }

  /** The action is the text under that key, if there is one. */
  lemma ActionIff(payload: Payload, action: string)
    ensures ActionOf(payload) == Some(action) <==> Lookup(payload, ["action"]) == Some(Text(action))
  {
    assert ["action"][1..] == [];
  }

  /** The coercions of one round, in the order of the errors; the action is the one
      the round began with. */
  function CoerceEach(payload: Payload, errors: seq<ValidationError>, action: Option<string>): Payload {
    if errors == [] then payload
    else
      var before := CoerceEach(payload, errors[..|errors| - 1], action);
      var coerced := CoerceLocation(before, errors[|errors| - 1].location, action);
      if coerced.Some? then coerced.value else before
  }

  /** Some coercion of the round took place. */
  predicate ChangedBy(payload: Payload, errors: seq<ValidationError>, action: Option<string>) {
    errors != [] &&
    (var before := CoerceEach(payload, errors[..|errors| - 1], action);
     CoerceLocation(before, errors[|errors| - 1].location, action).Some? ||
     ChangedBy(payload, errors[..|errors| - 1], action))
  }

  predicate NothingToCoerce(payload: Payload, errors: seq<ValidationError>) {
    forall e | e in errors :: CoerceLocation(payload, e.location, ActionOf(payload)).None?
  }

  /** The candidate after `n` rounds with this validator. */
  function CandidateAt(validate: (nat, Payload) -> Verdict, payload: Payload, n: nat): Payload {
    if n == 0 then payload
    else
      var before := CandidateAt(validate, payload, n - 1);
      match validate(n - 1, before)
      case Accepted(_) => before
      case Refused(errors) => CoerceEach(before, errors, ActionOf(before))
  }

  /** Every round below `n` led to a retry: it was refused with list errors only,
      and its coercions changed the candidate. */
  predicate RetriedBefore(validate: (nat, Payload) -> Verdict, payload: Payload, n: nat) {
    n == 0 ||
    (var before := CandidateAt(validate, payload, n - 1);
     var verdict := validate(n - 1, before);
     && verdict.Refused? && AllListErrors(verdict.errors)
     && CandidateAt(validate, payload, n) != before
     && RetriedBefore(validate, payload, n - 1))
  }

  lemma {:induction false} CoerceEachTightens(original: Payload, payload: Payload, errors: seq<ValidationError>,
                                              action: Option<string>)
    requires Widened(original, payload)
    ensures var after := CoerceEach(payload, errors, action);
            Widened(original, after) && (after == payload || Looseness(after) < Looseness(payload))
  {
    if errors == [] {
    } else {
      var n := |errors| - 1;
      CoerceEachTightens(original, payload, errors[..n], action);
      CoerceLocationTightens(original, CoerceEach(payload, errors[..n], action), errors[n].location, action);
    }
  }

  lemma CoerceLocationTightens(original: Payload, payload: Payload, location: seq<Segment>, action: Option<string>)
    requires Widened(original, payload)
    ensures var after := CoerceLocation(payload, location, action);
            after.Some? ==> Widened(original, after.value) && Looseness(after.value) < Looseness(payload)
  {
    if CoerceLocation(payload, location, action).Some? {
      var names := KeysOf(location, action).value;
      WrapTightens(payload, names);
      WrapWidens(original, payload, names);
    }
  }

  /** A round that coerced something changed the payload, and one that did not had
      nothing to coerce. */
  lemma {:induction false} ChangedIff(payload: Payload, errors: seq<ValidationError>, action: Option<string>)
    ensures var after := CoerceEach(payload, errors, action);
            && (ChangedBy(payload, errors, action) <==> after != payload)
            && (after != payload ==> Looseness(after) < Looseness(payload))
            && (after == payload ==> forall e | e in errors :: CoerceLocation(payload, e.location, action).None?)
  {
    if errors == [] {
    } else {
      var n := |errors| - 1;
      ChangedIff(payload, errors[..n], action);
      var before := CoerceEach(payload, errors[..n], action);
      CoerceLocationTightens(before, before, errors[n].location, action);
      assert errors == errors[..n] + [errors[n]];
    }
  }

  /** One round coerces all it can: no error of the round can be coerced after it. */
  lemma {:induction false} RoundCoercesAll(payload: Payload, errors: seq<ValidationError>, action: Option<string>)
    ensures forall e | e in errors :: CoerceLocation(CoerceEach(payload, errors, action), e.location, action).None?
  {
    if errors != [] {
      var n := |errors| - 1;
      RoundCoercesAll(payload, errors[..n], action);
      var before, after := CoerceEach(payload, errors[..n], action), CoerceEach(payload, errors, action);
      forall e | e in errors ensures CoerceLocation(after, e.location, action).None? {
        assert e == errors[n] || e in errors[..n];
        if CoerceLocation(before, errors[n].location, action).Some? {
          StaysCoerced(before, errors[n].location, e.location, action, e == errors[n]);
        }
      }
    }
  }

  lemma StaysCoerced(payload: Payload, coerced: seq<Segment>, location: seq<Segment>, action: Option<string>,
                     same: bool)
    requires CoerceLocation(payload, coerced, action).Some?
    requires if same then location == coerced else CoerceLocation(payload, location, action).None?
    ensures CoerceLocation(CoerceLocation(payload, coerced, action).value, location, action).None?
  {
    var names, keys := KeysOf(coerced, action).value, KeysOf(location, action);
    if keys.Some? {
      WrapIff(payload, keys.value);
      WrapIff(WrapAt(payload, names).value, keys.value);
      if same {
        CoercedIsUncoercible(payload, names);
      } else {
        StaysUncoercible(payload, names, keys.value);
      }
    }
  }

  /** The path neither lies on the way to a place the error names nor below it. */
  ghost predicate Apart(path: seq<string>, e: ValidationError, action: Option<string>) {
    forall names | Spells(WithoutTag(e.location, action), names) :: !(names <= path) && !(path <= names)
  }

  /** And it changes nothing else. */
  lemma {:induction false} RoundLeavesTheRest(payload: Payload, errors: seq<ValidationError>, action: Option<string>,
                                              path: seq<string>)
    requires forall e | e in errors :: Apart(path, e, action)
    ensures Lookup(CoerceEach(payload, errors, action), path) == Lookup(payload, path)
  {
    if errors != [] {
      var n := |errors| - 1;
      RoundLeavesTheRest(payload, errors[..n], action, path);
      var before, keys := CoerceEach(payload, errors[..n], action), KeysOf(errors[n].location, action);
      if keys.Some? && WrapAt(before, keys.value).Some? {
        KeysIff(errors[n].location, action);
        assert errors[n] in errors && !(keys.value <= path) && !(path <= keys.value);
        WrapLeaves(before, keys.value, path);
      }
    }
  }

  lemma {:induction false} NothingChanges(payload: Payload, errors: seq<ValidationError>, action: Option<string>)
    requires forall e | e in errors :: CoerceLocation(payload, e.location, action).None?
    ensures CoerceEach(payload, errors, action) == payload
  {
    if errors != [] {
      NothingChanges(payload, errors[..|errors| - 1], action);
      assert errors[|errors| - 1] in errors;
    }
  }

  /** A round that leads to a retry: only errors of type `list_type`, one of them at a
      place that can be coerced. */
  predicate LeadsToRetry(candidate: Payload, verdict: Verdict) {
    && verdict.Refused? && (forall e | e in verdict.errors :: e.kind == "list_type")
    && exists e | e in verdict.errors :: CoerceLocation(candidate, e.location, ActionOf(candidate)).Some?
  }

  predicate RetriesAt(validate: (nat, Payload) -> Verdict, payload: Payload, n: nat) {
    LeadsToRetry(CandidateAt(validate, payload, n), validate(n, CandidateAt(validate, payload, n)))
  }

  lemma {:induction false} RetriedIff(validate: (nat, Payload) -> Verdict, payload: Payload, n: nat)
    ensures RetriedBefore(validate, payload, n) <==>
            forall i: nat | i < n :: RetriesAt(validate, payload, i)
  {
    if n > 0 {
      RetriedIff(validate, payload, n - 1);
      var before := CandidateAt(validate, payload, n - 1);
      RetryStep(before, validate(n - 1, before));
      assert RetriedBefore(validate, payload, n) <==>
             RetriesAt(validate, payload, n - 1) && RetriedBefore(validate, payload, n - 1);
    }
  }

  lemma RetryStep(candidate: Payload, verdict: Verdict)
    ensures LeadsToRetry(candidate, verdict) <==>
            && verdict.Refused? && AllListErrors(verdict.errors)
            && CoerceEach(candidate, verdict.errors, ActionOf(candidate)) != candidate
  {
    if verdict.Refused? {
      ChangedIff(candidate, verdict.errors, ActionOf(candidate));
      if forall e | e in verdict.errors :: CoerceLocation(candidate, e.location, ActionOf(candidate)).None? {
        NothingChanges(candidate, verdict.errors, ActionOf(candidate));
      }
    }
  }

  /** After any number of retries, for any validator, the candidate is the payload
      with values wrapped in one-element lists and nothing else, and each retry has
      used up at least one loose place. */
  lemma {:induction false} RetriesTighten(validate: (nat, Payload) -> Verdict, payload: Payload, n: nat)
    requires RetriedBefore(validate, payload, n)
    ensures Widened(payload, CandidateAt(validate, payload, n))
    ensures n + Looseness(CandidateAt(validate, payload, n)) <= Looseness(payload)
  {
    if n == 0 {
    } else {
      RetriesTighten(validate, payload, n - 1);
      var before := CandidateAt(validate, payload, n - 1);
      CoerceEachTightens(payload, before, validate(n - 1, before).errors, ActionOf(before));
    }
  }

  /** So there is a bound on the number of retries. */
  lemma RetryBound(validate: (nat, Payload) -> Verdict, payload: Payload) returns (bound: nat)
    ensures forall n: nat :: RetriedBefore(validate, payload, n) ==> n <= bound
  {
    bound := Looseness(payload);
    forall n: nat | RetriedBefore(validate, payload, n) ensures n <= bound {
      RetriesTighten(validate, payload, n);
    }
  }

  // ------------------------------------------------------------ on dictionaries

  /** What a dictionary holds under one key. Dictionaries inside lists are never
      reached by a coercion, so a list is a value. */
  datatype Entry = Held(value: Payload) | Nested(node: MappingNode)

  class MappingNode {
    var entries: map<string, Entry>
    ghost var repr: set<MappingNode> // this dictionary and all inside it
    ghost var payload: Payload // what they hold

    /** The dictionaries form a tree, and `payload` is what they hold. */
    ghost predicate Valid()
      reads this, repr
      ensures Valid() ==> this in repr && payload.Mapping?
      decreases repr
    {
      && this in repr && payload.Mapping? && payload.fields.Keys == entries.Keys
      && (forall k | k in entries :: ValidEntry(k))
      && (forall j, k | j in entries && k in entries && j != k && entries[j].Nested? && entries[k].Nested? ::
            entries[j].node.repr !! entries[k].node.repr)
    }

    ghost predicate ValidEntry(k: string)
      requires this in repr && k in entries && payload.Mapping? && payload.fields.Keys == entries.Keys
      reads this, repr
      decreases repr, 0
    {
      match entries[k]
      case Held(value) => !value.Mapping? && payload.fields[k] == value
      case Nested(n) => n in repr && n.repr <= repr && this !in n.repr && n.Valid() && payload.fields[k] == n.payload
    }

    /** Reads the dictionaries. */
    function Read(): (p: Payload)
      requires Valid()
      reads this, repr
      ensures p == payload
      decreases repr
    {
      assert forall k | k in entries :: ValidEntry(k);
      var fields := map k | k in entries :: if entries[k].Held? then entries[k].value else entries[k].node.Read();
      assert fields == payload.fields;
      Mapping(fields)
    }

    constructor ()
      ensures Valid() && entries == map[] && fresh(repr) && payload == Mapping(map[])
    {
      entries, payload := map[], Mapping(map[]);
      repr := {this};
    }

    /** Files an entry; a dictionary in it must be a separate one. */
    method Put(k: string, entry: Entry)
      requires Valid()
      requires entry.Held? ==> !entry.value.Mapping?
      requires entry.Nested? ==> entry.node.Valid() && entry.node.repr !! repr
      modifies this
      ensures Valid() && entries == old(entries)[k := entry]
      ensures repr == old(repr) + if entry.Nested? then entry.node.repr else {}
      ensures payload == Mapping(old(payload).fields[k := if entry.Held? then entry.value else entry.node.payload])
    {
      assert forall j | j in entries :: ValidEntry(j);
      payload := Mapping(payload.fields[k := if entry.Held? then entry.value else entry.node.payload]);
      entries := entries[k := entry];
      if entry.Nested? {
        repr := repr + entry.node.repr;
      }
    }

    /** `deepcopy`: the copy holds the same payload and shares no dictionary with the
        original. */
    method DeepCopy() returns (copy: MappingNode)
      requires Valid()
      ensures copy.Valid() && fresh(copy.repr) && copy.payload == payload
      decreases repr
    {
      copy := new MappingNode();
      var pending := entries.Keys;
      while pending != {}
        invariant pending <= entries.Keys && copy.Valid() && fresh(copy.repr)
        invariant copy.payload.fields == payload.fields - pending
        decreases pending
      {
        var k :| k in pending;
        assert ValidEntry(k);
        var entry := entries[k];
        if entry.Nested? {
          var inner := entry.node.DeepCopy();
          entry := Nested(inner);
        }
        copy.Put(k, entry);
        pending := pending - {k};
      }
      assert payload.fields - {} == payload.fields;
    }

    /** `_coerce_single_item_list_path` below the keys of the location: down to the last
        one, where the value is replaced by a list of it. */
    method WrapPath(names: seq<string>) returns (changed: bool)
      requires Valid()
      modifies repr
      ensures Valid() && repr == old(repr)
      ensures changed <==> WrapAt(old(payload), names).Some?
      ensures payload == if changed then WrapAt(old(payload), names).value else old(payload)
      decreases |names|, 0
    {
      if names == [] || names[0] !in entries {
        return false;
      }
      var k := names[0];
      assert ValidEntry(k);
      if |names| == 1 {
        var value := if entries[k].Held? then entries[k].value else entries[k].node.Read();
        if value.Null? || value.Listed? {
          return false;
        }
        Put(k, Held(Listed([value])));
        return true;
      }
      if entries[k].Held? {
        return false;
      }
      changed := WrapBelow(k, names[1..]);
    }

    /** The same below one nested dictionary. */
    method WrapBelow(k: string, names: seq<string>) returns (changed: bool)
      requires Valid() && k in entries && entries[k].Nested?
      modifies repr
      ensures Valid() && repr == old(repr)
      ensures var inner := WrapAt(old(payload).fields[k], names);
              && (changed <==> inner.Some?)
              && payload == if changed then Mapping(old(payload).fields[k := inner.value]) else old(payload)
      decreases |names|, 1
    {
      var child := entries[k].node;
      assert ValidEntry(k);
      forall j | j in entries && j != k && entries[j].Nested?
        ensures entries[j].node.repr !! child.repr && entries[j].node in entries[j].node.repr
        ensures this !in entries[j].node.repr && entries[j].node.Valid()
      {
        assert ValidEntry(j);
      }
      assert forall j | j in entries && j != k :: ValidEntry(j);
      changed := child.WrapPath(names);
      forall j | j in entries && j != k && entries[j].Nested?
        ensures entries[j].node.Valid() && entries[j].node.payload == old(entries[j].node.payload)
      {
      }
      payload := Mapping(payload.fields[k := child.payload]);
      forall j | j in entries ensures ValidEntry(j) {
      }
    }

    method CoercePath(location: seq<Segment>, action: Option<string>) returns (changed: bool)
      requires Valid()
      modifies repr
      ensures Valid() && repr == old(repr)
      ensures changed <==> CoerceLocation(old(payload), location, action).Some?
      ensures payload == if changed then CoerceLocation(old(payload), location, action).value else old(payload)
    {
      var names := KeysOf(location, action);
      if names.None? {
        return false;
      }
      changed := WrapPath(names.value);
    }

    /** One round of coercions, and whether anything changed. */
    method CoerceAll(errors: seq<ValidationError>) returns (changed: bool)
      requires Valid()
      modifies repr
      ensures Valid() && repr == old(repr)
      ensures payload == CoerceEach(old(payload), errors, ActionOf(old(payload)))
      ensures changed <==> payload != old(payload)
      ensures !changed ==> NothingToCoerce(old(payload), errors)
    {
      changed := false;
      ghost var before := payload;
      var action := ActionOf(Read());
      for i := 0 to |errors|
        invariant Valid() && repr == old(repr)
        invariant payload == CoerceEach(before, errors[..i], action) &&
                  changed == ChangedBy(before, errors[..i], action)
      {
        assert errors[..i + 1][..i] == errors[..i];
        var coerced := CoercePath(errors[i].location, action);
        changed := coerced || changed;
      }
      assert errors[..|errors|] == errors;
      ChangedIff(before, errors, action);
    }
  }

  /** `validate_model_payload_with_list_coercion`: it ends for every validator and, with
      no `modifies` clause, changes no dictionary of the caller: all writes go to the
      copy, which is new. What it gives is the verdict on the candidate of the last
      round; each earlier round led to a retry, and a verdict of list errors only is
      given when none of them can be coerced. */
  method ValidateWithListCoercion(validate: (nat, Payload) -> Verdict, original: MappingNode)
    returns (verdict: Verdict, candidate: MappingNode, retries: nat)
    requires original.Valid()
    ensures candidate.Valid() && fresh(candidate.repr)
    ensures candidate.payload == CandidateAt(validate, original.payload, retries)
    ensures RetriedBefore(validate, original.payload, retries)
    ensures verdict == validate(retries, candidate.payload) && !LeadsToRetry(candidate.payload, verdict)
  {
    candidate := original.DeepCopy();
    retries := 0;
    ghost var payload := original.payload;
    ghost var bound := RetryBound(validate, payload);
    while true
      invariant candidate.Valid() && fresh(candidate.repr)
      invariant candidate.payload == CandidateAt(validate, payload, retries) &&
                RetriedBefore(validate, payload, retries)
      decreases bound - retries
    {
      verdict := validate(retries, candidate.Read());
      if verdict.Accepted? || !AllListErrors(verdict.errors) {
        return;
      }
      var changed := candidate.CoerceAll(verdict.errors);
      if !changed {
        return;
      }
      retries := retries + 1;
    }
  }

  lemma Smaller<T>(a: set<T>, b: set<T>)
    requires a < b
    ensures |a| < |b|
  {
    var x :| x in b && x !in a;
    assert a <= b - {x};
    Subset(a, b - {x});
  }

  lemma {:induction false} Subset<T>(a: set<T>, b: set<T>)
    requires a <= b
    ensures |a| <= |b|
    decreases a
  {
    if a == {} {
    } else {
      var x :| x in a;
      Subset(a - {x}, b - {x});
    }
  }
}
