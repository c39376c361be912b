/** Override values as trees of named fields: masking of secret values, unmasking with the
    saved ones, and enumeration of the keys with removal of empty strings. */
module OverrideValues {
  import Deployments
  import opened Strings

  /** A protobuf value; `Unset` is a value without a kind. */
  datatype Value =
    | Unset
    | Null
    | Number(n: int)
    | Bool(b: bool)
    | Str(s: string)
    | Struct(fields: Fields)
    | List(items: seq<Value>)

  type Fields = map<string, Value>

  /** Names of the keys from the root of the tree down to a value. */
  type Path = seq<string>

  const MAX_DEPTH: nat := 20

  const PLACEHOLDER := "********"

  function Dots(path: Path): string {
    Join(path, ".")
  }

  // ---------------------------------------------------------------------------
  // Masking
  // ---------------------------------------------------------------------------

  /** The path ends at a struct that has fields: the code indexes the first remaining key of
      the path for every field it visits. */
  ghost predicate Panics(fields: Fields, keys: Path, depth: nat)
    decreases Struct(fields)
  {
    depth <= MAX_DEPTH && fields != map[] &&
    (keys == [] || (keys[0] in fields && fields[keys[0]].Struct? && Panics(fields[keys[0]].fields, keys[1..], depth + 1)))
  }

  ghost predicate LeadsToStruct(v: Value, path: Path) {
    v.Struct? &&
    if path == [] then v.fields != map[]
    else path[0] in v.fields && LeadsToStruct(v.fields[path[0]], path[1..])
  }

  /** So it panics exactly on a struct with fields that is at most 20 levels down. */
  lemma {:induction false} PanicsIff(fields: Fields, keys: Path, depth: nat)
    ensures Panics(fields, keys, depth) <==> LeadsToStruct(Struct(fields), keys) && depth + |keys| <= 20
    decreases |keys|
  {
    if keys != [] && keys[0] in fields && fields[keys[0]].Struct? {
      assert fields[keys[0]] == Struct(fields[keys[0]].fields);
      PanicsIff(fields[keys[0]].fields, keys[1..], depth + 1);
    }
  }

  /** The tree and the value that one call leaves. */
  function Masked(fields: Fields, keys: Path, value: string, depth: nat): (Fields, string)
    decreases Struct(fields)
  {
    if depth > MAX_DEPTH || keys == [] || keys[0] !in fields then (fields, value)
    else
      match fields[keys[0]]
      case Str(s) => (fields[keys[0] := Str(PLACEHOLDER)], s)
      case Struct(inner) =>
        var r := Masked(inner, keys[1..], value, depth + 1);
        (fields[keys[0] := Struct(r.0)], r.1)
      case _ => (fields, value)
  }

  /** maskPbValue: the fields are visited in any order, and all but one are passed over. */
  method MaskPbValue(fields: Fields, keys: Path, value: string, depth: nat) returns (panics: bool, masked: Fields, found: string)
    ensures panics <==> Panics(fields, keys, depth)
    ensures !panics ==> (masked, found) == Masked(fields, keys, value, depth)
    decreases Struct(fields)
  {
    panics, masked, found := false, fields, value;
    if depth > MAX_DEPTH {
      return;
    }
    var todo := fields.Keys;
    while todo != {}
      invariant todo <= fields.Keys && (keys == [] ==> todo == fields.Keys)
      invariant keys != [] && keys[0] in fields.Keys - todo ==> !Panics(fields, keys, depth)
      invariant (masked, found) == if keys != [] && keys[0] in fields.Keys - todo
                                   then Masked(fields, keys, value, depth) else (fields, value)
      decreases todo
    {
      var k :| k in todo;
      if keys == [] {
        return true, masked, found;
      }
      if k == keys[0] {
        match fields[k]
        case Str(s) =>
          found := s;
          masked := masked[k := Str(PLACEHOLDER)];
        case Struct(inner) =>
          var below, v;
          panics, below, v := MaskPbValue(inner, keys[1..], found, depth + 1);
          if panics {
            return;
          }
          masked, found := masked[k := Struct(below)], v;
        case _ =>
      }
      todo := todo - {k};
    }
  }

  /** The value behind `v` at `path` is a string. */
  ghost predicate Leads(v: Value, path: Path) {
    if path == [] then v.Str?
    else v.Struct? && path[0] in v.fields && Leads(v.fields[path[0]], path[1..])
  }

  ghost function StringAt(v: Value, path: Path): string
    requires Leads(v, path)
  {
    if path == [] then v.s else StringAt(v.fields[path[0]], path[1..])
  }

  /** `v`, found at `path`, with the strings at `names` masked. */
  ghost function MaskSet(v: Value, names: set<Path>, path: Path): Value
    decreases v
  {
    match v
    case Str(_) => if path in names then Str(PLACEHOLDER) else v
    case Struct(fields) => Struct(map k | k in fields :: MaskSet(fields[k], names, path + [k]))
    case _ => v
  }

  lemma {:induction false} MaskElsewhere(v: Value, names: set<Path>, path: Path, name: Path)
    requires !(path <= name)
    ensures MaskSet(v, names + {name}, path) == MaskSet(v, names, path)
    decreases v
  {
    if v.Struct? {
      forall k | k in v.fields
        ensures MaskSet(v.fields[k], names + {name}, path + [k]) == MaskSet(v.fields[k], names, path + [k])
      {
        assert path + [k] <= name ==> path <= name;
        MaskElsewhere(v.fields[k], names, path + [k], name);
      }
    }
  }

  lemma {:induction false} MaskNothing(v: Value, path: Path)
    ensures MaskSet(v, {}, path) == v
    decreases v
  {
    if v.Struct? {
      forall k | k in v.fields ensures MaskSet(v.fields[k], {}, path + [k]) == v.fields[k] {
        MaskNothing(v.fields[k], path + [k]);
      }
    }
  }

  /** One call masks one more name and returns the string that was there. */
  lemma {:induction false} MaskedAddsOne(v: Value, names: set<Path>, path: Path, rest: Path, value: string)
    requires v.Struct? && rest != [] && Leads(v, rest)
    requires |path| + |rest| <= MAX_DEPTH + 1 && path + rest !in names
    ensures var before := MaskSet(v, names, path).fields;
            && !Panics(before, rest, |path|)
            && Masked(before, rest, value, |path|) == (MaskSet(v, names + {path + rest}, path).fields, StringAt(v, rest))
    decreases |rest|
  {
    var k, name := rest[0], path + rest;
    var before := MaskSet(v, names, path).fields;
    assert path + [k] + rest[1..] == name;
    forall k' | k' in v.fields && k' != k
      ensures MaskSet(v.fields[k'], names + {name}, path + [k']) == before[k']
    {
      assert !(path + [k'] <= name) by {
        assert name[|path|] == k && (path + [k'])[|path|] == k';
      }
      MaskElsewhere(v.fields[k'], names, path + [k'], name);
    }
    assert Leads(v.fields[k], rest[1..]) && |path + [k]| == |path| + 1;
    assert before[k] == MaskSet(v.fields[k], names, path + [k]);
    if |rest| == 1 {
      assert rest[1..] == [] && path + [k] == name;
    } else {
      MaskedAddsOne(v.fields[k], names, path + [k], rest[1..], value);
    }
    assert MaskSet(v, names + {name}, path).fields == Masked(before, rest, value, |path|).0;
  }

  /** Read string by string: the placeholder stands at the names, all else is as it was. */
  lemma {:induction false} MaskedReads(v: Value, names: set<Path>, path: Path, rest: Path)
    ensures Leads(MaskSet(v, names, path), rest) <==> Leads(v, rest)
    ensures Leads(v, rest) ==>
              StringAt(MaskSet(v, names, path), rest) == if path + rest in names then "********" else StringAt(v, rest)
    decreases |rest|
  {
    if rest == [] {
      assert path + rest == path;
    } else if v.Struct? && rest[0] in v.fields {
      MaskedReads(v.fields[rest[0]], names, path + [rest[0]], rest[1..]);
      assert path + [rest[0]] + rest[1..] == path + rest;
    }
  }

  lemma {:induction false} TooDeepIsNotMasked(fields: Fields, keys: Path, value: string, depth: nat)
    requires Leads(Struct(fields), keys) && depth + |keys| > MAX_DEPTH + 1
    ensures Masked(fields, keys, value, depth) == (fields, value)
    decreases |keys|
  {
    if depth <= MAX_DEPTH && fields[keys[0]].Struct? {
      TooDeepIsNotMasked(fields[keys[0]].fields, keys[1..], value, depth + 1);
      assert fields[keys[0] := fields[keys[0]]] == fields;
    }
  }

  /** A name of at most 21 segments that leads to a string is masked, a longer one is not. */
  lemma MaskingGoes21Deep(tree: Fields, name: Path)
    requires name != [] && Leads(Struct(tree), name)
    ensures Masked(tree, name, "", 0) ==
            if |name| <= 21 then (MaskSet(Struct(tree), {name}, []).fields, StringAt(Struct(tree), name)) else (tree, "")
  {
    if |name| <= 21 {
      MaskNothing(Struct(tree), []);
      MaskedAddsOne(Struct(tree), {}, [], name, "");
      assert [] + name == name && {} + {name} == {name};
    } else {
      TooDeepIsNotMasked(tree, name, "", 0);
    }
  }

  // ---------------------------------------------------------------------------
  // Masking all secrets of an application
  // ---------------------------------------------------------------------------

  /** The name leads to a string. */
  ghost predicate IsMasked(tree: Fields, name: string) {
    Leads(Struct(tree), Split(name, '.'))
  }

  ghost predicate NoDuplicates(keys: seq<string>) {
    forall i, j | 0 <= i < j < |keys| :: keys[i] != keys[j]
  }

  /** The path goes on where the tree ends in a string. */
  ghost predicate Overshoots(v: Value, path: Path) {
    path != [] && (v.Str? || (v.Struct? && path[0] in v.fields && Overshoots(v.fields[path[0]], path[1..])))
  }

  /** The keys that a request was found to have: each once, within the depth bound, and none
      below a string. */
  ghost predicate KeysLead(tree: Fields, keys: seq<string>) {
    && NoDuplicates(keys)
    && forall k | k in keys ::
         !Overshoots(Struct(tree), Split(k, '.')) &&
         (Leads(Struct(tree), Split(k, '.')) ==> |Split(k, '.')| <= 21)
  }

  /** `secrets` are the names of the secret parameters, `keys` the override keys that the
      request was found to have. */
  ghost function PathsOf(tree: Fields, secrets: seq<string>, keys: seq<string>): set<Path> {
    set s | s in secrets && s in keys && IsMasked(tree, s) :: Split(s, '.')
  }

  /** Every secret that was given is saved, as empty if there was no string to mask. */
  ghost predicate SavedFits(tree: Fields, secrets: seq<string>, keys: seq<string>, saved: map<string, string>) {
    && (forall s :: s in saved <==> s in secrets && s in keys)
    && (forall s | s in saved :: saved[s] == if IsMasked(tree, s) then StringAt(Struct(tree), Split(s, '.')) else "")
  }

  /** Masks `name` once for each of `keys` that equals it. */
  method MaskName(tree: Fields, name: string, keys: seq<string>, saved: map<string, string>)
    returns (panics: bool, masked: Fields, saved': map<string, string>)
    requires NoDuplicates(keys)
    ensures panics <==> name in keys && Panics(tree, Split(name, '.'), 0)
    ensures name !in keys ==> masked == tree && saved' == saved
    ensures name in keys && !panics ==>
              var r := Masked(tree, Split(name, '.'), "", 0); masked == r.0 && saved' == saved[name := r.1]
  {
    panics, masked, saved' := false, tree, saved;
    ghost var before := true;
    for j := 0 to |keys|
      invariant before <==> forall i | 0 <= i < j :: keys[i] != name
      invariant before ==> masked == tree && saved' == saved
      invariant !before ==> !Panics(tree, Split(name, '.'), 0)
      invariant !before ==>
                  var r := Masked(tree, Split(name, '.'), "", 0); masked == r.0 && saved' == saved[name := r.1]
    {
      if keys[j] == name {
        var found;
        panics, masked, found := MaskPbValue(masked, Split(name, '.'), "", 0);
        if panics {
          return;
        }
        saved' := saved'[name := found];
        before := false;
      }
    }
  }

  lemma PathsOfStep(tree: Fields, secrets: seq<string>, keys: seq<string>, i: nat)
    requires i < |secrets|
    ensures PathsOf(tree, secrets[..i + 1], keys) ==
            PathsOf(tree, secrets[..i], keys) +
            (if secrets[i] in keys && IsMasked(tree, secrets[i]) then {Split(secrets[i], '.')} else {})
  {
    assert secrets[..i + 1] == secrets[..i] + [secrets[i]];
  }

  /** Masking strings turns no struct into anything else. */
  lemma {:induction false} MaskedPanics(v: Value, names: set<Path>, path: Path, rest: Path, depth: nat)
    requires v.Struct?
    ensures Panics(MaskSet(v, names, path).fields, rest, depth) <==> Panics(v.fields, rest, depth)
    decreases v
  {
    var after := MaskSet(v, names, path).fields;
    assert after.Keys == v.fields.Keys && (after == map[] <==> v.fields == map[]);
    if rest != [] && rest[0] in v.fields && v.fields[rest[0]].Struct? {
      MaskedPanics(v.fields[rest[0]], names, path + [rest[0]], rest[1..], depth + 1);
    }
  }

  /** A name that leads to no string within the depth bound changes nothing. */
  lemma {:induction false} MaskedAddsNothing(v: Value, names: set<Path>, path: Path, rest: Path, value: string, depth: nat)
    requires v.Struct? && !Leads(v, rest) && !Overshoots(v, rest)
    ensures var before := MaskSet(v, names, path).fields; Masked(before, rest, value, depth) == (before, value)
    decreases v
  {
    var before := MaskSet(v, names, path).fields;
    if depth <= MAX_DEPTH && rest != [] && rest[0] in v.fields {
      var inner := v.fields[rest[0]];
      if inner.Struct? {
        MaskedAddsNothing(inner, names, path + [rest[0]], rest[1..], value, depth + 1);
        assert before[rest[0] := before[rest[0]]] == before;
      }
    }
  }

  lemma MaskOne(tree: Fields, done: set<Path>, name: string)
    requires KeysLead(tree, [name]) && (IsMasked(tree, name) ==> Split(name, '.') !in done)
    ensures var path, before := Split(name, '.'), MaskSet(Struct(tree), done, []).fields;
            && (Panics(before, path, 0) <==> Panics(tree, path, 0))
            && Masked(before, path, "", 0) ==
               if IsMasked(tree, name) then (MaskSet(Struct(tree), done + {path}, []).fields, StringAt(Struct(tree), path))
               else (before, "")
  {
    var path := Split(name, '.');
    MaskedPanics(Struct(tree), done, [], path, 0);
    assert name in [name] && [] + path == path;
    if IsMasked(tree, name) {
      MaskedAddsOne(Struct(tree), done, [], path, "");
    } else {
      MaskedAddsNothing(Struct(tree), done, [], path, "", 0);
    }
  }

  lemma SavedStep(tree: Fields, secrets: seq<string>, keys: seq<string>, i: nat, saved: map<string, string>)
    requires i < |secrets| && SavedFits(tree, secrets[..i], keys, saved)
    ensures var name := secrets[i];
            var found := if IsMasked(tree, name) then StringAt(Struct(tree), Split(name, '.')) else "";
            SavedFits(tree, secrets[..i + 1], keys, if name in keys then saved[name := found] else saved)
  {
    assert forall s :: s in secrets[..i + 1] <==> s in secrets[..i] || s == secrets[i];
  }

  lemma OtherPathsBefore(tree: Fields, secrets: seq<string>, keys: seq<string>, i: nat)
    requires NoDuplicates(secrets) && i < |secrets|
    ensures Split(secrets[i], '.') !in PathsOf(tree, secrets[..i], keys)
  {
    forall s | s in secrets[..i] ensures Split(s, '.') != Split(secrets[i], '.') {
      JoinUndoesSplit(s, '.');
      JoinUndoesSplit(secrets[i], '.');
    }
  }

  lemma MaskStep(tree: Fields, secrets: seq<string>, keys: seq<string>, i: nat, masked: Fields, saved: map<string, string>)
    requires KeysLead(tree, keys) && NoDuplicates(secrets) && i < |secrets|
    requires Struct(masked) == MaskSet(Struct(tree), PathsOf(tree, secrets[..i], keys), [])
    requires SavedFits(tree, secrets[..i], keys, saved)
    ensures var name, done := secrets[i], PathsOf(tree, secrets[..i + 1], keys);
            if name in keys then
              && (Panics(masked, Split(name, '.'), 0) <==> Panics(tree, Split(name, '.'), 0))
              && var r := Masked(masked, Split(name, '.'), "", 0);
                 Struct(r.0) == MaskSet(Struct(tree), done, []) && SavedFits(tree, secrets[..i + 1], keys, saved[name := r.1])
            else
              Struct(masked) == MaskSet(Struct(tree), done, []) && SavedFits(tree, secrets[..i + 1], keys, saved)
  {
    var name, done := secrets[i], PathsOf(tree, secrets[..i], keys);
    PathsOfStep(tree, secrets, keys, i);
    SavedStep(tree, secrets, keys, i, saved);
    OtherPathsBefore(tree, secrets, keys, i);
    if name in keys {
      MaskOne(tree, done, name);
    }
    assert done + {} == done;
  }

  /** The secret part of checkParameterTemplate for one application: every name that leads to
      a string is masked, what was found is saved, and nothing else in the tree changes. A
      name that leads to a struct with fields makes it panic. */
  method MaskSecrets(tree: Fields, secrets: seq<string>, keys: seq<string>)
    returns (panics: bool, masked: Fields, saved: map<string, string>)
    requires NoDuplicates(secrets) && KeysLead(tree, keys)
    ensures panics <==> exists s :: s in secrets && s in keys && Panics(tree, Split(s, '.'), 0)
    ensures !panics ==> Struct(masked) == MaskSet(Struct(tree), PathsOf(tree, secrets, keys), [])
    ensures !panics ==> SavedFits(tree, secrets, keys, saved)
  {
    panics, masked, saved := false, tree, map[];
    MaskNothing(Struct(tree), []);
    assert PathsOf(tree, secrets[..0], keys) == {};
    for i := 0 to |secrets|
      invariant forall j | 0 <= j < i :: secrets[j] in keys ==> !Panics(tree, Split(secrets[j], '.'), 0)
      invariant Struct(masked) == MaskSet(Struct(tree), PathsOf(tree, secrets[..i], keys), [])
      invariant SavedFits(tree, secrets[..i], keys, saved)
    {
      MaskStep(tree, secrets, keys, i, masked, saved);
      panics, masked, saved := MaskName(masked, secrets[i], keys, saved);
      if panics {
        return;
      }
    }
    assert secrets[..|secrets|] == secrets;
  }

  // ---------------------------------------------------------------------------
  // Unmasking
  // ---------------------------------------------------------------------------

  function FullKey(prefix: string, k: string): string {
    if prefix == "" then k else prefix + "." + k
  }

  function Unmasked(fields: Fields, previous: Fields, prefix: string): Fields
    decreases Struct(fields), 0
  {
    map k | k in fields :: UnmaskedValue(fields[k], previous, FullKey(prefix, k))
  }

  function UnmaskedValue(v: Value, previous: Fields, key: string): Value
    decreases v, 1
  {
    match v
    case Str(s) =>
      if s == PLACEHOLDER && key in previous && previous[key].Str? then previous[key] else v
    case Struct(fields) => Struct(Unmasked(fields, previous, key))
    case List(items) =>
      List(seq(|items|, i requires 0 <= i < |items| =>
        if items[i].Struct? then UnmaskedValue(items[i], previous, key + "[" + Digits(i) + "]") else items[i]))
    case _ => v
  }

  method UnmaskList(items: seq<Value>, previous: Fields, key: string) returns (list: seq<Value>)
    ensures List(list) == UnmaskedValue(List(items), previous, key)
    decreases List(items)
  {
    list := items;
    for i := 0 to |items|
      invariant |list| == |items|
      invariant forall j | 0 <= j < |items| ::
                  list[j] == if j < i then UnmaskedValue(List(items), previous, key).items[j] else items[j]
    {
      if items[i].Struct? {
        assert items[i] == Struct(items[i].fields);
        var below := UnmaskSecrets(items[i].fields, previous, key + "[" + Digits(i) + "]");
        list := list[i := Struct(below)];
      }
    }
  }

  /** The fields with those outside `todo` dealt with. */
  ghost function UnmaskedSome(current: Fields, todo: set<string>, previous: Fields, prefix: string): Fields {
    map k | k in current :: if k in todo then current[k] else UnmaskedValue(current[k], previous, FullKey(prefix, k))
  }

  lemma UnmaskedStep(current: Fields, todo: set<string>, previous: Fields, prefix: string, k: string)
    requires k in todo && k in current
    ensures UnmaskedSome(current, todo - {k}, previous, prefix) ==
            UnmaskedSome(current, todo, previous, prefix)[k := UnmaskedValue(current[k], previous, FullKey(prefix, k))]
    ensures UnmaskedSome(current, todo, previous, prefix)[k] == current[k]
    ensures UnmaskedSome(current, todo, previous, prefix)[k := current[k]] == UnmaskedSome(current, todo, previous, prefix)
  {
  }

  /** UnmaskSecrets. */
  method UnmaskSecrets(current: Fields, previous: Fields, prefix: string) returns (result: Fields)
    ensures result == Unmasked(current, previous, prefix)
    decreases Struct(current)
  {
    result := current;
    var todo := current.Keys;
    while todo != {}
      invariant todo <= current.Keys
      invariant result == UnmaskedSome(current, todo, previous, prefix)
      decreases todo
    {
      var k :| k in todo;
      var key := FullKey(prefix, k);
      UnmaskedStep(current, todo, previous, prefix, k);
      match current[k] {
      case Str(s) =>
        if s == PLACEHOLDER && key in previous && previous[key].Str? {
          result := result[k := Str(previous[key].s)];
        }
      case Struct(fields) =>
        var below := UnmaskSecrets(fields, previous, key);
        result := result[k := Struct(below)];
      case List(items) =>
        var list := UnmaskList(items, previous, key);
        result := result[k := List(list)];
      case _ =>
      }
      todo := todo - {k};
    }
  }

  /** A way down through structs and lists. */
  datatype Step = Field(k: string) | Index(i: nat)

  ghost function ValueAt(v: Value, steps: seq<Step>): Deployments.Option<Value>
    decreases |steps|
  {
    if steps == [] then Deployments.Some(v)
    else
      match steps[0]
      case Field(k) => if v.Struct? && k in v.fields then ValueAt(v.fields[k], steps[1..]) else Deployments.None
      case Index(i) => if v.List? && i < |v.items| then ValueAt(v.items[i], steps[1..]) else Deployments.None
  }

  /** The name under which a string is looked up: fields joined by dots, places in brackets. */
  ghost function NameAt(key: string, steps: seq<Step>): string
    decreases |steps|
  {
    if steps == [] then key
    else
      match steps[0]
      case Field(k) => NameAt(if key == "" then k else key + "." + k, steps[1..])
      case Index(i) => NameAt(key + "[" + Digits(i) + "]", steps[1..])
  }

  /** Of a list, only the structs are entered. */
  ghost predicate IsEntered(steps: seq<Step>) {
    steps == [] || ((steps[0].Index? ==> |steps| > 1 && steps[1].Field?) && IsEntered(steps[1..]))
  }

  /** Read leaf by leaf: a placeholder gets the string that was saved under its name, if one was and
      the way to it enters lists by structs only; every other leaf is as it was. */
  lemma {:induction false} UnmaskedReads(v: Value, previous: Fields, key: string, steps: seq<Step>)
    requires ValueAt(v, steps).Some? && !ValueAt(v, steps).value.Struct? && !ValueAt(v, steps).value.List?
    ensures var x, name := ValueAt(v, steps).value, NameAt(key, steps);
            ValueAt(UnmaskedValue(v, previous, key), steps) == Deployments.Some(
              if x == Str("********") && IsEntered(steps) && name in previous && previous[name].Str? then previous[name] else x)
    decreases |steps|
  {
    if steps != [] {
      var rest := steps[1..];
      match steps[0] {
        case Field(k) =>
          UnmaskedReads(v.fields[k], previous, FullKey(key, k), rest);
        case Index(i) =>
          if v.items[i].Struct? {
            UnmaskedReads(v.items[i], previous, key + "[" + Digits(i) + "]", rest);
          } else {
            assert rest == [] || rest[0].Index?;
          }
      }
    }
  }

  // ---------------------------------------------------------------------------
  // Round trip
  // ---------------------------------------------------------------------------

  /** Keys contain neither dots nor brackets. */
  predicate PlainKey(k: string) {
    '.' !in k && '[' !in k
  }

  ghost predicate PlainTree(v: Value)
    decreases v
  {
    v.Struct? ==> forall k | k in v.fields :: PlainKey(k) && PlainTree(v.fields[k])
  }

  ghost predicate PlainPath(path: Path) {
    path != [] && forall k | k in path :: PlainKey(k)
  }

  /** The path under which UnmaskSecrets looks for what was saved: a key added to an empty
      prefix replaces it, so leading empty keys get lost. */
  function KeyPath(path: Path): (key: Path)
    ensures key != [] ==> key[0] != ""
  {
    if path == [] then []
    else
      var above, k := KeyPath(path[..|path| - 1]), path[|path| - 1];
      if above == [] && k == "" then [] else above + [k]
  }

  lemma {:induction false} KeyPathIsPath(path: Path)
    requires path != [] && path[0] != ""
    ensures KeyPath(path) == path
  {
    if |path| > 1 {
      KeyPathIsPath(path[..|path| - 1]);
    }
  }

  lemma {:induction false} KeyPathSkips(rest: Path)
    requires rest != [] && rest[0] != ""
    ensures KeyPath([""] + rest) == rest
  {
    var path := [""] + rest;
    if |rest| == 1 {
      assert path[..1] == [""] && [""][..0] == [];
    } else {
      KeyPathSkips(rest[..|rest| - 1]);
      assert path[..|rest|] == [""] + rest[..|rest| - 1];
    }
  }

  lemma {:induction false} DotsIsNotEmpty(path: Path)
    requires path != [] && path[0] != ""
    ensures Dots(path) != ""
  {
    if |path| > 1 {
      DotsIsNotEmpty(path[..|path| - 1]);
    }
  }

  lemma FullKeyIsDots(path: Path, k: string)
    ensures FullKey(Dots(KeyPath(path)), k) == Dots(KeyPath(path + [k]))
  {
    var above := KeyPath(path);
    assert (path + [k])[..|path|] == path;
    if above != [] {
      DotsIsNotEmpty(above);
      assert (above + [k])[..|above|] == above;
    }
  }

  /** Inside lists every key has a bracket, so nothing saved applies there. */
  lemma {:induction false} BracketedIsUntouched(v: Value, previous: Fields, key: string)
    requires '[' in key && forall p | p in previous :: '[' !in p
    ensures UnmaskedValue(v, previous, key) == v
    decreases v, 1
  {
    match v
    case Struct(fields) =>
      forall k | k in fields ensures UnmaskedValue(fields[k], previous, FullKey(key, k)) == fields[k] {
        BracketedIsUntouched(fields[k], previous, FullKey(key, k));
      }
    case List(items) =>
      ListIsUntouched(items, previous, key);
    case _ =>
  }

  lemma {:induction false} ListIsUntouched(items: seq<Value>, previous: Fields, key: string)
    requires forall p | p in previous :: '[' !in p
    ensures UnmaskedValue(List(items), previous, key) == List(items)
    decreases List(items), 0
  {
    var list := UnmaskedValue(List(items), previous, key).items;
    forall i | 0 <= i < |items| ensures list[i] == items[i] {
      if items[i].Struct? {
        BracketedIsUntouched(items[i], previous, key + "[" + Digits(i) + "]");
      }
    }
  }

  /** What becomes of the string `s` at `path`: if it is masked, or was the placeholder all
      along, the name it is looked up under must have saved it, or nothing at all. */
  ghost predicate Restored(s: string, path: Path, names: set<Path>, previous: Fields) {
    path in names || s == PLACEHOLDER ==>
      var key := Dots(KeyPath(path));
      if key in previous && previous[key].Str? then previous[key] == Str(s) else s == PLACEHOLDER
  }

  ghost predicate AllRestored(v: Value, path: Path, names: set<Path>, previous: Fields) {
    forall rest | Leads(v, rest) :: Restored(StringAt(v, rest), path + rest, names, previous)
  }

  lemma AllRestoredBelow(v: Value, path: Path, names: set<Path>, previous: Fields)
    requires v.Struct?
    ensures AllRestored(v, path, names, previous) <==>
            forall k | k in v.fields :: AllRestored(v.fields[k], path + [k], names, previous)
  {
    forall k, rest | k in v.fields && Leads(v.fields[k], rest)
      ensures Leads(v, [k] + rest) && StringAt(v, [k] + rest) == StringAt(v.fields[k], rest)
      ensures path + ([k] + rest) == path + [k] + rest
    {
      assert ([k] + rest)[1..] == rest;
    }
    forall rest | Leads(v, rest)
      ensures rest != [] && rest[0] in v.fields && path + [rest[0]] + rest[1..] == path + rest
    {
    }
  }

  lemma MaskedFieldwise(fields: Fields, names: set<Path>, previous: Fields, path: Path, key: string)
    ensures var r := UnmaskedValue(MaskSet(Struct(fields), names, path), previous, key);
            && r.Struct? && r.fields.Keys == fields.Keys
            && forall k | k in fields ::
                 r.fields[k] == UnmaskedValue(MaskSet(fields[k], names, path + [k]), previous, FullKey(key, k))
  {
    var masked := MaskSet(Struct(fields), names, path);
    assert masked.fields.Keys == fields.Keys;
  }

  ghost function RoundTrip(v: Value, names: set<Path>, previous: Fields, path: Path): Value {
    UnmaskedValue(MaskSet(v, names, path), previous, Dots(KeyPath(path)))
  }

  lemma RoundTripFieldwise(fields: Fields, names: set<Path>, previous: Fields, path: Path)
    ensures var r := RoundTrip(Struct(fields), names, previous, path);
            && r.Struct? && r.fields.Keys == fields.Keys
            && forall k | k in fields :: r.fields[k] == RoundTrip(fields[k], names, previous, path + [k])
  {
    MaskedFieldwise(fields, names, previous, path, Dots(KeyPath(path)));
    forall k | k in fields
      ensures RoundTrip(Struct(fields), names, previous, path).fields[k] == RoundTrip(fields[k], names, previous, path + [k])
    {
      FullKeyIsDots(path, k);
    }
  }

  lemma FieldwiseIff(fields: Fields, after: Fields, path: Path, names: set<Path>, previous: Fields)
    requires after.Keys == fields.Keys
    requires forall k | k in fields :: after[k] == fields[k] <==> AllRestored(fields[k], path + [k], names, previous)
    ensures after == fields <==> AllRestored(Struct(fields), path, names, previous)
  {
    AllRestoredBelow(Struct(fields), path, names, previous);
    assert after == fields <==> forall k | k in fields :: after[k] == fields[k];
  }

  lemma StructIsRestoredIff(fields: Fields, names: set<Path>, previous: Fields, path: Path)
    requires forall k | k in fields ::
               RoundTrip(fields[k], names, previous, path + [k]) == fields[k] <==>
               AllRestored(fields[k], path + [k], names, previous)
    ensures RoundTrip(Struct(fields), names, previous, path) == Struct(fields) <==>
            AllRestored(Struct(fields), path, names, previous)
  {
    RoundTripFieldwise(fields, names, previous, path);
    FieldwiseIff(fields, RoundTrip(Struct(fields), names, previous, path).fields, path, names, previous);
  }

  lemma StringIsRestoredIff(s: string, names: set<Path>, previous: Fields, path: Path)
    ensures RoundTrip(Str(s), names, previous, path) == Str(s) <==> AllRestored(Str(s), path, names, previous)
  {
    assert path + [] == path && Leads(Str(s), []) && forall rest | Leads(Str(s), rest) :: rest == [];
  }

  /** Masking and unmasking gives a value back exactly if each of its strings is restored. */
  lemma {:induction false} RoundTripIff(v: Value, names: set<Path>, previous: Fields, path: Path)
    requires PlainTree(v) && forall p | p in previous :: '[' !in p
    ensures RoundTrip(v, names, previous, path) == v <==> AllRestored(v, path, names, previous)
    decreases v
  {
    match v
    case Str(s) => StringIsRestoredIff(s, names, previous, path);
    case Struct(fields) =>
      forall k | k in fields
        ensures RoundTrip(fields[k], names, previous, path + [k]) == fields[k] <==>
                AllRestored(fields[k], path + [k], names, previous)
      {
        RoundTripIff(fields[k], names, previous, path + [k]);
      }
      StructIsRestoredIff(fields, names, previous, path);
    case List(items) => ListIsUntouched(items, previous, Dots(KeyPath(path)));
    case _ =>
  }

  /** `previous` holds the strings of `names`; what else it has leads to no string. */
  ghost predicate Holds(previous: Fields, names: set<Path>, tree: Fields) {
    && (forall p | p in names ::
          PlainPath(p) && Leads(Struct(tree), p) && Dots(p) in previous && previous[Dots(p)] == Str(StringAt(Struct(tree), p)))
    && (forall key | key in previous ::
          '[' !in key && (Split(key, '.') in names || !Leads(Struct(tree), Split(key, '.'))))
  }

  /** Only strings below an empty key at the top can go wrong. */
  lemma OthersAreRestored(tree: Fields, names: set<Path>, previous: Fields, path: Path)
    requires PlainTree(Struct(tree)) && Holds(previous, names, tree)
    requires Leads(Struct(tree), path) && path[0] != ""
    ensures Restored(StringAt(Struct(tree), path), path, names, previous)
  {
    KeyPathIsPath(path);
    SplitIsPlain(Struct(tree), path);
    SplitUndoesJoin(path, '.');
  }

  /** Without dots and brackets in the keys, unmasking with the saved values gives the tree
      back exactly if each string below an empty key at the top is looked up under a name
      that has saved that very string. */
  lemma MaskUnmaskRoundTripIff(tree: Fields, names: set<Path>, previous: Fields)
    requires PlainTree(Struct(tree)) && Holds(previous, names, tree)
    ensures Unmasked(MaskSet(Struct(tree), names, []).fields, previous, "") == tree <==>
            forall path | Leads(Struct(tree), path) && path[0] == "" ::
              Restored(StringAt(Struct(tree), path), path, names, previous)
  {
    RoundTripIff(Struct(tree), names, previous, []);
    assert RoundTrip(Struct(tree), names, previous, []) ==
           Struct(Unmasked(MaskSet(Struct(tree), names, []).fields, previous, ""));
    forall path | Leads(Struct(tree), path)
      ensures [] + path == path && (path[0] != "" ==> Restored(StringAt(Struct(tree), path), path, names, previous))
    {
      if path[0] != "" {
        OthersAreRestored(tree, names, previous, path);
      }
    }
  }

  ghost predicate PlainRoot(tree: Fields) {
    PlainTree(Struct(tree)) && "" !in tree
  }

  /** Whatever is masked, the round trip works when no key at the top is empty. */
  lemma MaskUnmaskRoundTrip(tree: Fields, names: set<Path>, previous: Fields)
    requires PlainRoot(tree) && Holds(previous, names, tree)
    ensures Unmasked(MaskSet(Struct(tree), names, []).fields, previous, "") == tree
  {
    MaskUnmaskRoundTripIff(tree, names, previous);
  }

  lemma {:induction false} SplitIsPlain(v: Value, path: Path)
    requires Leads(v, path) && PlainTree(v)
    ensures forall k | k in path :: PlainKey(k)
  {
    if path != [] {
      SplitIsPlain(v.fields[path[0]], path[1..]);
      assert path == [path[0]] + path[1..];
    }
  }

  function SavedFields(saved: map<string, string>): Fields {
    map k | k in saved :: Str(saved[k])
  }

  lemma NamesAreHeld(tree: Fields, secrets: seq<string>, keys: seq<string>, saved: map<string, string>)
    requires PlainRoot(tree) && KeysLead(tree, keys) && (forall k | k in keys :: '[' !in k) && SavedFits(tree, secrets, keys, saved)
    ensures Holds(SavedFields(saved), PathsOf(tree, secrets, keys), tree)
  {
    forall s | s in saved && IsMasked(tree, s) ensures PlainPath(Split(s, '.')) && Dots(Split(s, '.')) == s {
      SplitIsPlain(Struct(tree), Split(s, '.'));
      JoinUndoesSplit(s, '.');
    }
  }

  /** Masking every secret that a request gives, and unmasking with what was saved, restores
      the tree of the application. */
  method SecretsRoundTrip(tree: Fields, secrets: seq<string>, keys: seq<string>) returns (panics: bool, restored: Fields)
    requires PlainRoot(tree) && NoDuplicates(secrets) && KeysLead(tree, keys) && forall k | k in keys :: '[' !in k
    ensures panics <==> exists s :: s in secrets && s in keys && Panics(tree, Split(s, '.'), 0)
    ensures !panics ==> restored == tree
  {
    var masked, saved;
    restored := tree;
    panics, masked, saved := MaskSecrets(tree, secrets, keys);
    if !panics {
      NamesAreHeld(tree, secrets, keys, saved);
      MaskUnmaskRoundTrip(tree, PathsOf(tree, secrets, keys), SavedFields(saved));
      restored := UnmaskSecrets(masked, SavedFields(saved), "");
    }
  }

  /** Without the condition the round trip fails: a secret below an empty key at the top is
      saved under a name that starts with a dot, but looked up without it. */
  lemma SecretBelowEmptyKeyIsLost() returns (tree: Fields, names: set<Path>, previous: Fields)
    ensures PlainTree(Struct(tree)) && Holds(previous, names, tree)
    ensures Unmasked(MaskSet(Struct(tree), names, []).fields, previous, "") != tree
  {
    var path := ["", "a"];
    tree, names := map["" := Struct(map["a" := Str("x")])], {path};
    assert path[..1] == [""] && path[1..] == ["a"] && path == [""] + ["a"];
    assert Dots(path) == ".a" && Dots(["a"]) == "a";
    previous := map[".a" := Str("x")];
    assert Leads(tree[""].fields["a"], path[1..][1..]) && Leads(tree[""], path[1..]);
    KeyPathSkips(["a"]);
    assert !Restored(StringAt(Struct(tree), path), path, names, previous);
    MaskUnmaskRoundTripIff(tree, names, previous);
  }
}
