/** Enumeration of the keys of an override tree. On the way empty strings are removed from
    the tree, and keys with the name of a removed one are dropped from the nested lists. */
module OverrideKeys {
  import Deployments
  import opened Strings
  import opened OverrideValues

  // ---------------------------------------------------------------------------
  // The tree that is left
  // ---------------------------------------------------------------------------

  ghost function Pruned(v: Value, depth: nat): Value
    decreases v
  {
    if v.Struct? && depth <= MAX_DEPTH then
      Struct(map k | k in v.fields && v.fields[k] != Str("") :: Pruned(v.fields[k], depth + 1))
    else v
  }

  ghost predicate Resolves(v: Value, path: Path) {
    path == [] || (v.Struct? && path[0] in v.fields && Resolves(v.fields[path[0]], path[1..]))
  }

  /** No string in a struct nested at most MAX_DEPTH deep is empty afterwards. */
  lemma {:induction false} NoEmptyStringIsLeft(v: Value, depth: nat, path: Path)
    requires path != [] && depth + |path| <= MAX_DEPTH + 1 && Leads(Pruned(v, depth), path)
    ensures StringAt(Pruned(v, depth), path) != ""
  {
    var inner := v.fields[path[0]];
    if |path| == 1 {
      assert path[1..] == [];
    } else {
      NoEmptyStringIsLeft(inner, depth + 1, path[1..]);
    }
  }

  /** Nothing but empty strings is removed. */
  lemma {:induction false} OtherStringsAreKept(v: Value, depth: nat, path: Path)
    requires Leads(v, path) && StringAt(v, path) != ""
    ensures Leads(Pruned(v, depth), path) && StringAt(Pruned(v, depth), path) == StringAt(v, path)
  {
    if path != [] {
      OtherStringsAreKept(v.fields[path[0]], depth + 1, path[1..]);
    }
  }

  ghost function ValueAt(v: Value, path: Path): Deployments.Option<Value> {
    if path == [] then Deployments.Some(v)
    else if v.Struct? && path[0] in v.fields then ValueAt(v.fields[path[0]], path[1..])
    else Deployments.None
  }

  /** Read value by value: what is removed are the empty strings that are at most 21 levels down,
      and nothing else changes. */
  lemma {:induction false} PrunedReads(v: Value, depth: nat, path: Path)
    ensures ValueAt(Pruned(v, depth), path) ==
            match ValueAt(v, path)
            case None => Deployments.None
            case Some(x) =>
              if path != [] && x == Str("") && depth + |path| <= 21 then Deployments.None
              else Deployments.Some(Pruned(x, depth + |path|))
    decreases |path|
  {
    if path != [] && v.Struct? && path[0] in v.fields {
      if v.fields[path[0]] == Str("") {
        assert path[1..] == [] || ValueAt(v.fields[path[0]], path[1..]).None?;
      } else {
        PrunedReads(v.fields[path[0]], depth + 1, path[1..]);
      }
    }
  }

  // ---------------------------------------------------------------------------
  // What the list of keys promises
  // ---------------------------------------------------------------------------

  /** The key of a field, or of something below it that is still in the tree, within the depth
      bound. */
  ghost predicate Stands(fields: Fields, depth: nat, path: Path) {
    && path != [] && depth + |path| <= 21 && path[0] in fields
    && (|path| > 1 ==> Resolves(Pruned(fields[path[0]], depth + 1), path[1..]))
  }

  function Last(path: Path): string
    requires path != []
  {
    path[|path| - 1]
  }

  /** Such a key, and not a nested one with the name of an empty string met before. */
  ghost predicate Kept(fields: Fields, depth: nat, met: seq<string>, path: Path) {
    Stands(fields, depth, path) && (|path| > 1 ==> Last(path) !in met)
  }

  ghost predicate Sound(keys: seq<string>, fields: Fields, depth: nat, met: seq<string>) {
    forall key | key in keys :: exists path :: key == Dots(path) && Kept(fields, depth, met, path)
  }

  /** The names of the empty strings of one level. */
  ghost function EmptiesAt(fields: Fields): set<string> {
    set k | k in fields && fields[k] == Str("")
  }

  /** On some level above the last key of the path, an empty string has the name of that key. */
  ghost predicate Shadowed(fields: Fields, path: Path)
    decreases |path|
  {
    |path| > 1 &&
    (Last(path) in EmptiesAt(fields) ||
     (path[0] in fields && fields[path[0]].Struct? && Shadowed(fields[path[0]].fields, path[1..])))
  }

  /** Every key of the remaining tree is listed, in whatever order the fields are visited, unless
      it is nested and shadowed, here or by the names `above`. */
  ghost predicate Complete(keys: seq<string>, fields: Fields, depth: nat, above: set<string>) {
    forall path | Stands(fields, depth, path) && (|path| > 1 ==> Last(path) !in above && !Shadowed(fields, path)) ::
      Dots(path) in keys
  }

  /** No name in the tree contains the character. */
  ghost predicate TreeWithout(v: Value, c: char)
    decreases v
  {
    v.Struct? ==> forall k | k in v.fields :: c !in k && TreeWithout(v.fields[k], c)
  }

  /** All of it, for a list made after the empty strings `met` and at most those of `above`;
      completeness and uniqueness need names without dots. */
  ghost predicate Listed(keys: seq<string>, fields: Fields, depth: nat, met: seq<string>, above: set<string>) {
    && Sound(keys, fields, depth, met)
    && (TreeWithout(Struct(fields), '.') && (forall t | t in above :: '.' !in t) ==>
          Complete(keys, fields, depth, above) && NoDuplicates(keys))
  }

  // ---------------------------------------------------------------------------
  // The code
  // ---------------------------------------------------------------------------

  function Without(list1: seq<string>, list2: seq<string>): (out: seq<string>)
    ensures forall x :: x in out <==> x in list1 && x !in list2
  {
    if list1 == [] then []
    else
      var rest := Without(list1[..|list1| - 1], list2);
      if list1[|list1| - 1] in list2 then rest else rest + [list1[|list1| - 1]]
  }

  method CleanUpList(list1: seq<string>, list2: seq<string>) returns (out: seq<string>)
    ensures out == Without(list1, list2)
  {
    out := [];
    for i := 0 to |list1|
      invariant out == Without(list1[..i], list2)
    {
      assert list1[..i + 1][..i] == list1[..i];
      var found := false;
      for j := 0 to |list2|
        invariant found <==> list1[i] in list2[..j]
      {
        assert list2[..j + 1] == list2[..j] + [list2[j]];
        if list1[i] == list2[j] {
          found := true;
        }
      }
      assert list2[..|list2|] == list2;
      if !found {
        out := out + [list1[i]];
      }
    }
    assert list1[..|list1|] == list1;
  }

  method Prefixed(k: string, nested: seq<string>) returns (keys: seq<string>)
    ensures keys == seq(|nested|, i requires 0 <= i < |nested| => k + "." + nested[i])
  {
    keys := [];
    for i := 0 to |nested|
      invariant keys == seq(i, j requires 0 <= j < i => k + "." + nested[j])
    {
      keys := keys + [k + "." + nested[i]];
    }
  }

  lemma DotsOfMany(first: string, rest: Path)
    requires rest != []
    ensures Dots([first] + rest) == first + "." + Dots(rest)
    ensures '.' in Dots([first] + rest)
  {
    JoinFromTheFront(first, rest, ".");
    assert Dots([first] + rest)[|first|] == '.';
  }

  /** What cleaning leaves of the keys of a struct is still in the struct. */
  lemma CleanedResolve(sub: Fields, depth: nat, met: seq<string>, nested: seq<string>, empties: seq<string>, nk: string)
    returns (path: Path)
    requires depth <= MAX_DEPTH && Sound(nested, sub, depth, met) && nk in nested && nk !in empties
    requires forall e | e in met :: e in empties
    requires forall k | k in sub && sub[k] == Str("") :: k in empties
    ensures path != [] && depth + |path| <= MAX_DEPTH + 1 && Last(path) !in met
    ensures nk == Dots(path) && Resolves(Pruned(Struct(sub), depth), path)
  {
    path :| nk == Dots(path) && Kept(sub, depth, met, path);
    if |path| == 1 {
      assert path[1..] == [];
    }
  }

  lemma NestedIsSound(k: string, sub: Fields, depth: nat, met: seq<string>, nested: seq<string>, empties: seq<string>)
    requires Sound(nested, sub, depth + 1, met) && forall e | e in met :: e in empties
    requires depth + 1 <= MAX_DEPTH ==> forall x | x in sub && sub[x] == Str("") :: x in empties
    requires depth + 1 > MAX_DEPTH ==> nested == []
    ensures forall nk | nk in Without(nested, empties) ::
              exists path :: k + "." + nk == Dots(path) && Kept(map[k := Struct(sub)], depth, met, path)
  {
    forall nk | nk in Without(nested, empties)
      ensures exists path :: k + "." + nk == Dots(path) && Kept(map[k := Struct(sub)], depth, met, path)
    {
      var p := CleanedResolve(sub, depth + 1, met, nested, empties, nk);
      DotsOfMany(k, p);
      assert ([k] + p)[1..] == p && ([k] + p)[0] == k;
      assert Last([k] + p) == Last(p) && Kept(map[k := Struct(sub)], depth, met, [k] + p);
    }
  }

  lemma NestedIsComplete(k: string, sub: Fields, depth: nat, nested: seq<string>, empties: seq<string>,
                         above: set<string>, path: Path)
    requires Complete(nested, sub, depth + 1, above) && TreeWithout(Struct(sub), '.')
    requires (forall e | e in empties :: e in above + EmptiesAt(sub)) && forall t | t in above :: '.' !in t
    requires Stands(map[k := Struct(sub)], depth, path) && |path| > 1
    requires Last(path) !in above && !Shadowed(map[k := Struct(sub)], path)
    ensures exists nk :: nk in Without(nested, empties) && Dots(path) == k + "." + nk
  {
    var p := path[1..];
    assert path == [k] + p && Last(p) == Last(path);
    DotsOfMany(k, p);
    assert Stands(sub, depth + 1, p) && !Shadowed(sub, p);
    assert Dots(p) in nested;
    if |p| > 1 {
      assert p == [p[0]] + p[1..];
      DotsOfMany(p[0], p[1..]);
      assert forall e | e in EmptiesAt(sub) :: '.' !in e;
    } else {
      var left := Pruned(Struct(sub), depth + 1);
      assert map[k := Struct(sub)][k] == Struct(sub) && Resolves(left, p);
      assert p == [p[0]] && p[0] in left.fields;
    }
    assert Dots(p) in Without(nested, empties);
  }

  ghost function FieldList(k: string, cleaned: seq<string>): seq<string> {
    [k] + seq(|cleaned|, i requires 0 <= i < |cleaned| => k + "." + cleaned[i])
  }

  lemma FieldListAt(k: string, cleaned: seq<string>, i: nat)
    requires i < |cleaned|
    ensures k + "." + cleaned[i] in FieldList(k, cleaned)
  {
    assert FieldList(k, cleaned)[i + 1] == k + "." + cleaned[i];
  }

  lemma FieldIsSound(keys: seq<string>, k: string, sub: Fields, depth: nat, met: seq<string>, nested: seq<string>,
                     empties: seq<string>)
    requires depth <= MAX_DEPTH && keys == FieldList(k, Without(nested, empties))
    requires Sound(nested, sub, depth + 1, met) && forall e | e in met :: e in empties
    requires depth + 1 <= MAX_DEPTH ==> forall x | x in sub && sub[x] == Str("") :: x in empties
    requires depth + 1 > MAX_DEPTH ==> nested == []
    ensures Sound(keys, map[k := Struct(sub)], depth, met)
  {
    NestedIsSound(k, sub, depth, met, nested, empties);
    assert Dots([k]) == k && Kept(map[k := Struct(sub)], depth, met, [k]);
    forall key | key in keys ensures exists path :: key == Dots(path) && Kept(map[k := Struct(sub)], depth, met, path) {
      if key != k {
        var cleaned := Without(nested, empties);
        var i :| 0 <= i < |cleaned| && key == k + "." + cleaned[i];
        assert cleaned[i] in cleaned;
      }
    }
  }

  lemma FieldIsComplete(keys: seq<string>, k: string, sub: Fields, depth: nat, nested: seq<string>, empties: seq<string>,
                        above: set<string>)
    requires keys == FieldList(k, Without(nested, empties))
    requires Complete(nested, sub, depth + 1, above) && TreeWithout(Struct(sub), '.')
    requires (forall e | e in empties :: e in above + EmptiesAt(sub)) && forall t | t in above :: '.' !in t
    ensures Complete(keys, map[k := Struct(sub)], depth, above)
  {
    var fields, cleaned := map[k := Struct(sub)], Without(nested, empties);
    forall path | Stands(fields, depth, path) && (|path| > 1 ==> Last(path) !in above && !Shadowed(fields, path))
      ensures Dots(path) in keys
    {
      if |path| == 1 {
        assert path[0] in fields && path == [k] && keys[0] == k;
      } else {
        NestedIsComplete(k, sub, depth, nested, empties, above, path);
        var nk :| nk in cleaned && Dots(path) == k + "." + nk;
        var i :| 0 <= i < |cleaned| && cleaned[i] == nk;
        FieldListAt(k, cleaned, i);
      }
    }
  }

  lemma {:induction false} WithoutKeepsDistinct(list1: seq<string>, list2: seq<string>)
    requires NoDuplicates(list1)
    ensures NoDuplicates(Without(list1, list2))
  {
    if list1 != [] {
      WithoutKeepsDistinct(list1[..|list1| - 1], list2);
    }
  }

  lemma SamePrefix(k: string, x: string, y: string)
    ensures k + "." + x == k + "." + y ==> x == y
    ensures k + "." + x != k
  {
    assert (k + "." + x)[|k| + 1..] == x && (k + "." + y)[|k| + 1..] == y;
    assert |k + "." + x| > |k|;
  }

  lemma FieldHasNoDuplicates(keys: seq<string>, k: string, nested: seq<string>, empties: seq<string>)
    requires keys == FieldList(k, Without(nested, empties)) && NoDuplicates(nested)
    ensures NoDuplicates(keys)
  {
    var cleaned := Without(nested, empties);
    WithoutKeepsDistinct(nested, empties);
    forall i, j | 0 <= i < j < |keys| ensures keys[i] != keys[j] {
      if i == 0 {
        SamePrefix(k, cleaned[j - 1], "");
      } else {
        SamePrefix(k, cleaned[i - 1], cleaned[j - 1]);
      }
    }
  }

  /** The keys that one field contributes; `above` are the names that may have been met. */
  method FieldKeys(k: string, v: Value, empties: seq<string>, depth: nat, ghost above: set<string>)
    returns (keys: seq<string>, v': Value)
    requires depth <= MAX_DEPTH && v != Str("")
    requires forall e | e in empties :: e in above
    ensures v' == Pruned(v, depth + 1)
    ensures Listed(keys, map[k := v], depth, empties, above)
    decreases v, 3
  {
    keys, v' := [k], v;
    if v.Struct? {
      assert v == Struct(v.fields);
      var nested, nestedEmpties, sub := GetAllKeys(v.fields, empties, depth + 1, above);
      var cleaned := CleanUpList(nested, nestedEmpties);
      var more := Prefixed(k, cleaned);
      keys, v' := keys + more, Struct(sub);
      FieldIsSound(keys, k, v.fields, depth, empties, nested, nestedEmpties);
      if TreeWithout(v, '.') && forall t | t in above :: '.' !in t {
        FieldIsComplete(keys, k, v.fields, depth, nested, nestedEmpties, above);
        FieldHasNoDuplicates(keys, k, nested, nestedEmpties);
      }
      assert map[k := v][k] == v;
    } else {
      LeafKeys(k, v, depth, empties, above);
    }
  }

  lemma OnlyItself(v: Value, depth: nat, path: Path)
    requires !v.Struct? && path != [] && (|path| > 1 ==> Resolves(Pruned(v, depth + 1), path[1..]))
    ensures |path| == 1
  {
  }

  /** A value that is no struct has its own key only, and an empty string keeps its place in the
      list of its level. */
  lemma LeafKeys(k: string, v: Value, depth: nat, met: seq<string>, above: set<string>)
    requires depth <= MAX_DEPTH && !v.Struct?
    ensures Listed([k], map[k := v], depth, met, above)
  {
    assert Dots([k]) == k && Kept(map[k := v], depth, met, [k]);
    forall path | Stands(map[k := v], depth, path) ensures Dots(path) == k {
      OnlyItself(v, depth, path);
      assert path == [path[0]] && path[0] in map[k := v];
    }
  }

  lemma SeenIsSound(keys: seq<string>, more: seq<string>, seen: Fields, k: string, v: Value, depth: nat, met: seq<string>)
    requires k !in seen && Sound(keys, seen, depth, met) && Sound(more, map[k := v], depth, met)
    ensures Sound(keys + more, seen[k := v], depth, met)
  {
    forall key | key in keys + more
      ensures exists path :: key == Dots(path) && Kept(seen[k := v], depth, met, path)
    {
      if key in keys {
        var path :| key == Dots(path) && Kept(seen, depth, met, path);
        assert Kept(seen[k := v], depth, met, path);
      } else {
        var path :| key == Dots(path) && Kept(map[k := v], depth, met, path);
        assert Kept(seen[k := v], depth, met, path);
      }
    }
  }

  lemma SeenIsComplete(keys: seq<string>, more: seq<string>, seen: Fields, k: string, v: Value, depth: nat, above: set<string>)
    requires k !in seen && Complete(keys, seen, depth, above) && Complete(more, map[k := v], depth, above)
    ensures Complete(keys + more, seen[k := v], depth, above)
  {
    var fields := seen[k := v];
    forall path | Stands(fields, depth, path) && (|path| > 1 ==> Last(path) !in above && !Shadowed(fields, path))
      ensures Dots(path) in keys + more
    {
      if path[0] == k {
        assert map[k := v][k] == v && EmptiesAt(map[k := v]) <= EmptiesAt(fields);
        assert Stands(map[k := v], depth, path) && (|path| > 1 ==> !Shadowed(map[k := v], path));
      } else {
        assert EmptiesAt(seen) <= EmptiesAt(fields) && seen[path[0]] == fields[path[0]];
        assert Stands(seen, depth, path) && (|path| > 1 ==> !Shadowed(seen, path));
      }
    }
  }

  lemma {:induction false} ResolvedIsWithout(v: Value, depth: nat, path: Path, c: char)
    requires TreeWithout(v, c) && Resolves(Pruned(v, depth), path)
    ensures AllWithout(path, c)
  {
    if path != [] {
      ResolvedIsWithout(v.fields[path[0]], depth + 1, path[1..], c);
      assert path == [path[0]] + path[1..];
    }
  }

  lemma StandingIsWithout(fields: Fields, depth: nat, path: Path, c: char)
    requires TreeWithout(Struct(fields), c) && Stands(fields, depth, path)
    ensures AllWithout(path, c)
  {
    assert path == [path[0]] + path[1..];
    if |path| > 1 {
      ResolvedIsWithout(fields[path[0]], depth + 1, path[1..], c);
    }
  }

  lemma SeenHasNoDuplicates(keys: seq<string>, more: seq<string>, seen: Fields, k: string, v: Value, depth: nat, met: seq<string>)
    requires k !in seen && Sound(keys, seen, depth, met) && Sound(more, map[k := v], depth, met)
    requires TreeWithout(Struct(seen), '.') && TreeWithout(Struct(map[k := v]), '.')
    requires NoDuplicates(keys) && NoDuplicates(more)
    ensures NoDuplicates(keys + more)
  {
    forall a, b | a in keys && b in more ensures a != b {
      var p :| a == Dots(p) && Kept(seen, depth, met, p);
      var q :| b == Dots(q) && Kept(map[k := v], depth, met, q);
      StandingIsWithout(seen, depth, p, '.');
      StandingIsWithout(map[k := v], depth, q, '.');
      if a == b {
        JoinIsInjective(p, q, '.');
      }
    }
    forall i, j | 0 <= i < j < |keys + more| ensures (keys + more)[i] != (keys + more)[j] {
      if j >= |keys| && i < |keys| {
        assert keys[i] in keys && more[j - |keys|] in more;
      }
    }
  }

  /** The fields dealt with so far, with one more. */
  lemma SeenGrows(keys: seq<string>, more: seq<string>, fields: Fields, todo: set<string>, k: string, depth: nat,
                  met: seq<string>, above: set<string>)
    requires k in todo && todo <= fields.Keys
    requires Listed(keys, fields - todo, depth, met, above) && Listed(more, map[k := fields[k]], depth, met, above)
    ensures Listed(keys + more, fields - (todo - {k}), depth, met, above)
  {
    var seen, v := fields - todo, fields[k];
    SeenStep(fields, todo, k);
    SeenIsSound(keys, more, seen, k, v, depth, met);
    if TreeWithout(Struct(seen[k := v]), '.') && forall t | t in above :: '.' !in t {
      assert forall x | x in seen :: seen[k := v][x] == seen[x];
      assert TreeWithout(Struct(seen), '.') && seen[k := v][k] == v && TreeWithout(Struct(map[k := v]), '.');
      SeenIsComplete(keys, more, seen, k, v, depth, above);
      SeenHasNoDuplicates(keys, more, seen, k, v, depth, met);
    }
  }

  lemma SeenStep(fields: Fields, todo: set<string>, k: string)
    requires k in todo && todo <= fields.Keys
    ensures (fields - todo)[k := fields[k]] == fields - (todo - {k})
  {
  }

  /** The tree with the fields outside `todo` dealt with. */
  ghost function PrunedSome(fields: Fields, todo: set<string>, depth: nat): Fields {
    map k | k in fields && (k in todo || fields[k] != Str("")) ::
      if k in todo then fields[k] else Pruned(fields[k], depth + 1)
  }

  lemma PrunedStep(fields: Fields, todo: set<string>, depth: nat, k: string)
    requires k in todo && k in fields
    ensures PrunedSome(fields, todo - {k}, depth) ==
            if fields[k] == Str("") then PrunedSome(fields, todo, depth) - {k}
            else PrunedSome(fields, todo, depth)[k := Pruned(fields[k], depth + 1)]
  {
  }

  /** What is shadowed on this level need not be among the names above. */
  lemma ListedFromBelow(keys: seq<string>, fields: Fields, depth: nat, met: seq<string>, above: set<string>)
    requires Listed(keys, fields, depth, met, above + EmptiesAt(fields))
    ensures Listed(keys, fields, depth, met, above)
  {
    if TreeWithout(Struct(fields), '.') && forall t | t in above :: '.' !in t {
      assert forall t | t in EmptiesAt(fields) :: '.' !in t;
      assert Complete(keys, fields, depth, above + EmptiesAt(fields));
    }
  }

  lemma ListedForFewer(keys: seq<string>, fields: Fields, depth: nat, met: seq<string>, fewer: seq<string>, above: set<string>)
    requires Listed(keys, fields, depth, met, above) && forall e | e in fewer :: e in met
    ensures Listed(keys, fields, depth, fewer, above)
  {
    forall key | key in keys ensures exists path :: key == Dots(path) && Kept(fields, depth, fewer, path) {
      var path :| key == Dots(path) && Kept(fields, depth, met, path);
      assert Kept(fields, depth, fewer, path);
    }
  }

  /** What one field adds to the keys and the empty strings, and takes from the tree. */
  method VisitField(fields: Fields, ghost todo: set<string>, k: string, empties: seq<string>, before: Fields, depth: nat,
                    ghost met: seq<string>, ghost all: set<string>)
    returns (more: seq<string>, empties': seq<string>, after: Fields)
    requires depth <= MAX_DEPTH && k in todo && k in fields && before == PrunedSome(fields, todo, depth)
    requires (forall e | e in met :: e in empties) && (forall e | e in empties :: e in all)
    ensures Listed(more, map[k := fields[k]], depth, met, all)
    ensures after == PrunedSome(fields, todo - {k}, depth)
    ensures empties' == if fields[k] == Str("") then empties + [k] else empties
    decreases Struct(fields), 0
  {
    empties', after := empties, before;
    PrunedStep(fields, todo, depth, k);
    if fields[k] == Str("") {
      more, empties', after := [k], empties' + [k], after - {k};
      LeafKeys(k, fields[k], depth, met, all);
    } else {
      var v';
      more, v' := FieldKeys(k, fields[k], empties', depth, all);
      after := after[k := v'];
      ListedForFewer(more, map[k := fields[k]], depth, empties, met, all);
    }
  }

  lemma NothingListed(fields: Fields, depth: nat, met: seq<string>, above: set<string>)
    ensures Listed([], fields - fields.Keys, depth, met, above)
    ensures PrunedSome(fields, fields.Keys, depth) == fields
  {
    assert fields - fields.Keys == map[];
  }

  /** The loop over the fields, in any order; `all` are the names of the empty strings of this
      level and above. */
  method VisitFields(fields: Fields, empties: seq<string>, depth: nat, ghost all: set<string>)
    returns (keys: seq<string>, empties': seq<string>, pruned: Fields)
    requires depth <= MAX_DEPTH && (forall e | e in empties :: e in all) && EmptiesAt(fields) <= all
    ensures pruned == PrunedSome(fields, {}, depth)
    ensures (forall e | e in empties' :: e in all) && (forall e | e in empties :: e in empties')
    ensures forall k | k in fields && fields[k] == Str("") :: k in empties'
    ensures Listed(keys, fields, depth, empties, all)
    decreases Struct(fields), 1
  {
    keys, empties', pruned := [], empties, fields;
    var todo := fields.Keys;
    NothingListed(fields, depth, empties, all);
    while todo != {}
      invariant todo <= fields.Keys
      invariant pruned == PrunedSome(fields, todo, depth)
      invariant (forall e | e in empties' :: e in all) && (forall e | e in empties :: e in empties')
      invariant forall k | k in fields && k !in todo && fields[k] == Str("") :: k in empties'
      invariant Listed(keys, fields - todo, depth, empties, all)
      decreases todo
    {
      var k :| k in todo;
      var more;
      more, empties', pruned := VisitField(fields, todo, k, empties', pruned, depth, empties, all);
      SeenGrows(keys, more, fields, todo, k, depth, empties, all);
      keys := keys + more;
      todo := todo - {k};
    }
    assert fields - {} == fields;
  }

  /** getAllPbStructKeys: empty strings that were met earlier, on this level or above, also drop
      names further down. */
  method GetAllKeys(fields: Fields, empties: seq<string>, depth: nat, ghost above: set<string>)
    returns (keys: seq<string>, empties': seq<string>, pruned: Fields)
    requires forall e | e in empties :: e in above
    ensures Struct(pruned) == Pruned(Struct(fields), depth)
    ensures forall e | e in empties' :: e in above + EmptiesAt(fields)
    ensures forall e | e in empties :: e in empties'
    ensures depth <= MAX_DEPTH ==> forall k | k in fields && fields[k] == Str("") :: k in empties'
    ensures Listed(keys, fields, depth, empties, above)
    ensures depth > MAX_DEPTH ==> keys == []
    decreases Struct(fields), 2
  {
    if depth > MAX_DEPTH {
      return [], empties, fields;
    }
    keys, empties', pruned := VisitFields(fields, empties, depth, above + EmptiesAt(fields));
    ListedFromBelow(keys, fields, depth, empties, above);
  }

  /** In a tree without dots in its keys, a listed key of two or more segments still leads
      to a value in the tree that is left. */
  lemma NestedKeysResolve(fields: Fields, keys: seq<string>, met: seq<string>, above: set<string>, key: string)
    requires TreeWithout(Struct(fields), '.') && Listed(keys, fields, 0, met, above)
    requires key in keys && |Split(key, '.')| > 1
    ensures Resolves(Pruned(Struct(fields), 0), Split(key, '.'))
  {
    var path :| key == Dots(path) && Kept(fields, 0, met, path);
    StandingIsWithout(fields, 0, path, '.');
    SplitUndoesJoin(path, '.');
    assert fields[path[0]].Struct?;
  }

  /** The parts together, for the tree of one application in a request. */
  method EnumerateKeys(fields: Fields) returns (keys: seq<string>, pruned: Fields)
    ensures Struct(pruned) == Pruned(Struct(fields), 0)
    ensures Listed(keys, fields, 0, [], {})
  {
    var empties;
    keys, empties, pruned := GetAllKeys(fields, [], 0, {});
  }

  // ---------------------------------------------------------------------------
  // From the request to the stored values and back
  // ---------------------------------------------------------------------------

  lemma {:induction false} PlainIsWithout(v: Value)
    requires PlainTree(v)
    ensures TreeWithout(v, '.') && TreeWithout(v, '[')
    decreases v
  {
    if v.Struct? {
      forall k | k in v.fields ensures TreeWithout(v.fields[k], '.') && TreeWithout(v.fields[k], '[') {
        PlainIsWithout(v.fields[k]);
      }
    }
  }

  lemma {:induction false} PrunedIsPlain(v: Value, depth: nat)
    requires PlainTree(v)
    ensures PlainTree(Pruned(v, depth))
    decreases v
  {
    if v.Struct? && depth <= MAX_DEPTH {
      forall k | k in v.fields ensures PlainTree(Pruned(v.fields[k], depth + 1)) {
        PrunedIsPlain(v.fields[k], depth + 1);
      }
    }
  }

  lemma {:induction false} ResolvedDoesNotOvershoot(v: Value, path: Path)
    requires Resolves(v, path)
    ensures !Overshoots(v, path)
  {
    if path != [] {
      ResolvedDoesNotOvershoot(v.fields[path[0]], path[1..]);
    }
  }

  lemma StandingDoesNotOvershoot(fields: Fields, path: Path)
    requires Stands(fields, 0, path)
    ensures !Overshoots(Pruned(Struct(fields), 0), path)
  {
    var left := Pruned(Struct(fields), 0);
    if path[0] in left.fields {
      assert left.fields[path[0]] == Pruned(fields[path[0]], 1);
      if |path| > 1 {
        ResolvedDoesNotOvershoot(left.fields[path[0]], path[1..]);
      }
    }
  }

  /** The list meets what masking asks of it. */
  lemma ListedKeysLead(fields: Fields, pruned: Fields, keys: seq<string>)
    requires PlainTree(Struct(fields)) && Struct(pruned) == Pruned(Struct(fields), 0) && Listed(keys, fields, 0, [], {})
    ensures KeysLead(pruned, keys) && forall k | k in keys :: '[' !in k
  {
    PlainIsWithout(Struct(fields));
    forall k | k in keys
      ensures '[' !in k && !Overshoots(Struct(pruned), Split(k, '.')) && |Split(k, '.')| <= MAX_DEPTH + 1
    {
      var path :| k == Dots(path) && Kept(fields, 0, [], path);
      StandingIsWithout(fields, 0, path, '.');
      StandingIsWithout(fields, 0, path, '[');
      SplitUndoesJoin(path, '.');
      JoinWithout(path, '.', '[');
      StandingDoesNotOvershoot(fields, path);
    }
  }

  /** For the values of one application: its keys are enumerated, its secrets masked, and the
      stored tree is unmasked later with what was saved. Whatever the secret parameters of the
      application are, this gives the tree without its empty strings, unless one of them is
      the key of a struct with fields. */
  method RequestRoundTrip(fields: Fields, secrets: seq<string>)
    returns (panics: bool, keys: seq<string>, pruned: Fields, restored: Fields)
    requires PlainRoot(fields) && NoDuplicates(secrets)
    ensures Struct(pruned) == Pruned(Struct(fields), 0) && Listed(keys, fields, 0, [], {})
    ensures panics <==> exists s :: s in secrets && s in keys && Panics(pruned, Split(s, '.'), 0)
    ensures !panics ==> restored == pruned
  {
    keys, pruned := EnumerateKeys(fields);
    ListedKeysLead(fields, pruned, keys);
    PrunedIsPlain(Struct(fields), 0);
    panics, restored := SecretsRoundTrip(pruned, secrets, keys);
  }
}
