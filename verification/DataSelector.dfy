/** Filter, sort and paginate: what the list calls of the API do with the items they found. */
module DataSelector {
  import opened Deployments

  // ---------------------------------------------------------------------------
  // Values and their order
  // ---------------------------------------------------------------------------

  datatype Value = IntValue(n: int) | StringValue(s: string)

  function LowerChar(c: char): char {
    if 'A' <= c <= 'Z' then (c as int + 32) as char else c
  }

  function Lower(s: string): string {
    seq(|s|, i requires 0 <= i < |s| => LowerChar(s[i]))
  }

  function CompareInts(a: int, b: int): int {
    if a > b then 1 else if a == b then 0 else -1
  }

  function CompareStrings(a: string, b: string): int {
    if a == [] && b == [] then 0
    else if a == [] then -1
    else if b == [] then 1
    else if a[0] != b[0] then CompareInts(a[0] as int, b[0] as int)
    else CompareStrings(a[1..], b[1..])
  }

  predicate SameKind(a: Option<Value>, b: Option<Value>) {
    match (a, b)
    case (None, None) => true
    case (Some(x), Some(y)) => x.IntValue? == y.IntValue?
    case _ => false
  }

  const INCOMPARABLE := 2

  /** -1, 0 or 1; the comparison of different kinds panics, which Comparable excludes. */
  function Compare(a: Value, b: Value): int {
    match (a, b)
    case (IntValue(n), IntValue(m)) => CompareInts(n, m)
    case (StringValue(s), StringValue(t)) => CompareStrings(Lower(s), Lower(t))
    case _ => INCOMPARABLE
  }

  lemma {:induction false} StringOrder(a: string, b: string, c: string)
    ensures CompareStrings(a, b) == -CompareStrings(b, a) && CompareStrings(a, b) in {-1, 0, 1}
    ensures CompareStrings(a, b) <= 0 && CompareStrings(b, c) <= 0 ==>
              CompareStrings(a, c) == if CompareStrings(a, b) == 0 && CompareStrings(b, c) == 0 then 0 else -1
  {
    if a != [] && b != [] {
      StringOrder(a[1..], b[1..], if c == [] then [] else c[1..]);
    }
  }

  /** The first place where one string goes on or they differ. */
  ghost predicate ComesFirst(a: string, b: string, i: nat) {
    i <= |a| && i < |b| && a[..i] == b[..i] && (i < |a| ==> a[i] < b[i])
  }

  lemma AgreeBefore(a: string, b: string, i: nat)
    requires ComesFirst(a, b, i)
    ensures forall j | 0 <= j < i :: a[j] == b[j]
  {
    assert forall j | 0 <= j < i :: a[..i][j] == b[..i][j];
  }

  /** Strings are in the order of their characters, and a prefix comes first. */
  lemma {:induction false} StringsAreInCharacterOrder(a: string, b: string)
    ensures CompareStrings(a, b) == -1 <==> exists i: nat :: ComesFirst(a, b, i)
    ensures CompareStrings(a, b) == 0 <==> a == b
    ensures CompareStrings(a, b) == 1 <==> exists i: nat :: ComesFirst(b, a, i)
  {
    if a == [] || b == [] || a[0] != b[0] {
      StringOrder(a, b, []);
      if a != b {
        if CompareStrings(a, b) == -1 {
          assert ComesFirst(a, b, 0);
        } else {
          assert ComesFirst(b, a, 0);
        }
      }
      forall i: nat | ComesFirst(a, b, i) ensures i == 0 {
        AgreeBefore(a, b, i);
      }
      forall i: nat | ComesFirst(b, a, i) ensures i == 0 {
        AgreeBefore(b, a, i);
      }
    } else {
      StringsAreInCharacterOrder(a[1..], b[1..]);
      StepAside(a, b);
      StepAside(b, a);
    }
  }

  lemma StepAside(a: string, b: string)
    requires a != [] && b != [] && a[0] == b[0]
    ensures (exists i: nat :: ComesFirst(a, b, i)) <==> exists i: nat :: ComesFirst(a[1..], b[1..], i)
  {
    if i: nat :| ComesFirst(a, b, i) {
      assert i > 0;
      assert a[1..][..i - 1] == a[..i][1..] && b[1..][..i - 1] == b[..i][1..];
      assert ComesFirst(a[1..], b[1..], i - 1);
    }
    if i: nat :| ComesFirst(a[1..], b[1..], i) {
      assert a[..i + 1] == [a[0]] + a[1..][..i] && b[..i + 1] == [b[0]] + b[1..][..i];
      assert ComesFirst(a, b, i + 1);
    }
  }

  /** `b` is the small letter for the capital `a`. */
  predicate IsSmallFor(b: char, a: char) {
    'A' <= a <= 'Z' && b as int - 'a' as int == a as int - 'A' as int
  }

  predicate SameLetter(a: char, b: char) {
    a == b || IsSmallFor(a, b) || IsSmallFor(b, a)
  }

  lemma LoweredIff(a: char, b: char)
    ensures LowerChar(a) == LowerChar(b) <==> SameLetter(a, b)
  {
  }

  lemma SameUpToCase(s: string, t: string)
    ensures Lower(s) == Lower(t) <==> |s| == |t| && forall i | 0 <= i < |s| :: SameLetter(s[i], t[i])
  {
    if Lower(s) == Lower(t) {
      assert |Lower(s)| == |Lower(t)|;
      forall i | 0 <= i < |s| ensures SameLetter(s[i], t[i]) {
        assert Lower(s)[i] == Lower(t)[i];
        LoweredIff(s[i], t[i]);
      }
    }
    if |s| == |t| && forall i | 0 <= i < |s| :: SameLetter(s[i], t[i]) {
      forall i | 0 <= i < |s| ensures Lower(s)[i] == Lower(t)[i] {
        LoweredIff(s[i], t[i]);
      }
    }
  }

  /** Strings that differ in the case of letters only are on a par, and no others. */
  lemma CaseIsIgnored(s: string, t: string)
    ensures Compare(StringValue(s), StringValue(t)) == 0 <==>
              |s| == |t| && forall i | 0 <= i < |s| :: SameLetter(s[i], t[i])
  {
    StringsAreInCharacterOrder(Lower(s), Lower(t));
    SameUpToCase(s, t);
  }

  /** Compare is a total preorder on the values of one kind. */
  lemma ValueOrder(a: Value, b: Value, c: Value)
    requires SameKind(Some(a), Some(b)) && SameKind(Some(b), Some(c))
    ensures Compare(a, b) == -Compare(b, a) && Compare(a, b) in {-1, 0, 1}
    ensures Compare(a, b) <= 0 && Compare(b, c) <= 0 ==>
              Compare(a, c) == if Compare(a, b) == 0 && Compare(b, c) == 0 then 0 else -1
  {
    if a.StringValue? {
      StringOrder(Lower(a.s), Lower(b.s), Lower(c.s));
    }
  }

  // ---------------------------------------------------------------------------
  // Items and their order
  // ---------------------------------------------------------------------------

  datatype Item = Item(id: int, fields: map<string, Value>)

  function GetField(item: Item, field: string): Option<Value> {
    if field in item.fields then Some(item.fields[field]) else None
  }

  datatype OrderBy = OrderBy(field: string, ascending: bool)

  /** Each ordered field is of one kind in all the items, or in none of them. */
  ghost predicate Uniform(items: set<Item>, order: seq<OrderBy>) {
    forall o, a, b | o in order && a in items && b in items :: SameKind(GetField(a, o.field), GetField(b, o.field))
  }

  /** Comparing the items does not panic. */
  ghost predicate Comparable(items: set<Item>, order: seq<OrderBy>) {
    forall o, a, b | o in order && a in items && b in items && GetField(a, o.field).Some? && GetField(b, o.field).Some? ::
      SameKind(GetField(a, o.field), GetField(b, o.field))
  }

  function Less(a: Item, b: Item, order: seq<OrderBy>): bool {
    if order == [] then false
    else
      match (GetField(a, order[0].field), GetField(b, order[0].field))
      case (Some(x), Some(y)) =>
        var cmp := Compare(x, y);
        if cmp != 0 then (cmp == -1 && order[0].ascending) || (cmp == 1 && !order[0].ascending)
        else Less(a, b, order[1..])
      case _ => false
  }

  /** The two items are on a par in the first `n` fields, which both of them have. */
  ghost predicate TiedBefore(a: Item, b: Item, order: seq<OrderBy>, n: nat) {
    n <= |order| && forall j: nat | j < n ::
      var x, y := GetField(a, order[j].field), GetField(b, order[j].field);
      x.Some? && y.Some? && Compare(x.value, y.value) == 0
  }

  /** Field number `n` is the first in which they differ, and `a` is the smaller one if the field
      is ascending, the greater one if it is not. */
  ghost predicate DecidedAt(a: Item, b: Item, order: seq<OrderBy>, n: nat) {
    && n < |order| && TiedBefore(a, b, order, n)
    && var x, y := GetField(a, order[n].field), GetField(b, order[n].field);
       x.Some? && y.Some? && Compare(x.value, y.value) == if order[n].ascending then -1 else 1
  }

  lemma {:induction false} LessIff(a: Item, b: Item, order: seq<OrderBy>)
    ensures Less(a, b, order) <==> exists n: nat :: DecidedAt(a, b, order, n)
  {
    if order != [] {
      LessIff(a, b, order[1..]);
      var x, y := GetField(a, order[0].field), GetField(b, order[0].field);
      if x.Some? && y.Some? && Compare(x.value, y.value) == 0 {
        if n: nat :| DecidedAt(a, b, order[1..], n) {
          assert TiedBefore(a, b, order, n + 1) by {
            forall j: nat | 0 < j < n + 1 ensures order[j] == order[1..][j - 1] {
            }
          }
          assert DecidedAt(a, b, order, n + 1);
        }
        if n: nat :| DecidedAt(a, b, order, n) {
          assert n > 0 && order[n] == order[1..][n - 1];
          assert forall j: nat | j < n - 1 :: order[1..][j] == order[j + 1];
          assert DecidedAt(a, b, order[1..], n - 1);
        }
      } else if Less(a, b, order) {
        assert DecidedAt(a, b, order, 0);
      }
    }
  }

  /** On uniform items Less is a strict weak order. */
  lemma {:induction false} LessIsAStrictWeakOrder(a: Item, b: Item, c: Item, order: seq<OrderBy>)
    requires Uniform({a, b, c}, order)
    ensures !Less(a, a, order)
    ensures !(Less(a, b, order) && Less(b, a, order))
    ensures Less(a, b, order) && Less(b, c, order) ==> Less(a, c, order)
    ensures !Less(a, b, order) && !Less(b, c, order) ==> !Less(a, c, order)
  {
    if order != [] {
      assert order[0] in order && forall o | o in order[1..] :: o in order;
      LessIsAStrictWeakOrder(a, b, c, order[1..]);
      match (GetField(a, order[0].field), GetField(b, order[0].field), GetField(c, order[0].field)) {
        case (Some(x), Some(y), Some(z)) =>
          ValueOrder(x, x, x);
          ValueOrder(x, y, z);
          ValueOrder(y, z, x);
          ValueOrder(z, y, x);
          ValueOrder(x, z, y);
        case _ =>
      }
    }
  }

  ghost predicate IsStrictWeakOrder(items: set<Item>, order: seq<OrderBy>) {
    forall a, b, c | a in items && b in items && c in items ::
      && !(Less(a, b, order) && Less(b, a, order))
      && (Less(a, b, order) && Less(b, c, order) ==> Less(a, c, order))
      && (!Less(a, b, order) && !Less(b, c, order) ==> !Less(a, c, order))
  }

  predicate HasField(item: Item, o: OrderBy) {
    GetField(item, o.field).Some?
  }

  /** Items on a par in the field. */
  predicate OnPar(a: Item, b: Item, o: OrderBy) {
    HasField(a, o) && HasField(b, o) && Compare(GetField(a, o.field).value, GetField(b, o.field).value) == 0
  }

  ghost function ClassOf(items: set<Item>, a: Item, o: OrderBy): set<Item> {
    set b | b in items && OnPar(a, b, o)
  }

  /** At each field, all the items that are on a par so far have it, or no two of them are
      Less. */
  ghost predicate Orderable(items: set<Item>, order: seq<OrderBy>)
    decreases |order|
  {
    order == [] ||
    if forall a | a in items :: HasField(a, order[0]) then
      forall a | a in items :: Orderable(ClassOf(items, a, order[0]), order[1..])
    else forall a, b | a in items && b in items :: !Less(a, b, order)
  }

  lemma ClassIsComparable(items: set<Item>, a: Item, order: seq<OrderBy>)
    requires order != [] && Comparable(items, order)
    ensures Comparable(ClassOf(items, a, order[0]), order[1..])
  {
    assert forall o | o in order[1..] :: o in order;
  }

  lemma LessInClass(items: set<Item>, a: Item, b: Item, c: Item, order: seq<OrderBy>)
    requires order != [] && Comparable(items, order) && a in items
    requires b in ClassOf(items, a, order[0]) && c in ClassOf(items, a, order[0])
    ensures Less(b, c, order) == Less(b, c, order[1..])
  {
    var o := order[0];
    assert o in order;
    ValueOrder(GetField(b, o.field).value, GetField(a, o.field).value, GetField(c, o.field).value);
    ValueOrder(GetField(c, o.field).value, GetField(a, o.field).value, GetField(b, o.field).value);
    ValueOrder(GetField(a, o.field).value, GetField(b, o.field).value, GetField(c, o.field).value);
  }

  lemma OrderedClassesMakeAnOrder(items: set<Item>, a: Item, b: Item, c: Item, order: seq<OrderBy>)
    requires order != [] && Comparable(items, order) && a in items && b in items && c in items
    requires forall x | x in items :: HasField(x, order[0])
    requires IsStrictWeakOrder(ClassOf(items, a, order[0]), order[1..])
    requires IsStrictWeakOrder(ClassOf(items, b, order[0]), order[1..])
    ensures !(Less(a, b, order) && Less(b, a, order))
    ensures Less(a, b, order) && Less(b, c, order) ==> Less(a, c, order)
    ensures !Less(a, b, order) && !Less(b, c, order) ==> !Less(a, c, order)
  {
    var o, rest := order[0], order[1..];
    assert o in order;
    var x, y, z := GetField(a, o.field).value, GetField(b, o.field).value, GetField(c, o.field).value;
    assert SameKind(Some(x), Some(y)) && SameKind(Some(y), Some(z)) && SameKind(Some(x), Some(z));
    ValueOrder(x, y, z);
    ValueOrder(y, z, x);
    ValueOrder(z, y, x);
    ValueOrder(x, z, y);
    ValueOrder(x, x, x);
    ValueOrder(y, y, y);
    var onPar := ClassOf(items, a, o);
    if Compare(x, y) == 0 {
      assert a in onPar && b in onPar;
      if Compare(y, z) == 0 {
        assert c in onPar;
      }
    }
  }

  /** Less is a strict weak order on a set of items exactly if they are orderable. */
  lemma {:induction false} StrictWeakOrderIff(items: set<Item>, order: seq<OrderBy>)
    requires Comparable(items, order)
    ensures IsStrictWeakOrder(items, order) <==> Orderable(items, order)
    decreases |order|
  {
    if order != [] {
      if forall a | a in items :: HasField(a, order[0]) {
        forall a | a in items
          ensures IsStrictWeakOrder(ClassOf(items, a, order[0]), order[1..]) <==> Orderable(ClassOf(items, a, order[0]), order[1..])
        {
          ClassIsComparable(items, a, order);
          StrictWeakOrderIff(ClassOf(items, a, order[0]), order[1..]);
        }
        ClassesDecide(items, order);
      } else {
        var m :| m in items && !HasField(m, order[0]);
        assert forall a | a in items :: !Less(a, m, order) && !Less(m, a, order);
      }
    }
  }

  lemma ClassesDecide(items: set<Item>, order: seq<OrderBy>)
    requires order != [] && Comparable(items, order) && forall a | a in items :: HasField(a, order[0])
    ensures IsStrictWeakOrder(items, order) <==>
            forall a | a in items :: IsStrictWeakOrder(ClassOf(items, a, order[0]), order[1..])
  {
    if forall a | a in items :: IsStrictWeakOrder(ClassOf(items, a, order[0]), order[1..]) {
      forall a, b, c | a in items && b in items && c in items
        ensures !(Less(a, b, order) && Less(b, a, order))
        ensures Less(a, b, order) && Less(b, c, order) ==> Less(a, c, order)
        ensures !Less(a, b, order) && !Less(b, c, order) ==> !Less(a, c, order)
      {
        OrderedClassesMakeAnOrder(items, a, b, c, order);
      }
    }
    forall x, b, c | x in items && b in ClassOf(items, x, order[0]) && c in ClassOf(items, x, order[0])
      ensures Less(b, c, order) == Less(b, c, order[1..])
    {
      LessInClass(items, x, b, c, order);
    }
  }

  /** One that is not: the item without the field is on a par with every other one, and between
      two that are not. */
  lemma MissingFieldBreaksTheOrder() returns (a: Item, b: Item, c: Item, order: seq<OrderBy>)
    ensures Comparable({a, b, c}, order) && !Orderable({a, b, c}, order)
    ensures !Less(a, b, order) && !Less(b, c, order) && Less(a, c, order)
  {
    a, b, c := Item(0, map["f" := IntValue(0)]), Item(1, map[]), Item(2, map["f" := IntValue(1)]);
    order := [OrderBy("f", true)];
    assert GetField(a, "f") == Some(IntValue(0)) && GetField(b, "f") == None && GetField(c, "f") == Some(IntValue(1));
    assert Less(a, c, order) && !HasField(b, order[0]);
  }

  // ---------------------------------------------------------------------------
  // Filtering
  // ---------------------------------------------------------------------------

  datatype FilterBy = FilterBy(field: string, value: Value)

  /** A clause with a `*` is matched as a pattern, which `wildcard` stands for. */
  function Contains(v: Value, w: Value, wildcard: (string, string) -> bool): bool
    requires v.IntValue? ==> w.IntValue?
  {
    match v
    case IntValue(n) => n == w.n
    case StringValue(s) =>
      w.StringValue? &&
      if '*' in Lower(w.s) then wildcard(Lower(s), Lower(w.s))
      else exists i | 0 <= i <= |s| :: Lower(w.s) <= Lower(s)[i..]
  }

  /** A clause without a `*` looks for its text anywhere in the field, whatever the case; one with
      a `*` is a pattern for the whole field. */
  lemma ContainsIff(s: string, w: string, wildcard: (string, string) -> bool)
    ensures '*' in Lower(w) <==> '*' in w
    ensures Contains(StringValue(s), StringValue(w), wildcard) <==>
              if '*' in w then wildcard(Lower(s), Lower(w))
              else exists i: nat :: MatchesAt(s, w, i)
  {
    if i :| 0 <= i < |w| && w[i] == '*' {
      assert Lower(w)[i] == '*';
    }
    if i :| 0 <= i < |w| && Lower(w)[i] == '*' {
      assert w[i] == '*';
    }
    forall i | 0 <= i <= |s| ensures Lower(w) <= Lower(s)[i..] <==> MatchesAt(s, w, i) {
      PrefixUpToCase(s[i..], w);
      assert Lower(s)[i..] == Lower(s[i..]);
    }
    if i :| 0 <= i <= |s| && Lower(w) <= Lower(s)[i..] {
      assert MatchesAt(s, w, i);
    }
  }

  ghost predicate MatchesAt(s: string, w: string, i: nat) {
    i <= |s| && |w| <= |s| - i && forall j | 0 <= j < |w| :: SameLetter(s[i..][j], w[j])
  }

  lemma PrefixUpToCase(s: string, w: string)
    ensures Lower(w) <= Lower(s) <==> |w| <= |s| && forall j | 0 <= j < |w| :: SameLetter(s[j], w[j])
  {
    if |w| <= |s| {
      SameUpToCase(s[..|w|], w);
      assert Lower(s)[..|w|] == Lower(s[..|w|]);
      assert Lower(w) <= Lower(s) <==> Lower(s)[..|w|] == Lower(w);
    } else {
      assert |Lower(w)| > |Lower(s)|;
    }
  }

  /** A number is only ever looked for by a number; anything else panics. */
  ghost predicate Filterable(c: Item, clauses: seq<FilterBy>) {
    forall f | f in clauses && GetField(c, f.field).Some? && GetField(c, f.field).value.IntValue? :: f.value.IntValue?
  }

  ghost predicate AllFilterable(items: seq<Item>, clauses: seq<FilterBy>) {
    forall c | c in items :: Filterable(c, clauses)
  }

  /** Some clause, not every clause, holds of the item. */
  ghost predicate Matches(c: Item, clauses: seq<FilterBy>, wildcard: (string, string) -> bool)
    requires Filterable(c, clauses)
  {
    exists f :: f in clauses && GetField(c, f.field).Some? && Contains(GetField(c, f.field).value, f.value, wildcard)
  }

  ghost function Filtered(items: seq<Item>, clauses: seq<FilterBy>, wildcard: (string, string) -> bool): seq<Item>
    requires AllFilterable(items, clauses)
  {
    if clauses == [] || items == [] then items
    else
      var last := items[|items| - 1];
      Filtered(items[..|items| - 1], clauses, wildcard) + if Matches(last, clauses, wildcard) then [last] else []
  }

  /** Filtering keeps exactly the items that some clause matches, as often as they occur. */
  lemma {:induction false} FilteredAre(items: seq<Item>, clauses: seq<FilterBy>, wildcard: (string, string) -> bool, c: Item)
    requires AllFilterable(items, clauses) && Filterable(c, clauses)
    ensures multiset(Filtered(items, clauses, wildcard))[c] ==
            if clauses == [] || Matches(c, clauses, wildcard) then multiset(items)[c] else 0
  {
    if clauses != [] && items != [] {
      var rest, last := items[..|items| - 1], items[|items| - 1];
      FilteredAre(rest, clauses, wildcard, c);
      assert items == rest + [last];
    }
  }

  // ---------------------------------------------------------------------------
  // Sorting
  // ---------------------------------------------------------------------------

  ghost predicate Ordered(items: seq<Item>, order: seq<OrderBy>) {
    forall i, j | 0 <= i < j < |items| :: !Less(items[j], items[i], order)
  }

  /** Where an item behind an ordered sequence goes when it is swapped down. */
  ghost function Insert(items: seq<Item>, x: Item, order: seq<OrderBy>): seq<Item> {
    if items == [] then [x]
    else
      var rest, last := items[..|items| - 1], items[|items| - 1];
      if !Less(x, last, order) then items + [x] else Insert(rest, x, order) + [last]
  }

  ghost function Sorted(items: seq<Item>, order: seq<OrderBy>): seq<Item> {
    if items == [] then []
    else Insert(Sorted(items[..|items| - 1], order), items[|items| - 1], order)
  }

  lemma {:induction false} InsertPermutes(items: seq<Item>, x: Item, order: seq<OrderBy>)
    ensures multiset(Insert(items, x, order)) == multiset(items) + multiset{x}
  {
    if items != [] {
      var rest, last := items[..|items| - 1], items[|items| - 1];
      assert items == rest + [last];
      InsertPermutes(rest, x, order);
    }
  }

  lemma {:induction false} SortedPermutes(items: seq<Item>, order: seq<OrderBy>)
    ensures multiset(Sorted(items, order)) == multiset(items)
  {
    if items != [] {
      var rest, last := items[..|items| - 1], items[|items| - 1];
      assert items == rest + [last];
      SortedPermutes(rest, order);
      InsertPermutes(Sorted(rest, order), last, order);
    }
  }

  lemma {:induction false} InsertKeepsOrder(all: set<Item>, items: seq<Item>, x: Item, order: seq<OrderBy>)
    requires IsStrictWeakOrder(all, order) && x in all && (forall i | 0 <= i < |items| :: items[i] in all)
    requires Ordered(items, order)
    ensures Ordered(Insert(items, x, order), order)
  {
    if items != [] {
      var rest, last := items[..|items| - 1], items[|items| - 1];
      if !Less(x, last, order) {
        assert forall i | 0 <= i < |items| :: !Less(x, items[i], order);
      } else {
        InsertKeepsOrder(all, rest, x, order);
        var shorter := Insert(rest, x, order);
        forall i | 0 <= i < |shorter| ensures !Less(last, shorter[i], order) {
          InsertedIs(rest, x, order, i);
        }
      }
    }
  }

  /** Every item of the result is the new one or an old one. */
  lemma InsertedIs(items: seq<Item>, x: Item, order: seq<OrderBy>, i: nat)
    requires i < |Insert(items, x, order)|
    ensures var a := Insert(items, x, order)[i];
            a == x || exists j :: 0 <= j < |items| && items[j] == a
  {
    InsertPermutes(items, x, order);
    assert Insert(items, x, order)[i] in multiset(Insert(items, x, order));
  }

  /** Where Less is a strict weak order the result is an ordered permutation. */
  lemma {:induction false} SortedIsOrdered(all: set<Item>, items: seq<Item>, order: seq<OrderBy>)
    requires IsStrictWeakOrder(all, order) && forall i | 0 <= i < |items| :: items[i] in all
    ensures Ordered(Sorted(items, order), order) && multiset(Sorted(items, order)) == multiset(items)
  {
    SortedPermutes(items, order);
    if items != [] {
      var rest, last := items[..|items| - 1], items[|items| - 1];
      SortedIsOrdered(all, rest, order);
      forall i | 0 <= i < |Sorted(rest, order)| ensures Sorted(rest, order)[i] in all {
        assert Sorted(rest, order)[i] in multiset(rest);
      }
      InsertKeepsOrder(all, Sorted(rest, order), last, order);
    }
  }

  // ---------------------------------------------------------------------------
  // Pagination
  // ---------------------------------------------------------------------------

  const DEFAULT_PAGE_SIZE := 20
  const MAX_PAGE_SIZE := 500
  const MAX_INT64 := 0x7FFF_FFFF_FFFF_FFFF

  type Int64 = x: int | -MAX_INT64 - 1 <= x <= MAX_INT64

  function Wrapped64(x: int): Int64 {
    (x + MAX_INT64 + 1) % (2 * (MAX_INT64 + 1)) - MAX_INT64 - 1
  }

  predicate IsValidPagination(size: int, offset: int) {
    0 <= size <= MAX_PAGE_SIZE && offset >= 0
  }

  function EndIndex(count: Int64, size: Int64, offset: Int64): Int64 {
    var end := Wrapped64(offset + size);
    var end := if end < 0 then offset else end;
    if end > count then count else end
  }

  predicate IsPageAvailable(count: int, start: int, size: int) {
    count > start && size > 0
  }

  /** The items of a page, by their positions. */
  ghost function Page(items: seq<Item>, size: int, offset: nat): seq<Item> {
    if size > 0 && offset < |items| then items[offset..if offset + size <= |items| then offset + size else |items|] else []
  }

  /** A page has the items from the offset on, as many as fit or are left. */
  lemma PageIs(items: seq<Item>, size: nat, offset: nat)
    ensures |Page(items, size, offset)| == if offset >= |items| then 0 else if |items| - offset < size then |items| - offset else size
    ensures forall i | 0 <= i < |Page(items, size, offset)| :: Page(items, size, offset)[i] == items[offset + i]
  {
  }

  /** No offset and size make the slice go out of range; a sum that overflows gives no items. */
  lemma SliceIsInRange(count: Int64, size: Int64, offset: Int64)
    requires offset >= 0 && IsPageAvailable(count, offset, size)
    ensures offset <= EndIndex(count, size, offset) <= count
    ensures EndIndex(count, size, offset) ==
            if offset + size > MAX_INT64 then offset else if offset + size <= count then offset + size else count
  {
    if offset + size > MAX_INT64 {
      assert Wrapped64(offset + size) == offset + size - 2 * (MAX_INT64 + 1);
    } else {
      assert Wrapped64(offset + size) == offset + size;
    }
  }

  // ---------------------------------------------------------------------------
  // The selector
  // ---------------------------------------------------------------------------

  datatype Query = Query(order: seq<OrderBy>, clauses: seq<FilterBy>, wildcard: (string, string) -> bool)

  ghost function Members(items: seq<Item>): set<Item> {
    set a | a in items
  }

  /** An item on its way down: what was above it keeps its order. */
  lemma SwapDown(before: seq<Item>, x: Item, i: nat, j: nat)
    requires 0 < j <= i < |before|
    ensures var items := before[..j] + [x] + before[j..i] + before[i + 1..];
            items[j := items[j - 1]][j - 1 := x] == before[..j - 1] + [x] + before[j - 1..i] + before[i + 1..]
  {
  }

  lemma InsertDown(before: seq<Item>, x: Item, i: nat, j: nat, order: seq<OrderBy>)
    requires 0 < j <= i < |before| && Less(x, before[j - 1], order)
    ensures Insert(before[..j], x, order) + before[j..i] == Insert(before[..j - 1], x, order) + before[j - 1..i]
  {
    assert before[..j][..j - 1] == before[..j - 1];
    var above := Insert(before[..j - 1], x, order);
    assert above + [before[j - 1]] + before[j..i] == above + before[j - 1..i];
  }

  lemma InsertStops(items: seq<Item>, x: Item, order: seq<OrderBy>)
    requires items == [] || !Less(x, items[|items| - 1], order)
    ensures Insert(items, x, order) == items + [x]
  {
  }

  class Selector {
    var items: seq<Item>
    const query: Query
    const size: Int64
    const offset: Int64

    constructor (items: seq<Item>, query: Query, size: Int64, offset: Int64)
      ensures this.items == items && this.query == query && this.size == size && this.offset == offset
    {
      this.items, this.query, this.size, this.offset := items, query, size, offset;
    }

    method Swap(i: nat, j: nat)
      requires i < |items| && j < |items|
      modifies this
      ensures items == old(items)[i := old(items)[j]][j := old(items)[i]]
    {
      items := items[i := items[j]][j := items[i]];
    }

    method AnyClauseMatches(c: Item) returns (matches: bool)
      requires Filterable(c, query.clauses)
      ensures matches <==> Matches(c, query.clauses, query.wildcard)
    {
      for i := 0 to |query.clauses|
        invariant forall j | 0 <= j < i ::
          !(GetField(c, query.clauses[j].field).Some?
            && Contains(GetField(c, query.clauses[j].field).value, query.clauses[j].value, query.wildcard))
      {
        var v := GetField(c, query.clauses[i].field);
        if v.None? {
          continue;
        }
        if Contains(v.value, query.clauses[i].value, query.wildcard) {
          return true;
        }
      }
      return false;
    }

    method Filter()
      requires AllFilterable(items, query.clauses)
      modifies this
      ensures items == Filtered(old(items), query.clauses, query.wildcard)
    {
      if |query.clauses| == 0 {
        return;
      }
      ghost var before := items;
      var kept: seq<Item> := [];
      for i := 0 to |items|
        invariant items == before && kept == Filtered(items[..i], query.clauses, query.wildcard)
      {
        assert items[..i + 1][..i] == items[..i];
        var matches := AnyClauseMatches(items[i]);
        if matches {
          kept := kept + [items[i]];
        }
      }
      assert items[..|items|] == items;
      items := kept;
    }

    /** Swaps the item at `i` down to its place among the ordered ones before it. */
    method Sink(i: nat)
      requires i < |items|
      modifies this
      ensures items == Insert(old(items)[..i], old(items)[i], query.order) + old(items)[i + 1..]
    {
      ghost var before, x := items, items[i];
      var j := i;
      assert items == before[..i] + [x] + before[i + 1..];
      while j > 0 && Less(items[j], items[j - 1], query.order)
        invariant 0 <= j <= i
        invariant items == before[..j] + [x] + before[j..i] + before[i + 1..]
        invariant Insert(before[..i], x, query.order) == Insert(before[..j], x, query.order) + before[j..i]
      {
        assert items[j] == x && items[j - 1] == before[j - 1];
        SwapDown(before, x, i, j);
        InsertDown(before, x, i, j, query.order);
        Swap(j, j - 1);
        j := j - 1;
      }
      assert j > 0 ==> items[j] == x && items[j - 1] == before[j - 1];
      InsertStops(before[..j], x, query.order);
    }

    /** Insertion sort stands for the library's sort. */
    method Sort()
      requires Comparable(Members(items), query.order)
      modifies this
      ensures items == Sorted(old(items), query.order)
    {
      ghost var before := items;
      for i := 0 to |items|
        invariant items == Sorted(before[..i], query.order) + before[i..]
        invariant |items| == |before| && |Sorted(before[..i], query.order)| == i
      {
        assert before[..i + 1][..i] == before[..i];
        assert items[..i] == Sorted(before[..i], query.order) && items[i] == before[i] && items[i + 1..] == before[i + 1..];
        Sink(i);
        SortedPermutes(before[..i + 1], query.order);
        assert |multiset(Sorted(before[..i + 1], query.order))| == i + 1;
      }
      assert before[..|before|] == before;
    }

    method Paginate()
      requires offset >= 0 && |items| <= MAX_INT64
      modifies this
      ensures items == if offset + size > MAX_INT64 then [] else Page(old(items), size, offset)
    {
      var start, end := offset, EndIndex(|items|, size, offset);
      if !IsPageAvailable(|items|, start, size) {
        items := [];
        return;
      }
      SliceIsInRange(|items|, size, offset);
      items := items[start..end];
    }
  }

  // ---------------------------------------------------------------------------
  // The list calls of the API
  // ---------------------------------------------------------------------------

  datatype ClusterInfo = ClusterInfo(name: string, clusterId: string)

  datatype DeploymentRow = DeploymentRow(
    name: string,
    displayName: string,
    appName: string,
    appVersion: string,
    deployId: string,
    status: string)

  datatype ClusterRow = ClusterRow(name: string, clusterId: string, status: string)

  /** Every list holds rows of one type, and which fields a row has depends on its type alone. */
  datatype Listing =
    | ClusterInfos(infos: seq<ClusterInfo>)
    | Deployments(deployments: seq<DeploymentRow>)
    | Clusters(clusters: seq<ClusterRow>)
  {
    function Length(): nat {
      match this
      case ClusterInfos(rows) => |rows|
      case Deployments(rows) => |rows|
      case Clusters(rows) => |rows|
    }

    function FieldNames(): set<string> {
      match this
      case ClusterInfos(_) => {"name", "id"}
      case Deployments(_) => {"name", "displayName", "appName", "appVersion", "deployId", "status"}
      case Clusters(_) => {"name", "id", "status"}
    }

    function Field(i: nat, field: string): string
      requires i < Length() && field in FieldNames()
    {
      match this
      case ClusterInfos(rows) => if field == "name" then rows[i].name else rows[i].clusterId
      case Deployments(rows) =>
        var row := rows[i];
        if field == "name" then row.name
        else if field == "displayName" then row.displayName
        else if field == "appName" then row.appName
        else if field == "appVersion" then row.appVersion
        else if field == "deployId" then row.deployId
        else row.status
      case Clusters(rows) =>
        if field == "name" then rows[i].name else if field == "id" then rows[i].clusterId else rows[i].status
    }

    /** The rows as data items; an item is known by its place in the list. */
    function Items(): (items: seq<Item>)
      ensures |items| == Length()
    {
      seq(Length(), i requires 0 <= i < Length() =>
        Item(i, map field | field in FieldNames() :: StringValue(Field(i, field))))
    }
  }

  /** The fields of a row of each type; it has no others. */
  lemma RowsHaveTheseFields(listing: Listing, i: nat)
    requires i < listing.Length()
    ensures var fields := listing.Items()[i].fields;
            match listing
            case ClusterInfos(rows) =>
              fields == map["name" := StringValue(rows[i].name), "id" := StringValue(rows[i].clusterId)]
            case Deployments(rows) =>
              fields == map["name" := StringValue(rows[i].name), "displayName" := StringValue(rows[i].displayName),
                            "appName" := StringValue(rows[i].appName), "appVersion" := StringValue(rows[i].appVersion),
                            "deployId" := StringValue(rows[i].deployId), "status" := StringValue(rows[i].status)]
            case Clusters(rows) =>
              fields == map["name" := StringValue(rows[i].name), "id" := StringValue(rows[i].clusterId),
                            "status" := StringValue(rows[i].status)]
  {
    var fields := listing.Items()[i].fields;
    assert fields.Keys == listing.FieldNames();
    assert forall f | f in fields :: fields[f] == StringValue(listing.Field(i, f));
  }

  /** What the parsers make of the request: every clause looks for a string. */
  datatype Request = Request(order: seq<OrderBy>, filters: seq<(string, string)>, wildcard: (string, string) -> bool)
  {
    function ToQuery(): Query {
      Query(order, seq(|filters|, i requires 0 <= i < |filters| => FilterBy(filters[i].0, StringValue(filters[i].1))), wildcard)
    }
  }

  /** Some part of the filter, not every part, holds of the row. */
  ghost predicate SomeFilterHolds(request: Request, c: Item) {
    exists f :: f in request.filters && GetField(c, f.0).Some? && GetField(c, f.0).value.StringValue?
      && Contains(GetField(c, f.0).value, StringValue(f.1), request.wildcard)
  }

  lemma MatchesIff(request: Request, c: Item)
    requires Filterable(c, request.ToQuery().clauses)
    ensures Matches(c, request.ToQuery().clauses, request.wildcard) <==> SomeFilterHolds(request, c)
  {
    var clauses := request.ToQuery().clauses;
    forall i | 0 <= i < |request.filters|
      ensures clauses[i] == FilterBy(request.filters[i].0, StringValue(request.filters[i].1)) && clauses[i] in clauses
    {
    }
    if f :| f in request.filters && GetField(c, f.0).Some? && GetField(c, f.0).value.StringValue?
            && Contains(GetField(c, f.0).value, StringValue(f.1), request.wildcard) {
      assert FilterBy(f.0, StringValue(f.1)) in clauses;
    }
  }

  lemma FieldOfItem(listing: Listing, a: Item, field: string)
    requires a in listing.Items()
    ensures GetField(a, field).Some? <==> field in listing.FieldNames()
    ensures GetField(a, field).Some? ==> GetField(a, field).value.StringValue?
  {
    var i :| 0 <= i < listing.Length() && listing.Items()[i] == a;
  }

  lemma UniformIsOrdered(items: set<Item>, order: seq<OrderBy>)
    requires Uniform(items, order)
    ensures IsStrictWeakOrder(items, order)
  {
    forall a, b, c | a in items && b in items && c in items
      ensures !(Less(a, b, order) && Less(b, a, order))
      ensures Less(a, b, order) && Less(b, c, order) ==> Less(a, c, order)
      ensures !Less(a, b, order) && !Less(b, c, order) ==> !Less(a, c, order)
    {
      LessIsAStrictWeakOrder(a, b, c, order);
    }
  }

  /** So every comparison and every match of a list call is defined, and every list is ordered
      by a strict weak order. */
  lemma ListCallsAreDefined(listing: Listing, request: Request)
    ensures Comparable(Members(listing.Items()), request.order)
    ensures IsStrictWeakOrder(Members(listing.Items()), request.order)
    ensures AllFilterable(listing.Items(), request.ToQuery().clauses)
  {
    var items := listing.Items();
    forall a, field | a in items
      ensures GetField(a, field).Some? <==> field in listing.FieldNames()
      ensures GetField(a, field).Some? ==> GetField(a, field).value.StringValue?
    {
      FieldOfItem(listing, a, field);
    }
    assert Uniform(Members(items), request.order);
    UniformIsOrdered(Members(items), request.order);
  }

  /** All that a query selects, in its order. */
  ghost function Arranged(list: seq<Item>, query: Query): seq<Item>
    requires AllFilterable(list, query.clauses)
  {
    Sorted(Filtered(list, query.clauses, query.wildcard), query.order)
  }

  /** What any sorting that obeys Less may make of the selection. */
  ghost predicate IsArrangement(list: seq<Item>, query: Query, arranged: seq<Item>)
    requires AllFilterable(list, query.clauses)
  {
    && Ordered(arranged, query.order)
    && multiset(arranged) == multiset(Filtered(list, query.clauses, query.wildcard))
  }

  lemma FilteredAreMembers(list: seq<Item>, query: Query)
    requires AllFilterable(list, query.clauses)
    ensures Members(Filtered(list, query.clauses, query.wildcard)) <= Members(list)
    ensures |Filtered(list, query.clauses, query.wildcard)| <= |list|
  {
    if query.clauses != [] && list != [] {
      var rest := list[..|list| - 1];
      FilteredAreMembers(rest, query);
      forall a | a in Filtered(list, query.clauses, query.wildcard) ensures a in list {
        if a in Filtered(rest, query.clauses, query.wildcard) {
          assert a in Members(rest);
        }
      }
    }
  }

  type Int32 = x: int | -0x8000_0000 <= x <= 0x7FFF_FFFF

  /** The conversion from int32, and the default page size. */
  function Unsigned(x: Int32): nat {
    if x >= 0 then x else x + 0x1_0000_0000
  }

  function PageSize(pageSize: Int32): nat {
    if pageSize == 0 then DEFAULT_PAGE_SIZE else Unsigned(pageSize)
  }

  /** One list call. */
  method Select(listing: Listing, request: Request, pageSize: Int32, offset: Int32) returns (page: Option<seq<Item>>)
    requires listing.Length() <= MAX_INT64
    ensures AllFilterable(listing.Items(), request.ToQuery().clauses)
    ensures var arranged := Arranged(listing.Items(), request.ToQuery());
            && IsArrangement(listing.Items(), request.ToQuery(), arranged)
            && page == if pageSize < 0 || pageSize > 500 then None
                       else Some(Page(arranged, if pageSize == 0 then 20 else pageSize,
                                      if offset < 0 then offset + 0x1_0000_0000 else offset))
  {
    var size := PageSize(pageSize);
    var query, list := request.ToQuery(), listing.Items();
    ListCallsAreDefined(listing, request);
    ArrangedIsArrangement(list, query);
    if !IsValidPagination(size, Unsigned(offset)) {
      return None;
    }
    var ds := new Selector(list, query, size, Unsigned(offset));
    FilteredAreMembers(list, query);
    SortedPermutes(Filtered(list, query.clauses, query.wildcard), query.order);
    ds.Filter();
    ds.Sort();
    assert |multiset(ds.items)| <= |list|;
    ds.Paginate();
    return Some(ds.items);
  }

  lemma ArrangedIsArrangement(list: seq<Item>, query: Query)
    requires AllFilterable(list, query.clauses) && IsStrictWeakOrder(Members(list), query.order)
    ensures IsArrangement(list, query, Arranged(list, query))
  {
    FilteredAreMembers(list, query);
    SortedIsOrdered(Members(list), Filtered(list, query.clauses, query.wildcard), query.order);
  }

  /** The pages from an offset on, one behind the other. */
  ghost function PagesFrom(items: seq<Item>, size: int, offset: nat): seq<Item>
    requires size > 0
    decreases |items| - offset
  {
    if offset >= |items| then [] else Page(items, size, offset) + PagesFrom(items, size, offset + size)
  }

  lemma {:induction false} PagesMakeUpTheList(items: seq<Item>, size: int, offset: nat)
    requires size > 0 && offset <= |items|
    ensures PagesFrom(items, size, offset) == items[offset..]
    decreases |items| - offset
  {
    if offset + size <= |items| {
      PagesMakeUpTheList(items, size, offset + size);
    }
  }

  /** However the sort orders equal items: going through the pages of one size gives every row
      that some clause matches, exactly once, and nothing else, in order. */
  lemma AllPagesAreTheSelection(listing: Listing, request: Request, size: int, arranged: seq<Item>)
    requires size > 0
    requires AllFilterable(listing.Items(), request.ToQuery().clauses)
    requires IsArrangement(listing.Items(), request.ToQuery(), arranged)
    ensures var all := PagesFrom(arranged, size, 0);
            && Ordered(all, request.order)
            && (forall c | c in listing.Items() ::
                  multiset(all)[c] == if request.filters == [] || SomeFilterHolds(request, c) then multiset(listing.Items())[c] else 0)
            && forall c | c in all :: c in listing.Items()
  {
    var list, query := listing.Items(), request.ToQuery();
    PagesMakeUpTheList(arranged, size, 0);
    assert arranged[0..] == arranged;
    FilteredAreMembers(list, query);
    forall c | c in list ensures multiset(arranged)[c] ==
      if query.clauses == [] || Matches(c, query.clauses, query.wildcard) then multiset(list)[c] else 0
    {
      FilteredAre(list, query.clauses, query.wildcard, c);
    }
    forall c | c in list ensures Matches(c, query.clauses, query.wildcard) <==> SomeFilterHolds(request, c) {
      MatchesIff(request, c);
    }
    forall c | c in arranged ensures c in list {
      assert c in multiset(arranged);
      assert c in Members(Filtered(list, query.clauses, query.wildcard));
    }
  }
}
