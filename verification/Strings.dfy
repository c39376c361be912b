/** Splitting and joining of strings at a separator. */
module Strings {

  function Position(s: string, c: char): (i: nat)
    ensures i <= |s| && (i < |s| ==> s[i] == c)
    ensures c in s <==> i < |s|
    ensures c !in s[..i]
  {
    if s == [] || s[0] == c then 0
    else
      var i := 1 + Position(s[1..], c);
      assert s[..i] == [s[0]] + s[1..][..i - 1];
      i
  }

  function Split(s: string, sep: char): (parts: seq<string>)
    ensures parts != []
    decreases |s|
  {
    var i := Position(s, sep);
    if i == |s| then [s] else [s[..i]] + Split(s[i + 1..], sep)
  }

  function Join(parts: seq<string>, sep: string): string {
    if parts == [] then ""
    else if |parts| == 1 then parts[0]
    else Join(parts[..|parts| - 1], sep) + sep + parts[|parts| - 1]
  }

  ghost predicate AllWithout(parts: seq<string>, c: char) {
    forall p | p in parts :: c !in p
  }

  lemma Regroup(a: string, b: string, c: string, d: string)
    ensures a + b + c + d == a + (b + c + d)
  {
  }

  lemma {:induction false} JoinFromTheFront(first: string, rest: seq<string>, sep: string)
    requires rest != []
    ensures Join([first] + rest, sep) == first + sep + Join(rest, sep)
  {
    var all := [first] + rest;
    if |rest| == 1 {
      assert all[..1] == [first];
    } else {
      var fore, last := rest[..|rest| - 1], rest[|rest| - 1];
      JoinFromTheFront(first, fore, sep);
      assert all[..|all| - 1] == [first] + fore && all[|all| - 1] == last;
      Regroup(first + sep, Join(fore, sep), sep, last);
    }
  }

  lemma PositionAfter(a: string, c: char, b: string)
    requires c !in a
    ensures Position(a + [c] + b, c) == |a|
  {
    var s := a + [c] + b;
    assert forall j | 0 <= j < |a| :: s[j] == a[j] && s[j] != c;
    assert s[|a|] == c;
    assert forall j | 0 <= j < Position(s, c) :: s[..Position(s, c)][j] == s[j] && s[j] != c;
  }

  /** Splitting undoes joining as long as no part contains the separator. */
  lemma {:induction false} SplitUndoesJoin(parts: seq<string>, sep: char)
    requires parts != [] && AllWithout(parts, sep)
    ensures Split(Join(parts, [sep]), sep) == parts
  {
    if |parts| == 1 {
    } else {
      var first, rest := parts[0], parts[1..];
      assert parts == [first] + rest;
      JoinFromTheFront(first, rest, [sep]);
      SplitUndoesJoin(rest, sep);
      PositionAfter(first, sep, Join(rest, [sep]));
      var s := first + [sep] + Join(rest, [sep]);
      assert s[..|first|] == first && s[|first| + 1..] == Join(rest, [sep]);
    }
  }

  lemma {:induction false} JoinUndoesSplit(s: string, sep: char)
    ensures Join(Split(s, sep), [sep]) == s
    decreases |s|
  {
    var i := Position(s, sep);
    if i < |s| {
      JoinUndoesSplit(s[i + 1..], sep);
      JoinFromTheFront(s[..i], Split(s[i + 1..], sep), [sep]);
      CutAt(s, i);
    }
  }

  lemma CutAt(s: string, i: nat)
    requires i < |s|
    ensures s[..i] + [s[i]] + s[i + 1..] == s
  {
  }

  lemma {:induction false} JoinWithout(parts: seq<string>, sep: char, c: char)
    requires AllWithout(parts, c) && c != sep
    ensures c !in Join(parts, [sep])
  {
    if |parts| > 1 {
      JoinWithout(parts[..|parts| - 1], sep, c);
    }
  }

  lemma JoinIsInjective(a: seq<string>, b: seq<string>, sep: char)
    requires a != [] && b != [] && AllWithout(a, sep) && AllWithout(b, sep)
    requires Join(a, [sep]) == Join(b, [sep])
    ensures a == b
  {
    SplitUndoesJoin(a, sep);
    SplitUndoesJoin(b, sep);
  }

  function Digits(n: nat): string {
    var d := ['0' + (n % 10) as char];
    if n < 10 then d else Digits(n / 10) + d
  }
}
