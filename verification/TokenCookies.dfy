/** A token that is too long for one cookie: the page splits it into numbered cookies, the
    proxy puts it together again, twice on one request. */
module TokenCookies {
  import opened Deployments
  import opened Strings

  const MAX_COOKIE_LENGTH := 2000

  /** The longest string of a browser, and the largest result of Atoi. */
  const MAX_STRING := 0x1F_FFFF_FFFF_FFFF
  const MAX_INT64 := 0x7FFF_FFFF_FFFF_FFFF

  datatype Names = Names(prefix: string, count: string)

  const PROXY := Names("app-service-proxy-token-", "app-service-proxy-tokens")
  const VNC := Names("keycloak-token-", "keycloak-tokens")

  // ---------------------------------------------------------------------------
  // Decimal numbers
  // ---------------------------------------------------------------------------

  predicate IsDigit(c: char) {
    '0' <= c <= '9'
  }

  function DigitValue(c: char): nat
    requires IsDigit(c)
  {
    c as int - '0' as int
  }

  function Number(s: string): nat
    requires forall c | c in s :: IsDigit(c)
  {
    if s == [] then 0
    else
      assert s[|s| - 1] in s;
      10 * Number(s[..|s| - 1]) + DigitValue(s[|s| - 1])
  }

  function Atoi(s: string): Option<int> {
    var digits := if s != [] && s[0] in {'+', '-'} then s[1..] else s;
    if digits == [] || exists c | c in digits :: !IsDigit(c) then None
    else
      var n := Number(digits) * if s[0] == '-' then -1 else 1;
      if -MAX_INT64 - 1 <= n <= MAX_INT64 then Some(n) else None
  }

  lemma {:induction false} NumberOfDigits(n: nat)
    ensures Digits(n) != [] && (forall c | c in Digits(n) :: IsDigit(c)) && Number(Digits(n)) == n
  {
    var d := ['0' + (n % 10) as char];
    if n < 10 {
      assert d[..0] == [];
    } else {
      NumberOfDigits(n / 10);
      assert Digits(n)[..|Digits(n)| - 1] == Digits(n / 10);
    }
  }

  lemma AtoiUndoesItoa(n: nat)
    requires n <= MAX_INT64
    ensures Atoi(Digits(n)) == Some(n)
  {
    NumberOfDigits(n);
    assert Digits(n)[0] in Digits(n);
  }

  function PartName(names: Names, i: nat): string {
    names.prefix + Digits(i)
  }

  /** No part is named like the count or like another part. */
  ghost predicate NamesApart(names: Names) {
    && (forall i: nat :: PartName(names, i) != names.count)
    && (forall i: nat, j: nat | i != j :: PartName(names, i) != PartName(names, j))
  }

  lemma NamesAreApart(names: Names)
    requires names in {PROXY, VNC}
    ensures NamesApart(names)
  {
    forall i: nat ensures PartName(names, i) != names.count {
      NumberOfDigits(i);
      assert |PartName(names, i)| > |names.prefix| == |names.count|;
    }
    forall i: nat, j: nat | i != j ensures PartName(names, i) != PartName(names, j) {
      NumberOfDigits(i);
      NumberOfDigits(j);
      assert PartName(names, i)[|names.prefix|..] == Digits(i);
      assert PartName(names, j)[|names.prefix|..] == Digits(j);
    }
  }

  // ---------------------------------------------------------------------------
  // The page
  // ---------------------------------------------------------------------------

  function Parts(token: string): nat {
    (|token| + MAX_COOKIE_LENGTH - 1) / MAX_COOKIE_LENGTH
  }

  /** What substring gives: bounds beyond the end are the end. */
  function Substring(s: string, from: nat, to: nat): string
    requires from <= to
  {
    s[if from <= |s| then from else |s|..if to <= |s| then to else |s|]
  }

  function Part(token: string, i: nat): string {
    Substring(token, i * MAX_COOKIE_LENGTH, (i + 1) * MAX_COOKIE_LENGTH)
  }

  /** The first `n` parts are among the cookies. */
  ghost predicate HoldsParts(cookies: map<string, string>, token: string, names: Names, n: nat) {
    forall i | 0 <= i < n :: PartName(names, i) in cookies && cookies[PartName(names, i)] == Part(token, i)
  }

  ghost predicate HoldsToken(cookies: map<string, string>, token: string, names: Names) {
    && HoldsParts(cookies, token, names, Parts(token))
    && names.count in cookies && cookies[names.count] == Digits(Parts(token))
  }

  class Page {
    var cookies: map<string, string>

    constructor ()
      ensures cookies == map[]
    {
      cookies := map[];
    }

    /** Cookies of other names stay, among them those of a longer token before. */
    method SaveToken(token: string, names: Names)
      requires NamesApart(names)
      modifies this
      ensures HoldsToken(cookies, token, names)
      ensures forall n | n != names.count && forall i | 0 <= i < Parts(token) :: n != PartName(names, i) ::
                (n in cookies <==> n in old(cookies)) && (n in cookies ==> cookies[n] == old(cookies)[n])
      ensures forall i | 0 <= i < Parts(token) ::
                |cookies[PartName(names, i)]| == if i < Parts(token) - 1 then 2000 else |token| - 2000 * (Parts(token) - 1)
      ensures 2000 * (Parts(token) - 1) < |token| <= 2000 * Parts(token) || (token == "" && Parts(token) == 0)
    {
      var n := Parts(token);
      for i := 0 to n
        invariant HoldsParts(cookies, token, names, i)
        invariant forall k | k !in cookies :: k !in old(cookies)
        invariant forall k | k in cookies && forall j | 0 <= j < i :: k != PartName(names, j) ::
                    k in old(cookies) && cookies[k] == old(cookies)[k]
      {
        cookies := cookies[PartName(names, i) := Part(token, i)];
      }
      cookies := cookies[names.count := Digits(n)];
    }
  }

  // ---------------------------------------------------------------------------
  // The server
  // ---------------------------------------------------------------------------

  datatype Cookie = Cookie(name: string, value: string)

  datatype Result<T> = Ok(value: T) | NoCookie(name: string) | NotANumber(text: string)

  /** Request.Cookie: the first one of the name. */
  function FirstCookie(cookies: seq<Cookie>, name: string): Option<string> {
    if cookies == [] then None
    else if cookies[0].name == name then Some(cookies[0].value)
    else FirstCookie(cookies[1..], name)
  }

  /** The parts from number i on, put together. */
  function Collected(cookies: seq<Cookie>, names: Names, i: nat, n: int): Result<string>
    decreases n - i
  {
    if i >= n then Ok("")
    else
      match FirstCookie(cookies, PartName(names, i))
      case None => NoCookie(PartName(names, i))
      case Some(part) =>
        match Collected(cookies, names, i + 1, n)
        case Ok(rest) => Ok(part + rest)
        case error => error
  }

  function Reassembled(cookies: seq<Cookie>, names: Names): Result<string> {
    match FirstCookie(cookies, names.count)
    case None => NoCookie(names.count)
    case Some(text) =>
      match Atoi(text)
      case None => NotANumber(text)
      case Some(n) => Collected(cookies, names, 0, n)
  }

  ghost predicate AllThere(cookies: seq<Cookie>, names: Names, i: nat, n: int) {
    forall j: nat | i <= j < n :: FirstCookie(cookies, PartName(names, j)).Some?
  }

  /** The first part from number `i` on that is missing has this name. */
  ghost predicate FirstMissing(cookies: seq<Cookie>, names: Names, i: nat, n: int, name: string) {
    exists k: nat :: i <= k < n && name == PartName(names, k) && FirstCookie(cookies, name) == None
                     && AllThere(cookies, names, i, k)
  }

  lemma {:induction false} CollectedIff(cookies: seq<Cookie>, names: Names, i: nat, n: int)
    ensures var r := Collected(cookies, names, i, n);
            && !r.NotANumber? && (r.Ok? <==> AllThere(cookies, names, i, n))
            && (r.NoCookie? ==> FirstMissing(cookies, names, i, n, r.name))
    decreases n - i
  {
    if i < n {
      CollectedIff(cookies, names, i + 1, n);
      var r := Collected(cookies, names, i + 1, n);
      if FirstCookie(cookies, PartName(names, i)).Some? && r.NoCookie? {
        var k: nat :| i + 1 <= k < n && r.name == PartName(names, k) && FirstCookie(cookies, r.name) == None
          && AllThere(cookies, names, i + 1, k);
        assert AllThere(cookies, names, i, k);
      }
    }
  }

  /** A token is reassembled exactly if the count is there and a number, and every part below it
      is there; otherwise the error names the first cookie that is missing, or the text. */
  lemma ReassembledIff(cookies: seq<Cookie>, names: Names)
    ensures var count, r := FirstCookie(cookies, names.count), Reassembled(cookies, names);
            && (count.None? ==> r == NoCookie(names.count))
            && (count.Some? && Atoi(count.value).None? ==> r == NotANumber(count.value))
            && (count.Some? && Atoi(count.value).Some? ==>
                  && !r.NotANumber? && (r.Ok? <==> AllThere(cookies, names, 0, Atoi(count.value).value))
                  && (r.NoCookie? ==> FirstMissing(cookies, names, 0, Atoi(count.value).value, r.name)))
  {
    var count := FirstCookie(cookies, names.count);
    if count.Some? && Atoi(count.value).Some? {
      CollectedIff(cookies, names, 0, Atoi(count.value).value);
    }
  }

  class Request {
    var cookies: seq<Cookie>

    constructor (cookies: seq<Cookie>)
      ensures this.cookies == cookies
    {
      this.cookies := cookies;
    }

    /** The loop over the parts, once their number is known. */
    method CombineParts(names: Names, n: int) returns (token: Result<string>)
      ensures token == Collected(cookies, names, 0, n)
    {
      var parts: seq<string> := [];
      var num := 0;
      NothingPrefixed(parts, Collected(cookies, names, 0, n));
      while num < n
        invariant Collected(cookies, names, 0, n) == Prefixed(parts, Collected(cookies, names, num, n))
      {
        var part := FirstCookie(cookies, PartName(names, num));
        if part.None? {
          return NoCookie(PartName(names, num));
        }
        ghost var rest := Collected(cookies, names, num + 1, n);
        PrefixOneMore(parts, part.value, rest);
        parts := parts + [part.value];
        num := num + 1;
      }
      NothingPrefixed(parts, Ok(""));
      return Ok(Join(parts, ""));
    }

    /** The VNC proxy only reads the cookies. */
    method GetCombinedToken(names: Names) returns (token: Result<string>)
      ensures token == Reassembled(cookies, names)
    {
      var count := FirstCookie(cookies, names.count);
      if count.None? {
        return NoCookie(names.count);
      }
      var n := Atoi(count.value);
      if n.None? {
        return NotANumber(count.value);
      }
      token := CombineParts(names, n.value);
    }

    /** The application service proxy means to take the count cookie away and appends an empty
        one instead. */
    method TakeCombinedToken(names: Names) returns (token: Result<string>)
      modifies this
      ensures token == Reassembled(old(cookies), names) == Reassembled(cookies, names)
      ensures cookies == old(cookies) + if FirstCookie(old(cookies), names.count).Some? then [Cookie(names.count, "")] else []
    {
      var count := FirstCookie(cookies, names.count);
      if count.None? {
        return NoCookie(names.count);
      }
      AppendedIsNotFirst(cookies, names, "");
      cookies := cookies + [Cookie(names.count, "")];
      var n := Atoi(count.value);
      if n.None? {
        return NotANumber(count.value);
      }
      token := CombineParts(names, n.value);
    }

    /** Authenticate and then Authorize reassemble the token of the same request. */
    method AuthenticateAndAuthorize(names: Names) returns (first: Result<string>, second: Result<string>)
      modifies this
      ensures first == second == Reassembled(old(cookies), names)
    {
      first := TakeCombinedToken(names);
      second := TakeCombinedToken(names);
    }
  }

  function Prefixed(parts: seq<string>, rest: Result<string>): Result<string> {
    if rest.Ok? then Ok(Join(parts, "") + rest.value) else rest
  }

  lemma NothingPrefixed(parts: seq<string>, rest: Result<string>)
    ensures Prefixed([], rest) == rest && Prefixed(parts, Ok("")) == Ok(Join(parts, ""))
  {
    if rest.Ok? {
      assert "" + rest.value == rest.value;
    }
    assert Join(parts, "") + "" == Join(parts, "");
  }

  lemma PrefixOneMore(parts: seq<string>, part: string, rest: Result<string>)
    ensures Prefixed(parts + [part], rest) == Prefixed(parts, if rest.Ok? then Ok(part + rest.value) else rest)
  {
    assert (parts + [part])[..|parts|] == parts;
    assert Join(parts + [part], "") == Join(parts, "") + part;
    if rest.Ok? {
      assert Join(parts, "") + part + rest.value == Join(parts, "") + (part + rest.value);
    }
  }

  lemma {:induction false} FirstAfterAppend(cookies: seq<Cookie>, c: Cookie, name: string)
    ensures FirstCookie(cookies + [c], name) ==
            if FirstCookie(cookies, name).Some? then FirstCookie(cookies, name)
            else if c.name == name then Some(c.value) else None
  {
    if cookies != [] {
      FirstAfterAppend(cookies[1..], c, name);
      assert (cookies + [c])[1..] == cookies[1..] + [c];
    }
  }

  lemma {:induction false} CollectedFromSame(a: seq<Cookie>, b: seq<Cookie>, names: Names, i: nat, n: int)
    requires forall k: nat :: FirstCookie(a, PartName(names, k)) == FirstCookie(b, PartName(names, k))
    ensures Collected(a, names, i, n) == Collected(b, names, i, n)
    decreases n - i
  {
    if i < n {
      CollectedFromSame(a, b, names, i + 1, n);
    }
  }

  /** Behind a count cookie, another one changes no lookup. */
  lemma AppendedIsNotFirst(cookies: seq<Cookie>, names: Names, value: string)
    requires FirstCookie(cookies, names.count).Some?
    ensures forall name :: FirstCookie(cookies + [Cookie(names.count, value)], name) == FirstCookie(cookies, name)
    ensures forall n: int :: Collected(cookies + [Cookie(names.count, value)], names, 0, n) == Collected(cookies, names, 0, n)
  {
    forall name ensures FirstCookie(cookies + [Cookie(names.count, value)], name) == FirstCookie(cookies, name) {
      FirstAfterAppend(cookies, Cookie(names.count, value), name);
    }
    forall n: int ensures Collected(cookies + [Cookie(names.count, value)], names, 0, n) == Collected(cookies, names, 0, n) {
      CollectedFromSame(cookies + [Cookie(names.count, value)], cookies, names, 0, n);
    }
  }

  // ---------------------------------------------------------------------------
  // From the page to the server
  // ---------------------------------------------------------------------------

  /** The browser sends every cookie of the page once, in some order. */
  ghost predicate Carries(cookies: seq<Cookie>, jar: map<string, string>) {
    && (forall i, j | 0 <= i < j < |cookies| :: cookies[i].name != cookies[j].name)
    && (forall c | c in cookies :: c.name in jar && jar[c.name] == c.value)
    && (forall name | name in jar :: exists c :: c in cookies && c.name == name)
  }

  lemma {:induction false} FirstIsTheOne(cookies: seq<Cookie>, c: Cookie)
    requires forall i, j | 0 <= i < j < |cookies| :: cookies[i].name != cookies[j].name
    requires c in cookies
    ensures FirstCookie(cookies, c.name) == Some(c.value)
  {
    if cookies[0] != c {
      assert cookies == [cookies[0]] + cookies[1..];
      var i :| 0 <= i < |cookies| && cookies[i] == c;
      FirstIsTheOne(cookies[1..], c);
    }
  }

  lemma CarriedIsFound(cookies: seq<Cookie>, jar: map<string, string>, name: string)
    requires Carries(cookies, jar) && name in jar
    ensures FirstCookie(cookies, name) == Some(jar[name])
  {
    var c :| c in cookies && c.name == name;
    FirstIsTheOne(cookies, c);
  }

  function PartsFrom(token: string, i: nat): string
    decreases Parts(token) - i
  {
    if i >= Parts(token) then "" else Part(token, i) + PartsFrom(token, i + 1)
  }

  lemma {:induction false} PartsMakeUpTheToken(token: string, i: nat)
    requires i <= Parts(token)
    ensures PartsFrom(token, i) == if i * MAX_COOKIE_LENGTH <= |token| then token[i * MAX_COOKIE_LENGTH..] else ""
    decreases Parts(token) - i
  {
    if i < Parts(token) {
      PartsMakeUpTheToken(token, i + 1);
    }
  }

  lemma {:induction false} PartsCollect(cookies: seq<Cookie>, jar: map<string, string>, token: string, names: Names, i: nat)
    requires Carries(cookies, jar) && HoldsParts(jar, token, names, Parts(token))
    ensures Collected(cookies, names, i, Parts(token)) == Ok(PartsFrom(token, i))
    decreases Parts(token) - i
  {
    if i < Parts(token) {
      CarriedIsFound(cookies, jar, PartName(names, i));
      PartsCollect(cookies, jar, token, names, i + 1);
    }
  }

  /** Whatever other cookies there are, and in whatever order they come, the server gets the
      token that the page saved. */
  lemma TokenRoundTrip(cookies: seq<Cookie>, jar: map<string, string>, token: string, names: Names)
    requires |token| <= MAX_STRING && HoldsToken(jar, token, names) && Carries(cookies, jar)
    ensures Reassembled(cookies, names) == Ok(token)
  {
    CarriedIsFound(cookies, jar, names.count);
    AtoiUndoesItoa(Parts(token));
    PartsCollect(cookies, jar, token, names, 0);
    PartsMakeUpTheToken(token, 0);
    assert token[0..] == token;
  }

  /** A whole login: the page of some user saves a token over the cookies of an earlier one, and
      both reassemblies on the next request return it. */
  method LogInAgain(earlier: string, token: string) returns (first: Result<string>, second: Result<string>)
    requires |token| <= MAX_STRING
    ensures first == second == Ok(token)
  {
    NamesAreApart(PROXY);
    var page := new Page();
    page.SaveToken(earlier, PROXY);
    page.SaveToken(token, PROXY);
    var cookies := Listed(page.cookies);
    TokenRoundTrip(cookies, page.cookies, token, PROXY);
    var request := new Request(cookies);
    first, second := request.AuthenticateAndAuthorize(PROXY);
  }

  /** One of the orders in which a browser may send its cookies. */
  method Listed(jar: map<string, string>) returns (cookies: seq<Cookie>)
    ensures Carries(cookies, jar)
  {
    cookies := [];
    var todo := jar.Keys;
    while todo != {}
      invariant todo <= jar.Keys
      invariant forall i, j | 0 <= i < j < |cookies| :: cookies[i].name != cookies[j].name
      invariant forall c | c in cookies :: c.name in jar && c.name !in todo && jar[c.name] == c.value
      invariant forall name | name in jar && name !in todo :: exists c :: c in cookies && c.name == name
      decreases todo
    {
      var name :| name in todo;
      ghost var before := cookies;
      cookies := cookies + [Cookie(name, jar[name])];
      assert forall c :: c in cookies <==> c in before || c == Cookie(name, jar[name]);
      assert Cookie(name, jar[name]) in cookies;
      todo := todo - {name};
    }
  }
}
