/** The counters that limit VNC sessions per address and per account, and the sessions that
    acquire and release them in any interleaving. */
module SessionCounters {
  import opened Deployments

  // ---------------------------------------------------------------------------
  // One counter
  // ---------------------------------------------------------------------------

  type Counts = map<string, int>

  function CountOf(store: Counts, key: string): int {
    if key in store then store[key] else 0
  }

  /** `limit` is what the configuration says at this moment, if it can be read; a limit that
      is not positive is none. */
  predicate MayIncrease(store: Counts, key: string, limit: Option<int>) {
    limit.Some? && (limit.value > 0 ==> CountOf(store, key) + 1 <= limit.value)
  }

  predicate MayDecrease(store: Counts, key: string) {
    key in store && store[key] >= 1
  }

  class Counter {
    var store: Counts

    constructor ()
      ensures store == map[]
    {
      store := map[];
    }

    /** Both calls hold the mutex from their first look at the store on. */
    method Increase(key: string, limit: Option<int>) returns (ok: bool)
      modifies this
      ensures ok <==> MayIncrease(old(store), key, limit)
      ensures store == if ok then old(store)[key := CountOf(old(store), key) + 1] else old(store)
    {
      if limit.None? {
        return false;
      }
      var v := if key in store then store[key] else 0;
      if key !in store {
        store := store[key := 1];
      }
      if limit.value > 0 && v + 1 > limit.value {
        return false;
      }
      store := store[key := v + 1];
      return true;
    }

    method Decrease(key: string) returns (ok: bool)
      modifies this
      ensures ok <==> MayDecrease(old(store), key)
      ensures store == if ok then old(store)[key := CountOf(old(store), key) - 1] else old(store)
    {
      if key !in store {
        return false;
      }
      var v := store[key];
      if v < 1 {
        return false;
      }
      store := store[key := v - 1];
      return true;
    }
  }

  // ---------------------------------------------------------------------------
  // Sessions
  // ---------------------------------------------------------------------------

  /** Acquiring(n) and Releasing(n) count the accounts done so far; both hold the address.
      Rejected(n) failed on account n and has yet to give back the address.  Closed(n) ended
      with its first n accounts still counted. */
  datatype Phase =
    | Arrived
    | Acquiring(n: nat)
    | Releasing(n: nat)
    | Rejected(n: nat)
    | Closed(n: nat)

  datatype Session = Session(address: string, accounts: seq<string>, phase: Phase)

  datatype World = World(addresses: Counts, accounts: Counts, sessions: seq<Session>)

  datatype Event =
    | Arrive(address: string, accounts: seq<string>)
    | Step(i: nat, addressLimit: Option<int>, accountLimit: Option<int>)

  function Increased(store: Counts, key: string, limit: Option<int>): Counts {
    if MayIncrease(store, key, limit) then store[key := CountOf(store, key) + 1] else store
  }

  function Decreased(store: Counts, key: string): Counts {
    if MayDecrease(store, key) then store[key := CountOf(store, key) - 1] else store
  }

  predicate WellFormed(s: Session) {
    match s.phase
    case Arrived => true
    case Acquiring(n) => n <= |s.accounts|
    case Releasing(n) => n <= |s.accounts|
    case Rejected(n) => n < |s.accounts|
    case Closed(n) => n == 0 || n < |s.accounts|
  }

  /** The session after its next access to a counter.  A failed account leaves the handler
      before the release of the accounts is deferred; a failed release is only logged. */
  function SessionAfter(s: Session, w: World, addressLimit: Option<int>, accountLimit: Option<int>): (t: Session)
    requires WellFormed(s)
    ensures WellFormed(t)
  {
    s.(phase :=
      match s.phase
      case Arrived => if MayIncrease(w.addresses, s.address, addressLimit) then Acquiring(0) else Closed(0)
      case Acquiring(n) =>
        if n == |s.accounts| then Releasing(0)
        else if MayIncrease(w.accounts, s.accounts[n], accountLimit) then Acquiring(n + 1)
        else Rejected(n)
      case Releasing(n) => if n == |s.accounts| then Closed(0) else Releasing(n + 1)
      case Rejected(n) => Closed(n)
      case Closed(n) => Closed(n))
  }

  function AddressesAfter(s: Session, store: Counts, limit: Option<int>): Counts {
    match s.phase
    case Arrived => Increased(store, s.address, limit)
    case Releasing(n) => if n == |s.accounts| then Decreased(store, s.address) else store
    case Rejected(_) => Decreased(store, s.address)
    case _ => store
  }

  function AccountsAfter(s: Session, store: Counts, limit: Option<int>): Counts
    requires WellFormed(s)
  {
    match s.phase
    case Acquiring(n) => if n == |s.accounts| then store else Increased(store, s.accounts[n], limit)
    case Releasing(n) => if n == |s.accounts| then store else Decreased(store, s.accounts[n])
    case _ => store
  }

  function Stepped(w: World, i: nat, addressLimit: Option<int>, accountLimit: Option<int>): World
    requires i < |w.sessions| && WellFormed(w.sessions[i])
  {
    var s := w.sessions[i];
    World(AddressesAfter(s, w.addresses, addressLimit), AccountsAfter(s, w.accounts, accountLimit),
          w.sessions[i := SessionAfter(s, w, addressLimit, accountLimit)])
  }

  ghost predicate Next(w: World, v: World, event: Event) {
    match event
    case Arrive(address, accounts) => v == w.(sessions := w.sessions + [Session(address, accounts, Arrived)])
    case Step(i, addressLimit, accountLimit) =>
      i < |w.sessions| && WellFormed(w.sessions[i]) && v == Stepped(w, i, addressLimit, accountLimit)
  }

  ghost predicate IsRun(run: seq<World>, events: seq<Event>) {
    && |run| == |events| + 1
    && run[0] == World(map[], map[], [])
    && forall i, j | 0 <= i && j == i + 1 < |run| :: Next(run[i], run[j], events[i])
  }

  // ---------------------------------------------------------------------------
  // What the sessions hold
  // ---------------------------------------------------------------------------

  function Occurrences(names: seq<string>, key: string): nat {
    if names == [] then 0 else Occurrences(names[1..], key) + (if names[0] == key then 1 else 0)
  }

  lemma {:induction false} AccountsSplit(names: seq<string>, n: nat, key: string)
    requires n < |names|
    ensures var one := if names[n] == key then 1 else 0;
            && Occurrences(names[..n + 1], key) == Occurrences(names[..n], key) + one
            && Occurrences(names[n..], key) == one + Occurrences(names[n + 1..], key)
  {
    assert names[n..][1..] == names[n + 1..];
    if n == 0 {
      assert names[..1][1..] == names[..0] == [];
    } else {
      AccountsSplit(names[1..], n - 1, key);
      assert names[..n + 1][1..] == names[1..][..n] && names[..n][1..] == names[1..][..n - 1];
      assert names[1..][n - 1..] == names[n..];
    }
  }

  function AddressHeld(s: Session, address: string): nat {
    if s.address == address && (s.phase.Acquiring? || s.phase.Releasing? || s.phase.Rejected?) then 1 else 0
  }

  /** Accounts that the session counts and is going to release. */
  function AccountHeld(s: Session, account: string): nat
    requires WellFormed(s)
  {
    match s.phase
    case Acquiring(n) => Occurrences(s.accounts[..n], account)
    case Releasing(n) => Occurrences(s.accounts[n..], account)
    case _ => 0
  }

  /** Accounts that the session counted and is never going to release. */
  function AccountLeaked(s: Session, account: string): nat
    requires WellFormed(s)
  {
    match s.phase
    case Rejected(n) => Occurrences(s.accounts[..n], account)
    case Closed(n) => Occurrences(s.accounts[..n], account)
    case _ => 0
  }

  ghost predicate AllWellFormed(sessions: seq<Session>) {
    forall s | s in sessions :: WellFormed(s)
  }

  function AddressTotal(sessions: seq<Session>, address: string): nat {
    if sessions == [] then 0
    else AddressTotal(sessions[..|sessions| - 1], address) + AddressHeld(sessions[|sessions| - 1], address)
  }

  ghost function HeldTotal(sessions: seq<Session>, account: string): nat
    requires AllWellFormed(sessions)
  {
    if sessions == [] then 0
    else HeldTotal(sessions[..|sessions| - 1], account) + AccountHeld(sessions[|sessions| - 1], account)
  }

  ghost function LeakedTotal(sessions: seq<Session>, account: string): nat
    requires AllWellFormed(sessions)
  {
    if sessions == [] then 0
    else LeakedTotal(sessions[..|sessions| - 1], account) + AccountLeaked(sessions[|sessions| - 1], account)
  }

  /** Changing one session changes the totals by what that session held and holds. */
  lemma {:induction false} TotalsAfterChange(sessions: seq<Session>, i: nat, s: Session, key: string)
    requires i < |sessions| && AllWellFormed(sessions) && WellFormed(s)
    ensures var changed := sessions[i := s];
            && AllWellFormed(changed)
            && AddressTotal(changed, key) == AddressTotal(sessions, key) - AddressHeld(sessions[i], key) + AddressHeld(s, key)
            && HeldTotal(changed, key) == HeldTotal(sessions, key) - AccountHeld(sessions[i], key) + AccountHeld(s, key)
            && LeakedTotal(changed, key) == LeakedTotal(sessions, key) - AccountLeaked(sessions[i], key) + AccountLeaked(s, key)
    ensures AddressTotal(sessions, key) >= AddressHeld(sessions[i], key)
    ensures HeldTotal(sessions, key) >= AccountHeld(sessions[i], key)
  {
    var last, changed := |sessions| - 1, sessions[i := s];
    if i == last {
      assert changed[..last] == sessions[..last];
    } else {
      TotalsAfterChange(sessions[..last], i, s, key);
      assert changed[..last] == sessions[..last][i := s];
    }
  }

  // ---------------------------------------------------------------------------
  // The invariant
  // ---------------------------------------------------------------------------

  ghost predicate Exact(w: World) {
    && AllWellFormed(w.sessions)
    && (forall k :: CountOf(w.addresses, k) == AddressTotal(w.sessions, k))
    && (forall k :: CountOf(w.accounts, k) == HeldTotal(w.sessions, k) + LeakedTotal(w.sessions, k))
  }

  /** Everything that the next step of the session gives back is counted. */
  ghost predicate CanRelease(s: Session, w: World) {
    && (s.phase.Rejected? || s.phase.Releasing? ==> MayDecrease(w.addresses, s.address))
    && (s.phase.Releasing? && s.phase.n < |s.accounts| ==> MayDecrease(w.accounts, s.accounts[s.phase.n]))
  }

  /** No release ever fails. */
  lemma ReleasesSucceed(w: World, i: nat)
    requires Exact(w) && i < |w.sessions|
    ensures CanRelease(w.sessions[i], w)
  {
    var s := w.sessions[i];
    TotalsAfterChange(w.sessions, i, s, s.address);
    if s.phase.Releasing? && s.phase.n < |s.accounts| {
      AccountsSplit(s.accounts, s.phase.n, s.accounts[s.phase.n]);
      TotalsAfterChange(w.sessions, i, s, s.accounts[s.phase.n]);
    }
  }

  /** A step changes the counters by what it changes for its own session. */
  lemma StepBalancesAddresses(s: Session, w: World, addressLimit: Option<int>, accountLimit: Option<int>, key: string)
    requires WellFormed(s) && CanRelease(s, w)
    ensures CountOf(AddressesAfter(s, w.addresses, addressLimit), key) - CountOf(w.addresses, key) ==
            AddressHeld(SessionAfter(s, w, addressLimit, accountLimit), key) - AddressHeld(s, key)
  {
  }

  function Counted(s: Session, account: string): nat
    requires WellFormed(s)
  {
    AccountHeld(s, account) + AccountLeaked(s, account)
  }

  lemma NothingCounted(s: Session, account: string)
    requires s.phase == Acquiring(0) || s.phase == Closed(0) || s.phase == Releasing(|s.accounts|)
    ensures Counted(s, account) == 0
  {
    assert s.accounts[..0] == [] == s.accounts[|s.accounts|..];
  }

  lemma StepBalancesAccounts(s: Session, w: World, addressLimit: Option<int>, accountLimit: Option<int>, key: string)
    requires WellFormed(s) && CanRelease(s, w)
    ensures CountOf(AccountsAfter(s, w.accounts, accountLimit), key) - CountOf(w.accounts, key) ==
            Counted(SessionAfter(s, w, addressLimit, accountLimit), key) - Counted(s, key)
  {
    var t := SessionAfter(s, w, addressLimit, accountLimit);
    match s.phase
    case Arrived =>
      NothingCounted(t, key);
    case Acquiring(n) =>
      if n == |s.accounts| {
        assert s.accounts[0..] == s.accounts[..n];
      } else {
        AccountsSplit(s.accounts, n, key);
      }
    case Releasing(n) =>
      if n == |s.accounts| {
        NothingCounted(s, key);
        NothingCounted(t, key);
      } else {
        AccountsSplit(s.accounts, n, key);
      }
    case Rejected(n) =>
    case Closed(n) =>
  }

  lemma StepKeepsExact(w: World, i: nat, addressLimit: Option<int>, accountLimit: Option<int>)
    requires Exact(w) && i < |w.sessions|
    ensures Exact(Stepped(w, i, addressLimit, accountLimit))
  {
    var v, s := Stepped(w, i, addressLimit, accountLimit), w.sessions[i];
    ReleasesSucceed(w, i);
    forall k
      ensures AllWellFormed(v.sessions)
      ensures CountOf(v.addresses, k) == AddressTotal(v.sessions, k)
      ensures CountOf(v.accounts, k) == HeldTotal(v.sessions, k) + LeakedTotal(v.sessions, k)
    {
      StepBalancesAddresses(s, w, addressLimit, accountLimit, k);
      StepBalancesAccounts(s, w, addressLimit, accountLimit, k);
      TotalsAfterChange(w.sessions, i, SessionAfter(s, w, addressLimit, accountLimit), k);
    }
  }

  lemma ArrivalKeepsExact(w: World, address: string, accounts: seq<string>)
    requires Exact(w)
    ensures Exact(w.(sessions := w.sessions + [Session(address, accounts, Arrived)]))
  {
    var sessions := w.sessions + [Session(address, accounts, Arrived)];
    assert sessions[..|w.sessions|] == w.sessions;
  }

  /** In every run, however the sessions interleave: an address counts the sessions that hold
      it; an account counts those that hold it and those that leaked it. */
  lemma {:induction false} RunsStayExact(run: seq<World>, events: seq<Event>, i: nat)
    requires IsRun(run, events) && i < |run|
    ensures Exact(run[i])
  {
    if i > 0 {
      RunsStayExact(run, events, i - 1);
      assert Next(run[i - 1], run[i], events[i - 1]);
      match events[i - 1]
      case Arrive(address, accounts) => ArrivalKeepsExact(run[i - 1], address, accounts);
      case Step(j, addressLimit, accountLimit) => StepKeepsExact(run[i - 1], j, addressLimit, accountLimit);
    }
  }

  // ---------------------------------------------------------------------------
  // Limits
  // ---------------------------------------------------------------------------

  ghost predicate LimitedBy(event: Event, addressLimit: int, accountLimit: int) {
    event.Step? ==>
      && (event.addressLimit.Some? ==> 0 < event.addressLimit.value <= addressLimit)
      && (event.accountLimit.Some? ==> 0 < event.accountLimit.value <= accountLimit)
  }

  /** As long as the configured limits stay between 1 and a bound, so do the sessions that hold
      an address, and the holds of an account. */
  lemma {:induction false} LimitsAreKept(run: seq<World>, events: seq<Event>, i: nat, addressLimit: int, accountLimit: int, key: string)
    requires IsRun(run, events) && i < |run| && addressLimit > 0 && accountLimit > 0
    requires forall e | e in events :: LimitedBy(e, addressLimit, accountLimit)
    ensures Exact(run[i])
    ensures AddressTotal(run[i].sessions, key) <= addressLimit
    ensures HeldTotal(run[i].sessions, key) + LeakedTotal(run[i].sessions, key) <= accountLimit
  {
    RunsStayExact(run, events, i);
    if i > 0 {
      LimitsAreKept(run, events, i - 1, addressLimit, accountLimit, key);
      assert Next(run[i - 1], run[i], events[i - 1]) && LimitedBy(events[i - 1], addressLimit, accountLimit);
      assert CountOf(run[i].addresses, key) <= addressLimit;
      assert CountOf(run[i].accounts, key) <= accountLimit;
    }
  }

  /** In every state of every run: a session that has arrived gets its address exactly if the
      limit can be read and is not positive or above the number of sessions that hold it, and an
      account exactly if so is the number of its holds and leaks.  A refused account leads to the
      rejection, and nothing else does. */
  lemma AdmittedIff(run: seq<World>, events: seq<Event>, i: nat, j: nat, addressLimit: Option<int>, accountLimit: Option<int>)
    requires IsRun(run, events) && i < |run| && j < |run[i].sessions|
    ensures Exact(run[i])
    ensures var w, s := run[i], run[i].sessions[j];
            var t := Stepped(w, j, addressLimit, accountLimit).sessions[j];
            && (s.phase == Arrived ==>
                  t.phase == if addressLimit.Some?
                                && (addressLimit.value <= 0 || AddressTotal(w.sessions, s.address) < addressLimit.value)
                             then Acquiring(0) else Closed(0))
            && (s.phase.Acquiring? && s.phase.n < |s.accounts| ==>
                  var a := s.accounts[s.phase.n];
                  t.phase == if accountLimit.Some?
                                && (accountLimit.value <= 0
                                    || HeldTotal(w.sessions, a) + LeakedTotal(w.sessions, a) < accountLimit.value)
                             then Acquiring(s.phase.n + 1) else Rejected(s.phase.n))
            && (s.phase.Acquiring? && s.phase.n == |s.accounts| ==> t.phase == Releasing(0))
  {
    RunsStayExact(run, events, i);
    var w, s := run[i], run[i].sessions[j];
    assert s in w.sessions;
    assert CountOf(w.addresses, s.address) == AddressTotal(w.sessions, s.address);
    if s.phase.Acquiring? && s.phase.n < |s.accounts| {
      var a := s.accounts[s.phase.n];
      assert CountOf(w.accounts, a) == HeldTotal(w.sessions, a) + LeakedTotal(w.sessions, a);
    }
  }

  // ---------------------------------------------------------------------------
  // Leaks
  // ---------------------------------------------------------------------------

  predicate Leaks(s: Session) {
    (s.phase.Rejected? || s.phase.Closed?) && s.phase.n > 0
  }

  lemma {:induction false} LeakShows(sessions: seq<Session>, s: Session)
    requires AllWellFormed(sessions) && s in sessions && Leaks(s)
    ensures LeakedTotal(sessions, s.accounts[0]) > 0
  {
    var last := sessions[|sessions| - 1];
    if s == last {
      assert Occurrences(s.accounts[..s.phase.n], s.accounts[0]) > 0;
    } else {
      LeakShows(sessions[..|sessions| - 1], s);
    }
  }

  lemma {:induction false} WithoutLeaks(sessions: seq<Session>, account: string)
    requires AllWellFormed(sessions) && forall s | s in sessions :: !Leaks(s)
    ensures LeakedTotal(sessions, account) == 0
  {
    if sessions != [] {
      var last := sessions[|sessions| - 1];
      assert last in sessions && last.accounts[..0] == [];
      WithoutLeaks(sessions[..|sessions| - 1], account);
    }
  }

  /** The account counters agree with the sessions unless a session with several accounts was
      turned away on a later one. */
  lemma AccountsAgreeIff(run: seq<World>, events: seq<Event>, i: nat)
    requires IsRun(run, events) && i < |run|
    ensures Exact(run[i])
    ensures (forall a :: CountOf(run[i].accounts, a) == HeldTotal(run[i].sessions, a)) <==>
            forall s | s in run[i].sessions :: !Leaks(s)
    ensures (forall s | s in run[i].sessions :: |s.accounts| <= 1) ==>
              forall a :: CountOf(run[i].accounts, a) == HeldTotal(run[i].sessions, a)
  {
    RunsStayExact(run, events, i);
    var sessions := run[i].sessions;
    if s :| s in sessions && Leaks(s) {
      LeakShows(sessions, s);
      assert CountOf(run[i].accounts, s.accounts[0]) != HeldTotal(sessions, s.accounts[0]);
      assert |s.accounts| > 1;
    } else {
      forall a {
        WithoutLeaks(sessions, a);
      }
    }
  }

  /** A leak is never made good, and a limit's worth of leaks locks the account. */
  lemma LeaksStay(w: World, v: World, event: Event, account: string)
    requires Exact(w) && Next(w, v, event)
    ensures Exact(v) && LeakedTotal(v.sessions, account) >= LeakedTotal(w.sessions, account)
    ensures forall limit | 0 < limit <= LeakedTotal(w.sessions, account) :: !MayIncrease(v.accounts, account, Some(limit))
  {
    match event
    case Arrive(address, accounts) =>
      ArrivalKeepsExact(w, address, accounts);
      assert v.sessions[..|w.sessions|] == w.sessions;
    case Step(i, addressLimit, accountLimit) =>
      StepKeepsExact(w, i, addressLimit, accountLimit);
      assert v.sessions == w.sessions[i := v.sessions[i]];
      TotalsAfterChange(w.sessions, i, v.sessions[i], account);
  }

  /** One session with two accounts is enough, when the limit cannot be read for the second. */
  lemma SecondAccountMayLeakTheFirst(x: string, a: string, b: string) returns (run: seq<World>, events: seq<Event>)
    requires a != b
    ensures IsRun(run, events) && |run| == 6 && Exact(run[5])
    ensures |run[5].sessions| == 1 && run[5].sessions[0].phase == Closed(1)
    ensures CountOf(run[5].accounts, a) == 1 && HeldTotal(run[5].sessions, a) == 0
  {
    var s := Session(x, [a, b], Arrived);
    var none, one, held, limit := map[], map[x := 1], map[a := 1], Some(1);
    events := [Arrive(x, [a, b]), Step(0, limit, limit), Step(0, limit, limit), Step(0, limit, None), Step(0, limit, limit)];
    run := [World(none, none, []),
            World(none, none, [s]),
            World(one, none, [s.(phase := Acquiring(0))]),
            World(one, held, [s.(phase := Acquiring(1))]),
            World(one, held, [s.(phase := Rejected(1))]),
            World(map[x := 0], held, [s.(phase := Closed(1))])];
    assert Next(run[0], run[1], events[0]);
    assert Next(run[1], run[2], events[1]);
    assert Next(run[2], run[3], events[2]);
    assert Next(run[3], run[4], events[3]);
    assert Next(run[4], run[5], events[4]);
    RunsStayExact(run, events, 5);
    assert run[5].sessions[..0] == [];
  }

  // ---------------------------------------------------------------------------
  // One session by itself
  // ---------------------------------------------------------------------------

  ghost predicate Adds(before: Counts, after: Counts, held: seq<string>) {
    forall k :: CountOf(after, k) == CountOf(before, k) + Occurrences(held, k)
  }

  /** Account number `i` is still free when the accounts before it have been counted. */
  predicate IsFree(before: Counts, names: seq<string>, i: nat, limit: Option<int>)
    requires i < |names|
  {
    limit.Some? && (limit.value > 0 ==> CountOf(before, names[i]) + Occurrences(names[..i], names[i]) + 1 <= limit.value)
  }

  ghost predicate NonNegative(store: Counts) {
    forall k | k in store :: store[k] >= 0
  }

  /** The handler of one session that no other one interferes with. */
  class SessionHandler {
    const addresses: Counter
    const accounts: Counter

    constructor ()
      ensures fresh(addresses) && fresh(accounts) && addresses != accounts
      ensures addresses.store == map[] && accounts.store == map[]
    {
      addresses := new Counter();
      accounts := new Counter();
    }

    /** Acquires accounts until one is refused. */
    method AcquireAccounts(names: seq<string>, limit: Option<int>) returns (n: nat)
      requires NonNegative(accounts.store)
      modifies accounts
      ensures n <= |names| && Adds(old(accounts.store), accounts.store, names[..n]) && NonNegative(accounts.store)
      ensures (forall i | 0 <= i < n :: IsFree(old(accounts.store), names, i, limit))
      ensures n < |names| ==> !IsFree(old(accounts.store), names, n, limit)
    {
      for i := 0 to |names|
        invariant forall j | 0 <= j < i :: IsFree(old(accounts.store), names, j, limit)
        invariant Adds(old(accounts.store), accounts.store, names[..i]) && NonNegative(accounts.store)
      {
        forall k { AccountsSplit(names, i, k); }
        var ok := accounts.Increase(names[i], limit);
        if !ok {
          return i;
        }
      }
      return |names|;
    }

    method ReleaseAccounts(names: seq<string>, ghost before: Counts)
      requires NonNegative(before) && NonNegative(accounts.store) && Adds(before, accounts.store, names)
      modifies accounts
      ensures NonNegative(accounts.store) && Adds(before, accounts.store, [])
    {
      assert names[0..] == names;
      for i := 0 to |names|
        invariant NonNegative(accounts.store) && Adds(before, accounts.store, names[i..])
      {
        forall k { AccountsSplit(names, i, k); }
        assert CountOf(before, names[i]) >= 0;
        var ok := accounts.Decrease(names[i]);
      }
      assert names[|names|..] == [];
    }

    /** A served session leaves both counters as it found them; one that is turned away on
        account number `leaked` leaves the accounts before that one counted. */
    method Handle(address: string, names: seq<string>, addressLimit: Option<int>, accountLimit: Option<int>)
      returns (served: bool, leaked: nat)
      requires addresses != accounts && NonNegative(addresses.store) && NonNegative(accounts.store)
      modifies addresses, accounts
      ensures leaked <= |names| && (served ==> leaked == 0)
      ensures if addressLimit.Some? && (addressLimit.value > 0 ==> CountOf(old(addresses.store), address) < addressLimit.value)
              then
                && (served <==> forall i | 0 <= i < |names| :: IsFree(old(accounts.store), names, i, accountLimit))
                && (!served ==>
                      && leaked < |names| && !IsFree(old(accounts.store), names, leaked, accountLimit)
                      && forall i | 0 <= i < leaked :: IsFree(old(accounts.store), names, i, accountLimit))
              else !served && leaked == 0
      ensures Adds(old(addresses.store), addresses.store, [])
      ensures Adds(old(accounts.store), accounts.store, names[..leaked])
    {
      served := addresses.Increase(address, addressLimit);
      if !served {
        return false, 0;
      }
      ghost var before := accounts.store;
      leaked := AcquireAccounts(names, accountLimit);
      served := leaked == |names|;
      if served {
        assert names[..|names|] == names;
        ReleaseAccounts(names, before);
        leaked := 0;
      }
      var released := addresses.Decrease(address);
    }
  }
}
