/**
  Customers, stores and the loader of pthread/task3.c under every interleaving.

  Each shared read and each shared write is a step of its own: a purchase reads the stock and
  lowers the need, then zeroes the stock; a delivery reads the stock, then writes the increased
  value; `satisfied_customers++` reads, then writes. What keeps these pairs together is the store's
  mutex, taken by trylock, and the mutex of the counter.
*/
module Market {
  import opened Common
  import opened Modular

  datatype Customer =
    | Head
    | Try(i: nat)
    | Buy(i: nat)
    | Zero(i: nat, taken: int)
    | Leave(i: nat)
    | SatLock
    | SatLoad
    | SatStore(t: int)
    | SatUnlock
    | Done

  datatype Loader =
    | LTry(i: nat)
    | LLoad(i: nat)
    | LStore(i: nat, t: int)
    | LLeave(i: nat)
    | LSatLock
    | LSatTest
    | LSatUnlock(exit: bool)
    | LDone

  datatype Owner = Free | ByCustomer(c: nat) | ByLoader

  datatype Purchase = Purchase(customer: nat, store: nat, amount: int)

  /** `loads`, `purchases`, `emptied`, `early` and `late` are history. `emptied[i]`: some customer
      has zeroed store i. `early[i]` and `late[c]` count the productive purchases made at store i
      before it was first emptied, and by customer c at stores emptied before. */
  datatype State = State(
    stores: seq<int>,
    locks: seq<Owner>,
    need: seq<int>,
    customers: seq<Customer>,
    loader: Loader,
    satisfied: int,
    satLock: Owner,
    loads: nat,
    purchases: seq<Purchase>,
    emptied: seq<bool>,
    early: seq<int>,
    late: seq<int>)

  datatype Action = Shop(c: nat) | Deliver

  /** What the two `rand()` loops choose, and the loader's increment. */
  datatype Setup = Setup(stores: seq<int>, need: seq<int>, increment: int)

  predicate Proper(u: Setup) {
    && u.increment > 0
    && (forall i :: 0 <= i < |u.stores| ==> u.stores[i] >= 0)
    && (forall c :: 0 <= c < |u.need| ==> u.need[c] >= 0)
  }

  function Init(u: Setup): State {
    var n, m := |u.stores|, |u.need|;
    State(u.stores, seq(n, _ => Free), u.need, seq(m, _ => Head), LTry(0), 0, Free,
          0, [], seq(n, _ => false), seq(n, _ => 0), seq(m, _ => 0))
  }

  predicate Shaped(s: State) {
    && |s.locks| == |s.stores| == |s.emptied| == |s.early|
    && |s.need| == |s.customers| == |s.late|
    && (forall c :: 0 <= c < |s.customers| ==> StoreInRange(s.customers[c], |s.stores|))
    && LoaderInRange(s.loader, |s.stores|)
  }

  predicate StoreInRange(p: Customer, n: nat) {
    match p
    case Try(i) => i <= n
    case Buy(i) => i < n
    case Zero(i, _) => i < n
    case Leave(i) => i < n
    case _ => true
  }

  predicate LoaderInRange(p: Loader, n: nat) {
    match p
    case LTry(i) => i <= n
    case LLoad(i) => i < n
    case LStore(i, _) => i < n
    case LLeave(i) => i < n
    case _ => true
  }

  function Go(s: State, c: nat, p: Customer): State
    requires c < |s.customers|
  {
    s.(customers := s.customers[c := p])
  }

  function CustomerStep(s: State, c: nat): Option<State>
    requires Shaped(s) && c < |s.customers|
  {
    match s.customers[c]
    case Head => Some(Go(s, c, if s.need[c] > 0 then Try(0) else SatLock))
    case Try(i) =>
      Some(if i == |s.stores| then Go(s, c, Head)
           else if s.locks[i].Free? then Go(s, c, Buy(i)).(locks := s.locks[i := ByCustomer(c)])
           else Go(s, c, Try(i + 1)))
    case Buy(i) =>
      Some(Go(s, c, Zero(i, s.stores[i])).(need := s.need[c := s.need[c] - s.stores[i]]))
    case Zero(i, taken) =>
      Some(Go(s, c, Leave(i)).(
           stores := s.stores[i := 0],
           purchases := s.purchases + [Purchase(c, i, taken)],
           emptied := s.emptied[i := true],
           early := if taken != 0 && !s.emptied[i] then s.early[i := s.early[i] + 1] else s.early,
           late := if taken != 0 && s.emptied[i] then s.late[c := s.late[c] + 1] else s.late))
    case Leave(i) => Some(Go(s, c, Head).(locks := s.locks[i := Free]))
    case SatLock => if s.satLock.Free? then Some(Go(s, c, SatLoad).(satLock := ByCustomer(c))) else None
    case SatLoad => Some(Go(s, c, SatStore(s.satisfied)))
    case SatStore(t) => Some(Go(s, c, SatUnlock).(satisfied := t + 1))
    case SatUnlock => Some(Go(s, c, Done).(satLock := Free))
    case Done => None
  }

  function LoaderStep(s: State, increment: int): Option<State>
    requires Shaped(s)
  {
    match s.loader
    case LTry(i) =>
      Some(if i == |s.stores| then s.(loader := LSatLock)
           else if s.locks[i].Free? then s.(loader := LLoad(i), locks := s.locks[i := ByLoader])
           else s.(loader := LTry(i + 1)))
    case LLoad(i) => Some(s.(loader := LStore(i, s.stores[i])))
    case LStore(i, t) =>
      Some(s.(loader := LLeave(i), stores := s.stores[i := t + increment], loads := s.loads + 1))
    case LLeave(i) => Some(s.(loader := LSatLock, locks := s.locks[i := Free]))
    case LSatLock => if s.satLock.Free? then Some(s.(loader := LSatTest, satLock := ByLoader)) else None
    case LSatTest => Some(s.(loader := LSatUnlock(s.satisfied >= |s.customers|)))
    case LSatUnlock(exit) => Some(s.(loader := if exit then LDone else LTry(0), satLock := Free))
    case LDone => None
  }

  function Next(u: Setup, s: State, a: Action): Option<State> {
    if !Shaped(s) then None
    else
      match a
      case Shop(c) => if c < |s.customers| then CustomerStep(s, c) else None
      case Deliver => LoaderStep(s, u.increment)
  }

  function Run(u: Setup, s: State, schedule: seq<Action>): Option<State>
    decreases |schedule|
  {
    if schedule == [] then Some(s)
    else
      var next := Next(u, s, schedule[0]);
      if next.None? then None else Run(u, next.value, schedule[1..])
  }

  ghost predicate Reachable(u: Setup, schedule: seq<Action>, s: State) {
    Proper(u) && Run(u, Init(u), schedule) == Some(s)
  }

  // ----- Locks -----

  /** The store a thread is working in, between its trylock and its unlock. */
  function Where(p: Customer): Option<nat> {
    match p
    case Buy(i) => Some(i)
    case Zero(i, _) => Some(i)
    case Leave(i) => Some(i)
    case _ => None
  }

  function LoaderWhere(p: Loader): Option<nat> {
    match p
    case LLoad(i) => Some(i)
    case LStore(i, _) => Some(i)
    case LLeave(i) => Some(i)
    case _ => None
  }

  predicate Counting(p: Customer) {
    p.SatLoad? || p.SatStore? || p.SatUnlock?
  }

  predicate LoaderCounting(p: Loader) {
    p.LSatTest? || p.LSatUnlock?
  }

  predicate HeldRightly(s: State, i: nat)
    requires i < |s.locks|
  {
    match s.locks[i]
    case Free => true
    case ByCustomer(c) => c < |s.customers| && Where(s.customers[c]) == Some(i)
    case ByLoader => LoaderWhere(s.loader) == Some(i)
  }

  /** A store's mutex is held by exactly the thread working in that store. */
  ghost predicate StoreLocks(s: State)
    requires Shaped(s)
  {
    && (forall i :: 0 <= i < |s.locks| ==> HeldRightly(s, i))
    && (forall c :: 0 <= c < |s.customers| && Where(s.customers[c]).Some? ==>
          s.locks[Where(s.customers[c]).value] == ByCustomer(c))
    && (LoaderWhere(s.loader).Some? ==> s.locks[LoaderWhere(s.loader).value] == ByLoader)
  }

  /** So is the counter's. */
  ghost predicate CounterLock(s: State)
    requires Shaped(s)
  {
    && (forall c :: 0 <= c < |s.customers| ==> (Counting(s.customers[c]) <==> s.satLock == ByCustomer(c)))
    && (LoaderCounting(s.loader) <==> s.satLock.ByLoader?)
    && (s.satLock.ByCustomer? ==> s.satLock.c < |s.customers|)
  }

  ghost predicate FreshAt(s: State, c: nat)
    requires Shaped(s) && c < |s.customers|
  {
    match s.customers[c]
    case Zero(i, taken) => taken == s.stores[i]
    case SatStore(t) => t == s.satisfied
    case _ => true
  }

  /** A value read inside a critical section is still the stored one. */
  ghost predicate Fresh(s: State)
    requires Shaped(s)
  {
    && (forall c :: 0 <= c < |s.customers| ==> FreshAt(s, c))
    && (s.loader.LStore? ==> s.loader.t == s.stores[s.loader.i])
  }

  ghost predicate LockInv(s: State) {
    Shaped(s) && StoreLocks(s) && CounterLock(s) && Fresh(s)
  }

  lemma CustomerKeepsShape(s: State, c: nat)
    requires Shaped(s) && c < |s.customers| && CustomerStep(s, c).Some?
    ensures Shaped(CustomerStep(s, c).value)
  {
  }

  /** Only taking and leaving a store change a store's mutex. */
  lemma LocksStepwise(s: State, c: nat)
    requires Shaped(s) && c < |s.customers| && CustomerStep(s, c).Some?
    ensures var s' := CustomerStep(s, c).value; var p, p' := s.customers[c], s'.customers[c];
            && s'.loader == s.loader && s'.customers == s.customers[c := p']
            && s'.locks == (if p.Try? && p.i < |s.locks| && s.locks[p.i].Free? then s.locks[p.i := ByCustomer(c)]
                            else if p.Leave? then s.locks[p.i := Free] else s.locks)
            && Where(p') == (if p.Try? && p.i < |s.locks| && s.locks[p.i].Free? then Some(p.i)
                             else if p.Leave? then None else Where(p))
  {
  }

  lemma CustomerKeepsHolder(s: State, c: nat, i: nat)
    requires LockInv(s) && c < |s.customers| && CustomerStep(s, c).Some? && i < |s.locks|
    ensures HeldRightly(CustomerStep(s, c).value, i)
  {
    LocksStepwise(s, c);
    assert HeldRightly(s, i);
  }

  lemma CustomerKeepsStoreLocks(s: State, c: nat)
    requires LockInv(s) && c < |s.customers| && CustomerStep(s, c).Some?
    requires Shaped(CustomerStep(s, c).value)
    ensures StoreLocks(CustomerStep(s, c).value)
  {
    var s' := CustomerStep(s, c).value;
    forall i | 0 <= i < |s'.locks| ensures HeldRightly(s', i) {
      CustomerKeepsHolder(s, c, i);
    }
    match s.customers[c]
    case Try(i) =>
      if i < |s.locks| {
        assert HeldRightly(s, i);
      }
    case _ =>
  }

  lemma CustomerKeepsCounterLock(s: State, c: nat)
    requires LockInv(s) && c < |s.customers| && CustomerStep(s, c).Some?
    requires Shaped(CustomerStep(s, c).value)
    ensures CounterLock(CustomerStep(s, c).value)
  {
  }

  lemma OwnStepIsFresh(s: State, c: nat)
    requires LockInv(s) && c < |s.customers| && CustomerStep(s, c).Some?
    requires Shaped(CustomerStep(s, c).value)
    ensures FreshAt(CustomerStep(s, c).value, c)
  {
  }

  /** Nobody else writes the store, or the counter, a customer has just read. */
  lemma OthersStayFresh(s: State, c: nat, d: nat)
    requires LockInv(s) && c < |s.customers| && d < |s.customers| && d != c && CustomerStep(s, c).Some?
    requires Shaped(CustomerStep(s, c).value)
    ensures FreshAt(CustomerStep(s, c).value, d)
  {
    assert FreshAt(s, d);
    assert CustomerStep(s, c).value.customers[d] == s.customers[d];
  }

  lemma LoaderStaysFresh(s: State, c: nat)
    requires LockInv(s) && c < |s.customers| && CustomerStep(s, c).Some? && s.loader.LStore?
    ensures CustomerStep(s, c).value.stores[s.loader.i] == s.stores[s.loader.i]
  {
    assert s.locks[s.loader.i].ByLoader?;
    if s.customers[c].Zero? {
      assert s.locks[s.customers[c].i] == ByCustomer(c);
    }
  }

  lemma CustomerKeepsFresh(s: State, c: nat)
    requires LockInv(s) && c < |s.customers| && CustomerStep(s, c).Some?
    requires Shaped(CustomerStep(s, c).value)
    ensures Fresh(CustomerStep(s, c).value)
  {
    var s' := CustomerStep(s, c).value;
    forall d | 0 <= d < |s'.customers| ensures FreshAt(s', d) {
      if d == c {
        OwnStepIsFresh(s, c);
      } else {
        OthersStayFresh(s, c, d);
      }
    }
    if s.loader.LStore? {
      LoaderStaysFresh(s, c);
    }
  }

  lemma LoaderKeepsFresh(s: State, increment: int, c: nat)
    requires LockInv(s) && LoaderStep(s, increment).Some? && c < |s.customers|
    requires Shaped(LoaderStep(s, increment).value)
    ensures FreshAt(LoaderStep(s, increment).value, c)
  {
    assert FreshAt(s, c);
  }

  lemma LoaderKeepsLocks(s: State, increment: int)
    requires LockInv(s) && LoaderStep(s, increment).Some?
    ensures LockInv(LoaderStep(s, increment).value)
  {
    var s' := LoaderStep(s, increment).value;
    forall c | 0 <= c < |s'.customers| ensures FreshAt(s', c) {
      LoaderKeepsFresh(s, increment, c);
    }
    forall i | 0 <= i < |s'.locks| ensures HeldRightly(s', i) {
      assert HeldRightly(s, i);
    }
  }

  // ----- Conservation -----

  function Taken(p: Customer): int {
    if p.Zero? then p.taken else 0
  }

  /** What customers have subtracted from their need but not yet from a store. */
  function InFlight(cs: seq<Customer>): seq<int> {
    seq(|cs|, c requires 0 <= c < |cs| => Taken(cs[c]))
  }

  function Bought(ps: seq<Purchase>): int {
    if ps == [] then 0 else Bought(ps[..|ps| - 1]) + ps[|ps| - 1].amount
  }

  /** What so many deliveries bring. */
  function Delivered(increment: int, loads: nat): int {
    if loads == 0 then 0 else Delivered(increment, loads - 1) + increment
  }

  lemma {:induction false} DeliveredIsProduct(increment: int, loads: nat)
    ensures Delivered(increment, loads) == increment * loads
  {
    if loads > 0 {
      DeliveredIsProduct(increment, loads - 1);
      assert increment * loads == increment * (loads - 1) + increment;
    }
  }

  /** Stock leaves the stores only through purchases and enters only through deliveries; what was
      bought is what the needs have gone down by, up to purchases still in flight. */
  ghost predicate Conserved(u: Setup, s: State) {
    && Sum(s.stores) + Bought(s.purchases) == Sum(u.stores) + Delivered(u.increment, s.loads)
    && Bought(s.purchases) + Sum(InFlight(s.customers)) == Sum(u.need) - Sum(s.need)
  }

  lemma InFlightUpdate(cs: seq<Customer>, c: nat, p: Customer)
    requires c < |cs|
    ensures Sum(InFlight(cs[c := p])) == Sum(InFlight(cs)) - Taken(cs[c]) + Taken(p)
  {
    assert InFlight(cs[c := p]) == InFlight(cs)[c := Taken(p)];
    SumUpdate(InFlight(cs), c, Taken(p));
  }

  lemma BuyConserves(u: Setup, s: State, c: nat)
    requires Shaped(s) && Conserved(u, s) && c < |s.customers| && s.customers[c].Buy?
    ensures Conserved(u, CustomerStep(s, c).value)
  {
    var i := s.customers[c].i;
    InFlightUpdate(s.customers, c, Zero(i, s.stores[i]));
    SumUpdate(s.need, c, s.need[c] - s.stores[i]);
  }

  lemma ZeroConserves(u: Setup, s: State, c: nat)
    requires Shaped(s) && Conserved(u, s) && c < |s.customers| && s.customers[c].Zero?
    requires s.customers[c].taken == s.stores[s.customers[c].i]
    ensures Conserved(u, CustomerStep(s, c).value)
  {
    var i, taken := s.customers[c].i, s.customers[c].taken;
    InFlightUpdate(s.customers, c, Leave(i));
    SumUpdate(s.stores, i, 0);
    BoughtAppend(s.purchases, Purchase(c, i, taken));
  }

  /** Every other step moves only the customer and the mutexes. */
  lemma OtherSteps(s: State, c: nat)
    requires Shaped(s) && c < |s.customers| && CustomerStep(s, c).Some?
    requires !s.customers[c].Buy? && !s.customers[c].Zero?
    ensures var s' := CustomerStep(s, c).value;
            && s'.stores == s.stores && s'.need == s.need && s'.purchases == s.purchases
            && s'.early == s.early && s'.late == s.late && s'.loads == s.loads && s'.emptied == s.emptied
            && s'.customers == s.customers[c := s'.customers[c]] && !s'.customers[c].Zero?
  {
  }

  lemma CustomerConserves(u: Setup, s: State, c: nat)
    requires Shaped(s) && Fresh(s) && Conserved(u, s) && c < |s.customers| && CustomerStep(s, c).Some?
    ensures Conserved(u, CustomerStep(s, c).value)
  {
    if s.customers[c].Buy? {
      BuyConserves(u, s, c);
    } else if s.customers[c].Zero? {
      assert FreshAt(s, c);
      ZeroConserves(u, s, c);
    } else {
      OtherSteps(s, c);
      InFlightUpdate(s.customers, c, CustomerStep(s, c).value.customers[c]);
    }
  }

  lemma StoreConserves(u: Setup, s: State)
    requires Shaped(s) && Conserved(u, s) && s.loader.LStore? && s.loader.t == s.stores[s.loader.i]
    ensures Conserved(u, LoaderStep(s, u.increment).value)
  {
    SumUpdate(s.stores, s.loader.i, s.loader.t + u.increment);
    assert Delivered(u.increment, s.loads + 1) == Delivered(u.increment, s.loads) + u.increment;
  }

  lemma OtherLoaderSteps(s: State, increment: int)
    requires Shaped(s) && LoaderStep(s, increment).Some? && !s.loader.LStore?
    ensures var s' := LoaderStep(s, increment).value;
            && s'.stores == s.stores && s'.need == s.need && s'.purchases == s.purchases
            && s'.customers == s.customers && s'.loads == s.loads
  {
  }

  lemma LoaderConserves(u: Setup, s: State)
    requires Shaped(s) && Fresh(s) && Conserved(u, s) && LoaderStep(s, u.increment).Some?
    ensures Conserved(u, LoaderStep(s, u.increment).value)
  {
    if s.loader.LStore? {
      StoreConserves(u, s);
    } else {
      OtherLoaderSteps(s, u.increment);
    }
  }

  // ----- The purchase bound -----

  function Ceil(a: int, b: int): int
    requires b > 0
  {
    (a + b - 1) / b
  }

  lemma CeilAbove(k: int, a: int, b: int)
    requires b > 0 && k * b < a
    ensures k + 1 <= Ceil(a, b)
  {
    ModShift(a + b - 1 - (k + 1) * b, k + 1, b);
    assert (k + 1) * b == k * b + b;
  }

  lemma MultipleAtLeast(x: int, n: int)
    requires n > 0 && x > 0 && x % n == 0
    ensures x >= n
  {
    if x < n {
      SmallMod(x, n);
    }
  }

  lemma CeilExactly(a: int, b: int)
    requires b > 0
    ensures (Ceil(a, b) - 1) * b < a <= Ceil(a, b) * b
  {
    var q, r := (a + b - 1) / b, (a + b - 1) % b;
    assert a + b - 1 == q * b + r;
    assert (q - 1) * b == q * b - b;
  }

  /** A store that has been emptied holds a multiple of the increment. */
  ghost predicate StoreInv(u: Setup, s: State, i: nat)
    requires Shaped(s) && u.increment > 0 && i < |s.stores|
  {
    && s.stores[i] >= 0
    && (s.emptied[i] ==> s.stores[i] % u.increment == 0)
    && 0 <= s.early[i] <= (if s.emptied[i] then 1 else 0)
  }

  /** Each late purchase lowered the need by an increment at least, and was made while the customer
      still needed something. */
  ghost predicate CustomerInv(u: Setup, s: State, c: nat)
    requires Shaped(s) && u.increment > 0 && c < |s.customers| == |u.need|
  {
    && 0 <= s.late[c] * u.increment <= u.need[c] - s.need[c] - Taken(s.customers[c])
    && 0 <= s.late[c] <= Ceil(u.need[c], u.increment)
    && (s.customers[c].Try? || s.customers[c].Buy? ==> s.need[c] > 0)
    && (s.customers[c].Zero? ==> s.need[c] + s.customers[c].taken > 0)
  }

  /** Which purchases took something. */
  function Productive(ps: seq<Purchase>): set<nat> {
    set k: nat | k < |ps| && ps[k].amount != 0
  }

  ghost predicate BoundInv(u: Setup, s: State)
    requires Shaped(s)
  {
    && u.increment > 0 && |s.customers| == |u.need| && |s.stores| == |u.stores|
    && (forall i :: 0 <= i < |s.stores| ==> StoreInv(u, s, i))
    && (forall c :: 0 <= c < |s.customers| ==> CustomerInv(u, s, c))
    && |Productive(s.purchases)| == Sum(s.early) + Sum(s.late)
  }

  lemma OneMoreLate(late: int, taken: int, increment: int, initial: int, need: int)
    requires increment > 0 && 0 <= late && 0 <= late * increment <= initial - need - taken
    requires need + taken > 0 && taken >= increment
    ensures 0 <= (late + 1) * increment <= initial - need
    ensures late + 1 <= Ceil(initial, increment)
  {
    assert (late + 1) * increment == late * increment + increment;
    CeilAbove(late, initial, increment);
  }

  lemma ZeroKeepsItsInv(u: Setup, s: State, c: nat)
    requires LockInv(s) && BoundInv(u, s) && c < |s.customers| && s.customers[c].Zero?
    requires Shaped(CustomerStep(s, c).value)
    ensures CustomerInv(u, CustomerStep(s, c).value, c)
  {
    var i, taken := s.customers[c].i, s.customers[c].taken;
    assert CustomerInv(u, s, c) && StoreInv(u, s, i) && FreshAt(s, c);
    if taken != 0 && s.emptied[i] {
      MultipleAtLeast(taken, u.increment);
      OneMoreLate(s.late[c], taken, u.increment, u.need[c], s.need[c]);
    }
  }

  lemma BuyKeepsItsInv(u: Setup, s: State, c: nat)
    requires LockInv(s) && BoundInv(u, s) && c < |s.customers| && s.customers[c].Buy?
    requires Shaped(CustomerStep(s, c).value)
    ensures CustomerInv(u, CustomerStep(s, c).value, c)
  {
    assert CustomerInv(u, s, c) && StoreInv(u, s, s.customers[c].i);
  }

  lemma CustomerKeepsItsInv(u: Setup, s: State, c: nat)
    requires LockInv(s) && BoundInv(u, s) && c < |s.customers| && CustomerStep(s, c).Some?
    requires Shaped(CustomerStep(s, c).value)
    ensures CustomerInv(u, CustomerStep(s, c).value, c)
  {
    if s.customers[c].Buy? {
      BuyKeepsItsInv(u, s, c);
    } else if s.customers[c].Zero? {
      ZeroKeepsItsInv(u, s, c);
    } else {
      assert CustomerInv(u, s, c);
      OtherSteps(s, c);
    }
  }

  lemma CustomerKeepsStoreInv(u: Setup, s: State, c: nat, i: nat)
    requires LockInv(s) && BoundInv(u, s) && c < |s.customers| && CustomerStep(s, c).Some?
    requires Shaped(CustomerStep(s, c).value) && i < |s.stores|
    ensures StoreInv(u, CustomerStep(s, c).value, i)
  {
    assert StoreInv(u, s, i);
    SmallMod(0, u.increment);
  }

  lemma ProductiveAppend(ps: seq<Purchase>, p: Purchase)
    ensures |Productive(ps + [p])| == |Productive(ps)| + if p.amount != 0 then 1 else 0
  {
    assert Productive(ps + [p]) == Productive(ps) + if p.amount != 0 then {|ps|} else {};
  }

  lemma BoughtAppend(ps: seq<Purchase>, p: Purchase)
    ensures Bought(ps + [p]) == Bought(ps) + p.amount
  {
    assert (ps + [p])[..|ps|] == ps;
  }

  lemma OneMore(xs: seq<int>, i: nat)
    requires i < |xs|
    ensures Sum(xs[i := xs[i] + 1]) == Sum(xs) + 1
  {
    SumUpdate(xs, i, xs[i] + 1);
  }

  lemma OnlyPurchasesCount(s: State, c: nat)
    requires Shaped(s) && c < |s.customers| && CustomerStep(s, c).Some? && !s.customers[c].Zero?
    ensures var s' := CustomerStep(s, c).value;
            s'.purchases == s.purchases && s'.early == s.early && s'.late == s.late
  {
  }

  /** What leaving a store empty adds to the history. */
  lemma ZeroRecords(s: State, c: nat)
    requires Shaped(s) && c < |s.customers| && s.customers[c].Zero?
    ensures var s' := CustomerStep(s, c).value; var i, taken := s.customers[c].i, s.customers[c].taken;
            && s'.purchases == s.purchases + [Purchase(c, i, taken)]
            && (taken == 0 ==> s'.early == s.early && s'.late == s.late)
            && (taken != 0 && s.emptied[i] ==> s'.early == s.early && s'.late == s.late[c := s.late[c] + 1])
            && (taken != 0 && !s.emptied[i] ==> s'.early == s.early[i := s.early[i] + 1] && s'.late == s.late)
  {
  }

  /** A productive purchase raises one counter, early or late, by one. */
  lemma CustomerCounts(s: State, c: nat)
    requires Shaped(s) && c < |s.customers| && CustomerStep(s, c).Some?
    requires |Productive(s.purchases)| == Sum(s.early) + Sum(s.late)
    ensures var s' := CustomerStep(s, c).value;
            |Productive(s'.purchases)| == Sum(s'.early) + Sum(s'.late)
  {
    if s.customers[c].Zero? {
      var i := s.customers[c].i;
      ZeroRecords(s, c);
      ProductiveAppend(s.purchases, Purchase(c, i, s.customers[c].taken));
      OneMore(s.early, i);
      OneMore(s.late, c);
    } else {
      OnlyPurchasesCount(s, c);
    }
  }

  lemma CustomerKeepsBound(u: Setup, s: State, c: nat)
    requires LockInv(s) && BoundInv(u, s) && c < |s.customers| && CustomerStep(s, c).Some?
    requires Shaped(CustomerStep(s, c).value)
    ensures BoundInv(u, CustomerStep(s, c).value)
  {
    var s' := CustomerStep(s, c).value;
    forall i | 0 <= i < |s'.stores| ensures StoreInv(u, s', i) {
      CustomerKeepsStoreInv(u, s, c, i);
    }
    forall d | 0 <= d < |s'.customers| ensures CustomerInv(u, s', d) {
      assert CustomerInv(u, s, d);
      if d == c {
        CustomerKeepsItsInv(u, s, c);
      }
    }
    CustomerCounts(s, c);
  }

  lemma LoaderKeepsBound(u: Setup, s: State)
    requires LockInv(s) && BoundInv(u, s) && LoaderStep(s, u.increment).Some?
    requires Shaped(LoaderStep(s, u.increment).value)
    ensures BoundInv(u, LoaderStep(s, u.increment).value)
  {
    var s' := LoaderStep(s, u.increment).value;
    forall i | 0 <= i < |s'.stores| ensures StoreInv(u, s', i) {
      assert StoreInv(u, s, i);
      ModShift(s.stores[i], 1, u.increment);
    }
    forall c | 0 <= c < |s'.customers| ensures CustomerInv(u, s', c) {
      assert CustomerInv(u, s, c);
    }
  }

  // ----- The loader's exit -----

  predicate Past(p: Customer) {
    p.SatUnlock? || p.Done?
  }

  function PastFlags(cs: seq<Customer>): seq<int> {
    seq(|cs|, c requires 0 <= c < |cs| => if Past(cs[c]) then 1 else 0)
  }

  predicate Content(p: Customer) {
    p.SatLock? || p.SatLoad? || p.SatStore? || p.SatUnlock? || p.Done?
  }

  /** `satisfied` counts the customers past their increment, whose need is no longer positive. */
  ghost predicate ExitInv(s: State)
    requires Shaped(s)
  {
    && s.satisfied == Sum(PastFlags(s.customers))
    && (forall c :: 0 <= c < |s.customers| && Content(s.customers[c]) ==> s.need[c] <= 0)
    && (s.loader == LSatUnlock(true) || s.loader.LDone? ==> s.satisfied >= |s.customers|)
  }

  lemma PastUpdate(cs: seq<Customer>, c: nat, p: Customer)
    requires c < |cs|
    ensures Sum(PastFlags(cs[c := p])) ==
            Sum(PastFlags(cs)) - (if Past(cs[c]) then 1 else 0) + (if Past(p) then 1 else 0)
  {
    var flag := if Past(p) then 1 else 0;
    assert PastFlags(cs[c := p]) == PastFlags(cs)[c := flag];
    SumUpdate(PastFlags(cs), c, flag);
  }

  lemma CustomerKeepsExit(s: State, c: nat)
    requires Shaped(s) && Fresh(s) && ExitInv(s) && c < |s.customers| && CustomerStep(s, c).Some?
    requires Shaped(CustomerStep(s, c).value)
    ensures ExitInv(CustomerStep(s, c).value)
  {
    var s' := CustomerStep(s, c).value;
    assert FreshAt(s, c);
    PastUpdate(s.customers, c, s'.customers[c]);
  }

  lemma AllPast(cs: seq<Customer>)
    requires Sum(PastFlags(cs)) >= |cs|
    ensures forall c :: 0 <= c < |cs| ==> Past(cs[c])
  {
    var ones := seq(|cs|, _ => 1);
    SumConstant(ones, 1);
    SumMonotone(PastFlags(cs), ones);
    forall c | 0 <= c < |cs| ensures Past(cs[c]) {
      assert PastFlags(cs)[c] == ones[c];
    }
  }

  // ----- All runs -----

  ghost predicate Inv(u: Setup, s: State) {
    LockInv(s) && Conserved(u, s) && BoundInv(u, s) && ExitInv(s)
  }

  lemma InitInv(u: Setup)
    requires Proper(u)
    ensures Inv(u, Init(u))
  {
    var s := Init(u);
    SumConstant(s.early, 0);
    SumConstant(s.late, 0);
    SumConstant(InFlight(s.customers), 0);
    SumConstant(PastFlags(s.customers), 0);
    forall c | 0 <= c < |s.customers| ensures CustomerInv(u, s, c) {
      CeilAbove(-1, u.need[c], u.increment);
    }
    forall i | 0 <= i < |s.locks| ensures HeldRightly(s, i) {
    }
  }

  lemma LoaderKeepsExit(s: State, increment: int)
    requires Shaped(s) && ExitInv(s) && LoaderStep(s, increment).Some?
    requires Shaped(LoaderStep(s, increment).value)
    ensures ExitInv(LoaderStep(s, increment).value)
  {
  }

  lemma CustomerKeepsInv(u: Setup, s: State, c: nat)
    requires Inv(u, s) && c < |s.customers| && CustomerStep(s, c).Some?
    ensures Inv(u, CustomerStep(s, c).value)
  {
    CustomerKeepsShape(s, c);
    CustomerKeepsStoreLocks(s, c);
    CustomerKeepsCounterLock(s, c);
    CustomerKeepsFresh(s, c);
    CustomerConserves(u, s, c);
    CustomerKeepsBound(u, s, c);
    CustomerKeepsExit(s, c);
  }

  lemma InvStep(u: Setup, s: State, a: Action)
    requires Inv(u, s) && Next(u, s, a).Some?
    ensures Inv(u, Next(u, s, a).value)
  {
    match a
    case Shop(c) => CustomerKeepsInv(u, s, c);
    case Deliver =>
      LoaderKeepsLocks(s, u.increment);
      LoaderConserves(u, s);
      LoaderKeepsBound(u, s);
      LoaderKeepsExit(s, u.increment);
  }

  lemma {:induction false} RunKeepsInv(u: Setup, s: State, schedule: seq<Action>)
    requires Inv(u, s) && Run(u, s, schedule).Some?
    ensures Inv(u, Run(u, s, schedule).value)
    decreases |schedule|
  {
    if schedule != [] {
      InvStep(u, s, schedule[0]);
      RunKeepsInv(u, Next(u, s, schedule[0]).value, schedule[1..]);
    }
  }

  lemma ReachableInv(u: Setup, schedule: seq<Action>, s: State)
    requires Reachable(u, schedule, s)
    ensures Inv(u, s)
  {
    InitInv(u);
    RunKeepsInv(u, Init(u), schedule);
  }

  /** Conservation at every moment: stock plus everything bought is the initial stock plus the
      deliveries; and what was bought is what the needs went down by, but for the purchases in
      flight, of which there are none while no store is locked. */
  lemma Conservation(u: Setup, schedule: seq<Action>, s: State)
    requires Reachable(u, schedule, s)
    ensures Sum(s.stores) + (Sum(u.need) - Sum(s.need)) - Sum(InFlight(s.customers))
            == Sum(u.stores) + u.increment * s.loads
    ensures (forall i :: 0 <= i < |s.locks| ==> s.locks[i].Free?) ==>
              Sum(s.stores) + (Sum(u.need) - Sum(s.need)) == Sum(u.stores) + u.increment * s.loads
  {
    ReachableInv(u, schedule, s);
    DeliveredIsProduct(u.increment, s.loads);
    if forall i :: 0 <= i < |s.locks| ==> s.locks[i].Free? {
      forall c | 0 <= c < |s.customers| ensures InFlight(s.customers)[c] == 0 {
        assert Where(s.customers[c]).None?;
      }
      SumConstant(InFlight(s.customers), 0);
    }
  }

  function Ceils(need: seq<int>, increment: int): (r: seq<int>)
    requires increment > 0
    ensures |r| == |need|
    ensures forall c :: 0 <= c < |need| ==> (r[c] - 1) * increment < need[c] <= r[c] * increment
  {
    forall c | 0 <= c < |need|
      ensures (Ceil(need[c], increment) - 1) * increment < need[c] <= Ceil(need[c], increment) * increment
    {
      CeilExactly(need[c], increment);
    }
    seq(|need|, c requires 0 <= c < |need| => Ceil(need[c], increment))
  }

  /** Purchases that take anything are bounded over the whole run, however the threads are
      scheduled: one per store, and one per increment of each customer's initial need. */
  lemma PurchaseBound(u: Setup, schedule: seq<Action>, s: State)
    requires Reachable(u, schedule, s)
    ensures |set k: nat | k < |s.purchases| && s.purchases[k].amount != 0|
            <= |u.stores| + Sum(Ceils(u.need, u.increment))
  {
    ReachableInv(u, schedule, s);
    assert Productive(s.purchases) == set k: nat | k < |s.purchases| && s.purchases[k].amount != 0;
    var ones := seq(|s.early|, _ => 1);
    SumConstant(ones, 1);
    forall i | 0 <= i < |s.early| ensures s.early[i] <= ones[i] {
      assert StoreInv(u, s, i);
    }
    SumMonotone(s.early, ones);
    forall c | 0 <= c < |s.late| ensures s.late[c] <= Ceils(u.need, u.increment)[c] {
      assert CustomerInv(u, s, c);
    }
    SumMonotone(s.late, Ceils(u.need, u.increment));
  }

  /** When the loader has left, every customer is past its increment with nothing left to buy. */
  lemma LoaderExitIsSound(u: Setup, schedule: seq<Action>, s: State)
    requires Reachable(u, schedule, s) && s.loader.LDone?
    ensures |s.need| == |s.customers| == |u.need|
    ensures forall c :: 0 <= c < |s.customers| ==> Past(s.customers[c]) && s.need[c] <= 0
  {
    ReachableInv(u, schedule, s);
    AllPast(s.customers);
  }

  /** The counter counts: it never runs ahead of, nor lags behind, the customers past their increment. */
  lemma SatisfiedCounts(u: Setup, schedule: seq<Action>, s: State)
    requires Reachable(u, schedule, s)
    ensures s.satisfied == Sum(PastFlags(s.customers)) <= |u.need|
  {
    ReachableInv(u, schedule, s);
    var ones := seq(|s.customers|, _ => 1);
    SumConstant(ones, 1);
    SumMonotone(PastFlags(s.customers), ones);
  }

  /** A thread that cannot move holds no store: it waits for the counter's mutex or has finished. */
  lemma BlockedHoldsNoStore(u: Setup, schedule: seq<Action>, s: State, i: nat)
    requires Reachable(u, schedule, s) && i < |s.locks|
    ensures s.locks[i].ByLoader? ==> Next(u, s, Deliver).Some?
    ensures s.locks[i].ByCustomer? ==> Next(u, s, Shop(s.locks[i].c)).Some?
  {
    ReachableInv(u, schedule, s);
    assert HeldRightly(s, i);
  }

  /** Nor does anyone wait while holding the counter's mutex. */
  lemma CounterHolderCanMove(u: Setup, s: State)
    requires LockInv(s)
    ensures s.satLock.ByCustomer? ==> Next(u, s, Shop(s.satLock.c)).Some?
    ensures s.satLock.ByLoader? ==> Next(u, s, Deliver).Some?
  {
  }

  /** Exactly when a thread can move: it is stopped only by the counter's mutex and by its end. */
  lemma EnabledExactly(u: Setup, schedule: seq<Action>, s: State, c: nat)
    requires Reachable(u, schedule, s) && c < |s.customers|
    ensures Next(u, s, Shop(c)).Some? <==>
            !s.customers[c].Done? && (s.customers[c].SatLock? ==> s.satLock.Free?)
    ensures Next(u, s, Deliver).Some? <==> !s.loader.LDone? && (s.loader.LSatLock? ==> s.satLock.Free?)
  {
    ReachableInv(u, schedule, s);
  }

  /** No deadlock: a state without a next step is the end of the program. */
  lemma StuckMeansFinished(u: Setup, schedule: seq<Action>, s: State)
    requires Reachable(u, schedule, s) && (forall a :: Next(u, s, a).None?)
    ensures s.loader.LDone? && forall c :: 0 <= c < |s.customers| ==> s.customers[c].Done?
  {
    ReachableInv(u, schedule, s);
    assert Next(u, s, Deliver).None?;
    CounterHolderCanMove(u, s);
    forall c | 0 <= c < |s.customers| ensures s.customers[c].Done? {
      assert Next(u, s, Shop(c)).None?;
    }
  }

  // ----- The end can always be reached -----

  ghost predicate Finished(s: State) {
    s.loader.LDone? && forall c :: 0 <= c < |s.customers| ==> s.customers[c].Done?
  }

  ghost predicate CanFinish(u: Setup, s: State) {
    exists future :: Run(u, s, future).Some? && Finished(Run(u, s, future).value)
  }

  lemma Before(u: Setup, s: State, a: Action)
    requires Next(u, s, a).Some? && CanFinish(u, Next(u, s, a).value)
    ensures CanFinish(u, s)
  {
    var s' := Next(u, s, a).value;
    var rest :| Run(u, s', rest).Some? && Finished(Run(u, s', rest).value);
    assert ([a] + rest)[1..] == rest;
    assert Run(u, s, [a] + rest) == Run(u, s', rest);
  }

  /** What is still to be bought. */
  function Wants(need: seq<int>): seq<int> {
    seq(|need|, c requires 0 <= c < |need| => if need[c] > 0 then need[c] else 0)
  }

  /** Steps a customer may take before it is back at the head of its loop with something to buy. */
  function CustomerRank(p: Customer, n: nat): int {
    match p
    case Done => 0
    case SatUnlock => 1
    case SatStore(_) => 2
    case SatLoad => 3
    case SatLock => 4
    case Head => 5
    case Leave(_) => 6
    case Zero(_, _) => 7
    case Buy(_) => 8
    case Try(i) => if i <= n then 9 + n - i else 9
  }

  function CustomerRanks(cs: seq<Customer>, n: nat): seq<int> {
    seq(|cs|, c requires 0 <= c < |cs| => CustomerRank(cs[c], n))
  }

  /** Steps of the loader to its exit. */
  function ExitRank(p: Loader): nat {
    match p
    case LDone => 0
    case LSatUnlock(exit) => if exit then 1 else 8
    case LSatTest => 2
    case LSatLock => 3
    case LLeave(_) => 4
    case LStore(_, _) => 5
    case LLoad(_) => 6
    case LTry(_) => 7
  }

  /** Steps of the loader to the point where store 0 is stocked and free. */
  function StockRank(p: Loader, stocked: bool): nat {
    if stocked then
      match p
      case LLeave(_) => 1
      case LStore(_, _) => 2
      case LLoad(_) => 3
      case _ => 0
    else
      match p
      case LStore(i, _) => if i == 0 then 11 else 18
      case LLoad(i) => if i == 0 then 12 else 19
      case LTry(i) => if i == 0 then 13 else 20
      case LSatUnlock(_) => 14
      case LSatTest => 15
      case LSatLock => 16
      case LLeave(_) => 17
      case LDone => 10
  }

  /** Some customer waits for the counter's mutex. */
  ghost predicate SomeWaits(s: State) {
    exists c :: 0 <= c < |s.customers| && s.customers[c].SatLock?
  }

  ghost predicate AllDone(s: State) {
    forall c :: 0 <= c < |s.customers| ==> s.customers[c].Done?
  }

  ghost function LoaderRank(s: State): nat {
    if AllDone(s) then ExitRank(s.loader)
    else if SomeWaits(s) then
      if s.loader.LSatTest? then 2 else if s.loader.LSatUnlock? then 1 else 0
    else StockRank(s.loader, |s.stores| > 0 && s.stores[0] > 0)
  }

  /** The customer can take a step that leads on: it is not finished, not blocked, and not at the
      head of its loop with something to buy. */
  ghost predicate CanMove(s: State, c: nat)
    requires Shaped(s) && c < |s.customers|
  {
    CustomerStep(s, c).Some? && (s.customers[c].Head? ==> s.need[c] <= 0)
  }

  ghost function Wanted(s: State): nat {
    SumNonNegative(Wants(s.need));
    Sum(Wants(s.need))
  }

  ghost function Rank(s: State): nat
    requires Shaped(s)
  {
    SumNonNegative(CustomerRanks(s.customers, |s.stores|));
    Sum(CustomerRanks(s.customers, |s.stores|))
  }

  lemma RankUpdate(cs: seq<Customer>, c: nat, p: Customer, n: nat)
    requires c < |cs|
    ensures Sum(CustomerRanks(cs[c := p], n)) == Sum(CustomerRanks(cs, n)) - CustomerRank(cs[c], n) + CustomerRank(p, n)
  {
    assert CustomerRanks(cs[c := p], n) == CustomerRanks(cs, n)[c := CustomerRank(p, n)];
    SumUpdate(CustomerRanks(cs, n), c, CustomerRank(p, n));
  }

  lemma WantsUpdate(need: seq<int>, c: nat, x: int)
    requires c < |need|
    ensures Sum(Wants(need[c := x])) ==
            Sum(Wants(need)) - (if need[c] > 0 then need[c] else 0) + (if x > 0 then x else 0)
  {
    assert Wants(need[c := x]) == Wants(need)[c := if x > 0 then x else 0];
    SumUpdate(Wants(need), c, if x > 0 then x else 0);
  }

  /** No customer's step raises what is wanted, and buying stocked goods lowers it. */
  lemma WantedStep(u: Setup, s: State, c: nat)
    requires Inv(u, s) && c < |s.customers| && CustomerStep(s, c).Some?
    requires Shaped(CustomerStep(s, c).value)
    ensures Wanted(CustomerStep(s, c).value) <= Wanted(s)
    ensures s.customers[c].Buy? && s.stores[s.customers[c].i] > 0 ==> Wanted(CustomerStep(s, c).value) < Wanted(s)
  {
    if s.customers[c].Buy? {
      var i := s.customers[c].i;
      assert StoreInv(u, s, i) && CustomerInv(u, s, c);
      WantsUpdate(s.need, c, s.need[c] - s.stores[i]);
    }
  }

  lemma RankStep(s: State, c: nat)
    requires Shaped(s) && c < |s.customers| && CanMove(s, c)
    requires Shaped(CustomerStep(s, c).value)
    ensures Rank(CustomerStep(s, c).value) < Rank(s)
  {
    RankUpdate(s.customers, c, CustomerStep(s, c).value.customers[c], |s.stores|);
  }

  /** A customer at the head with something to buy, and store 0 stocked and free: three steps and
      less is wanted. */
  lemma BuyAtStoreZero(u: Setup, s: State, c: nat) returns (s3: State)
    requires Inv(u, s) && c < |s.customers| && s.customers[c].Head? && s.need[c] > 0
    requires |s.stores| > 0 && s.locks[0].Free? && s.stores[0] > 0
    ensures Inv(u, s3) && |s3.stores| == |s.stores| && Wanted(s3) < Wanted(s)
    ensures CanFinish(u, s3) ==> CanFinish(u, s)
  {
    var a := Shop(c);
    var s1 := Next(u, s, a).value;
    InvStep(u, s, a);
    var s2 := Next(u, s1, a).value;
    InvStep(u, s1, a);
    s3 := Next(u, s2, a).value;
    InvStep(u, s2, a);
    WantedStep(u, s2, c);
    assert s2.need == s.need;
    if CanFinish(u, s3) {
      Before(u, s2, a);
      Before(u, s1, a);
      Before(u, s, a);
    }
  }

  /** No customer can move and none can buy at store 0. */
  ghost predicate UpToLoader(s: State)
    requires Shaped(s)
  {
    && (forall c :: 0 <= c < |s.customers| ==> !CanMove(s, c))
    && ((exists c :: 0 <= c < |s.customers| && s.customers[c].Head?) ==>
          |s.stores| > 0 && !(s.locks[0].Free? && s.stores[0] > 0))
  }

  lemma HolderLeadsOn(s: State)
    requires LockInv(s) && s.satLock.ByCustomer?
    ensures CanMove(s, s.satLock.c)
  {
  }

  lemma NobodyInside(s: State)
    requires LockInv(s) && UpToLoader(s)
    ensures forall c :: 0 <= c < |s.customers| ==>
              s.customers[c].Done? || s.customers[c].Head? || (s.customers[c].SatLock? && s.satLock.ByLoader?)
    ensures forall i :: 0 <= i < |s.locks| ==> s.locks[i].Free? || LoaderWhere(s.loader) == Some(i)
  {
    forall c | 0 <= c < |s.customers|
      ensures s.customers[c].Done? || s.customers[c].Head? || s.customers[c].SatLock?
    {
      assert !CanMove(s, c);
    }
    if s.satLock.ByCustomer? {
      HolderLeadsOn(s);
    }
    forall c | 0 <= c < |s.customers| && s.customers[c].SatLock? ensures s.satLock.ByLoader? {
      assert !CanMove(s, c);
    }
    forall i | 0 <= i < |s.locks| ensures s.locks[i].Free? || LoaderWhere(s.loader) == Some(i) {
      assert HeldRightly(s, i);
    }
  }

  lemma LeadsToExit(u: Setup, s: State)
    requires Inv(u, s) && UpToLoader(s) && AllDone(s) && !s.loader.LDone?
    ensures LoaderStep(s, u.increment).Some?
    ensures ExitRank(LoaderStep(s, u.increment).value.loader) < ExitRank(s.loader)
  {
    NobodyInside(s);
    AllPastCounted(s);
  }

  lemma LeadsToCounter(u: Setup, s: State, c: nat)
    requires Inv(u, s) && UpToLoader(s) && c < |s.customers| && s.customers[c].SatLock?
    ensures s.loader.LSatTest? || s.loader.LSatUnlock?
  {
    NobodyInside(s);
  }

  lemma LeadsToStock(u: Setup, s: State, c: nat)
    requires Inv(u, s) && UpToLoader(s) && c < |s.customers| && s.customers[c].Head? && |s.stores| > 0
    requires forall d :: 0 <= d < |s.customers| ==> !s.customers[d].SatLock?
    ensures LoaderStep(s, u.increment).Some?
    ensures var s' := LoaderStep(s, u.increment).value;
            |s'.stores| > 0 && StockRank(s'.loader, s'.stores[0] > 0) < StockRank(s.loader, s.stores[0] > 0)
  {
    NobodyInside(s);
    NotAllPast(s, c);
    assert StoreInv(u, s, 0);
    assert HeldRightly(s, 0);
  }

  /** Then it is the loader's turn: it can move, and comes closer to what the customers wait for. */
  lemma LoaderLeadsOn(u: Setup, s: State)
    requires Inv(u, s) && UpToLoader(s) && !Finished(s)
    ensures LoaderStep(s, u.increment).Some?
    ensures LoaderRank(LoaderStep(s, u.increment).value) < LoaderRank(s)
  {
    if AllDone(s) {
      LeadsToExit(u, s);
    } else if SomeWaits(s) {
      var c :| 0 <= c < |s.customers| && s.customers[c].SatLock?;
      LeadsToCounter(u, s, c);
      LoaderKeepsCustomers(s, u.increment);
      assert SomeWaits(LoaderStep(s, u.increment).value);
    } else {
      var c :| 0 <= c < |s.customers| && !s.customers[c].Done?;
      NobodyInside(s);
      LeadsToStock(u, s, c);
      LoaderKeepsCustomers(s, u.increment);
    }
  }

  lemma AllPastCounted(s: State)
    requires Shaped(s) && ExitInv(s) && AllDone(s)
    ensures s.satisfied >= |s.customers|
  {
    SumConstant(PastFlags(s.customers), 1);
  }

  lemma NotAllPast(s: State, c: nat)
    requires Shaped(s) && ExitInv(s) && c < |s.customers| && !Past(s.customers[c])
    ensures s.satisfied < |s.customers|
  {
    if s.satisfied >= |s.customers| {
      AllPast(s.customers);
    }
  }

  /** The loader's steps leave the customers and their needs alone. */
  lemma LoaderKeepsCustomers(s: State, increment: int)
    requires Shaped(s) && LoaderStep(s, increment).Some?
    ensures var s' := LoaderStep(s, increment).value;
            s'.customers == s.customers && s'.need == s.need && |s'.stores| == |s.stores|
  {
  }

  /** Everyone who still needs something can be served. */
  predicate Servable(s: State) {
    |s.stores| > 0 || forall c :: 0 <= c < |s.need| ==> s.need[c] <= 0
  }

  lemma StaysServable(u: Setup, s: State, a: Action)
    requires Shaped(s) && Servable(s) && Next(u, s, a).Some?
    ensures Servable(Next(u, s, a).value)
  {
  }

  lemma {:induction false} Finishes(u: Setup, s: State)
    requires Inv(u, s) && Servable(s)
    ensures CanFinish(u, s)
    decreases Wanted(s), Rank(s), LoaderRank(s)
  {
    if c: nat :| c < |s.customers| && CanMove(s, c) {
      InvStep(u, s, Shop(c));
      StaysServable(u, s, Shop(c));
      WantedStep(u, s, c);
      RankStep(s, c);
      Finishes(u, CustomerStep(s, c).value);
      Before(u, s, Shop(c));
    } else if c: nat :| c < |s.customers| && s.customers[c].Head? && |s.stores| > 0
                        && s.locks[0].Free? && s.stores[0] > 0 {
      assert !CanMove(s, c);
      var s3 := BuyAtStoreZero(u, s, c);
      Finishes(u, s3);
    } else if Finished(s) {
      assert Run(u, s, []) == Some(s);
    } else {
      NoCustomerCan(s);
      LoaderLeadsOn(u, s);
      LoaderKeepsCustomers(s, u.increment);
      InvStep(u, s, Deliver);
      StaysServable(u, s, Deliver);
      Finishes(u, LoaderStep(s, u.increment).value);
      Before(u, s, Deliver);
    }
  }

  lemma NoCustomerCan(s: State)
    requires Shaped(s) && Servable(s)
    requires forall c: nat :: c < |s.customers| ==> !CanMove(s, c)
    requires forall c: nat :: c < |s.customers| && s.customers[c].Head? && |s.stores| > 0 && s.locks[0].Free? ==>
               s.stores[0] <= 0
    ensures UpToLoader(s)
  {
    forall c | 0 <= c < |s.customers| && s.customers[c].Head? ensures |s.stores| > 0 {
      assert !CanMove(s, c);
    }
  }

  lemma NothingToBuy(u: Setup, s: State, a: Action)
    requires Shaped(s) && |s.stores| == 0 && Next(u, s, a).Some?
    ensures Next(u, s, a).value.need == s.need && |Next(u, s, a).value.stores| == 0
  {
  }

  lemma {:induction false} NothingToBuyStays(u: Setup, s: State, schedule: seq<Action>)
    requires Inv(u, s) && |s.stores| == 0 && Run(u, s, schedule).Some?
    ensures Run(u, s, schedule).value.need == s.need
    decreases |schedule|
  {
    if schedule != [] {
      NothingToBuy(u, s, schedule[0]);
      InvStep(u, s, schedule[0]);
      NothingToBuyStays(u, Next(u, s, schedule[0]).value, schedule[1..]);
    }
  }

  /** Without stores the end needs everyone to need nothing. */
  lemma EndNeedsServable(u: Setup, s: State, future: seq<Action>)
    requires Inv(u, s) && Run(u, s, future).Some? && Finished(Run(u, s, future).value)
    ensures Servable(s)
  {
    if |s.stores| == 0 {
      RunKeepsInv(u, s, future);
      NothingToBuyStays(u, s, future);
      var end := Run(u, s, future).value;
      assert forall c :: 0 <= c < |end.customers| ==> Content(end.customers[c]);
    }
  }

  /** No livelock trap: from every state of every run some schedule ends the program, if and only if
      there is a store or nobody needs anything any more. */
  lemma EndIsReachableExactly(u: Setup, past: seq<Action>, s: State)
    requires Reachable(u, past, s)
    ensures CanFinish(u, s) <==> |u.stores| > 0 || forall c :: 0 <= c < |s.need| ==> s.need[c] <= 0
  {
    ReachableInv(u, past, s);
    if Servable(s) {
      Finishes(u, s);
    }
    if CanFinish(u, s) {
      var future :| Run(u, s, future).Some? && Finished(Run(u, s, future).value);
      EndNeedsServable(u, s, future);
    }
  }

  // ----- A pass without interference -----

  /** The first store from i on whose trylock succeeds, the number of stores if there is none. */
  function FirstFree(locks: seq<Owner>, i: nat): (j: nat)
    requires i <= |locks|
    ensures i <= j <= |locks| && (j < |locks| ==> locks[j].Free?)
    ensures forall k :: i <= k < j ==> !locks[k].Free?
    decreases |locks| - i
  {
    if i == |locks| || locks[i].Free? then i else FirstFree(locks, i + 1)
  }

  /** One round of the customer's loop as a single transaction at store j. */
  function Shopped(s: State, c: nat, j: nat): State
    requires Shaped(s) && c < |s.customers| && j <= |s.stores|
  {
    if j == |s.stores| then Go(s, c, Head)
    else
      var taken := s.stores[j];
      Go(s, c, Head).(
        stores := s.stores[j := 0],
        need := s.need[c := s.need[c] - taken],
        purchases := s.purchases + [Purchase(c, j, taken)],
        emptied := s.emptied[j := true],
        early := if taken != 0 && !s.emptied[j] then s.early[j := s.early[j] + 1] else s.early,
        late := if taken != 0 && s.emptied[j] then s.late[c := s.late[c] + 1] else s.late)
  }

  function Times(a: Action, k: nat): seq<Action> {
    if k == 0 then [] else [a] + Times(a, k - 1)
  }

  /** The four single steps in a store amount to the transaction. */
  lemma SoloVisit(u: Setup, s: State, c: nat, j: nat)
    requires Shaped(s) && c < |s.customers| && s.customers[c] == Try(j)
    requires j < |s.stores| && s.locks[j].Free?
    ensures Run(u, s, Times(Shop(c), 4)) == Some(Shopped(s, c, j))
  {
    var s1 := CustomerStep(s, c).value;
    var s2 := CustomerStep(s1, c).value;
    var s3 := CustomerStep(s2, c).value;
    var s4 := CustomerStep(s3, c).value;
    assert s4 == Shopped(s, c, j) by {
      assert s4.customers == s.customers[c := Head];
      assert s4.locks == s.locks;
    }
    RunOne(u, s, c, 3);
    RunOne(u, s1, c, 2);
    RunOne(u, s2, c, 1);
    RunOne(u, s3, c, 0);
  }

  lemma RunOne(u: Setup, s: State, c: nat, k: nat)
    requires Shaped(s) && c < |s.customers| && CustomerStep(s, c).Some?
    ensures Run(u, s, Times(Shop(c), k + 1)) == Run(u, CustomerStep(s, c).value, Times(Shop(c), k))
  {
    assert Times(Shop(c), k + 1)[1..] == Times(Shop(c), k);
  }

  lemma ShoppedForgets(s: State, c: nat, p: Customer, j: nat)
    requires Shaped(s) && c < |s.customers| && j <= |s.stores| && StoreInRange(p, |s.stores|)
    ensures Shaped(Go(s, c, p)) && Shopped(Go(s, c, p), c, j) == Shopped(s, c, j)
  {
    assert s.customers[c := p][c := Head] == s.customers[c := Head];
  }

  lemma SoloNone(u: Setup, s: State, c: nat)
    requires Shaped(s) && c < |s.customers| && s.customers[c] == Try(|s.stores|)
    ensures Run(u, s, Times(Shop(c), 1)) == Some(Shopped(s, c, |s.stores|))
  {
    RunOne(u, s, c, 0);
  }

  lemma SkipLocked(u: Setup, s: State, c: nat, i: nat, k: nat)
    requires Shaped(s) && c < |s.customers| && s.customers[c] == Try(i)
    requires i < |s.stores| && !s.locks[i].Free?
    ensures Run(u, s, Times(Shop(c), k + 1)) == Run(u, Go(s, c, Try(i + 1)), Times(Shop(c), k))
  {
    RunOne(u, s, c, k);
  }

  /** Steps of a scan from store i on, up to the head of the loop. */
  function PassLength(locks: seq<Owner>, i: nat): nat
    requires i <= |locks|
  {
    var j := FirstFree(locks, i);
    j - i + if j == |locks| then 1 else 4
  }

  lemma SkipShortens(locks: seq<Owner>, i: nat)
    requires i < |locks| && !locks[i].Free?
    ensures FirstFree(locks, i) == FirstFree(locks, i + 1)
    ensures PassLength(locks, i) == PassLength(locks, i + 1) + 1
  {
  }

  /** The fine-grained machine refines the loop: left alone, a customer that tries the stores from
      i on makes exactly one purchase, at the first free store, or none. */
  lemma {:induction false} SoloPass(u: Setup, s: State, c: nat, i: nat)
    requires Shaped(s) && c < |s.customers| && s.customers[c] == Try(i)
    ensures Run(u, s, Times(Shop(c), PassLength(s.locks, i))) == Some(Shopped(s, c, FirstFree(s.locks, i)))
    decreases |s.locks| - i
  {
    if i == |s.stores| {
      SoloNone(u, s, c);
    } else if s.locks[i].Free? {
      SoloVisit(u, s, c, i);
    } else {
      SkipShortens(s.locks, i);
      SkipLocked(u, s, c, i, PassLength(s.locks, i + 1));
      SoloPass(u, Go(s, c, Try(i + 1)), c, i + 1);
      ShoppedForgets(s, c, Try(i + 1), FirstFree(s.locks, i + 1));
    }
  }

  // ----- The loader's pass without interference -----

  /** The stock after a delivery to store j, unchanged if there is no such store. */
  function StockAfter(stores: seq<int>, j: nat, increment: int): (r: seq<int>)
    ensures |r| == |stores|
    ensures forall i :: 0 <= i < |stores| ==> r[i] == stores[i] + if i == j then increment else 0
  {
    if j < |stores| then stores[j := stores[j] + increment] else stores
  }

  /** One round of the loader's loop as a single transaction at store j. */
  function Restocked(s: State, j: nat, increment: int): State {
    s.(loader := LSatLock,
       stores := StockAfter(s.stores, j, increment),
       loads := if j < |s.stores| then s.loads + 1 else s.loads)
  }

  lemma RunDeliver(u: Setup, s: State, k: nat)
    requires Shaped(s) && LoaderStep(s, u.increment).Some?
    ensures Run(u, s, Times(Deliver, k + 1)) == Run(u, LoaderStep(s, u.increment).value, Times(Deliver, k))
  {
    assert Times(Deliver, k + 1)[1..] == Times(Deliver, k);
  }

  lemma SoloDelivery(u: Setup, s: State, j: nat)
    requires Shaped(s) && s.loader == LTry(j) && j < |s.stores| && s.locks[j].Free?
    ensures Run(u, s, Times(Deliver, 4)) == Some(Restocked(s, j, u.increment))
  {
    var s1 := LoaderStep(s, u.increment).value;
    var s2 := LoaderStep(s1, u.increment).value;
    var s3 := LoaderStep(s2, u.increment).value;
    var s4 := LoaderStep(s3, u.increment).value;
    assert s4 == Restocked(s, j, u.increment) by {
      assert s4.locks == s.locks;
    }
    RunDeliver(u, s, 3);
    RunDeliver(u, s1, 2);
    RunDeliver(u, s2, 1);
    RunDeliver(u, s3, 0);
  }

  lemma NoDelivery(u: Setup, s: State)
    requires Shaped(s) && s.loader == LTry(|s.stores|)
    ensures Run(u, s, Times(Deliver, 1)) == Some(Restocked(s, |s.stores|, u.increment))
  {
    RunDeliver(u, s, 0);
  }

  lemma {:induction false} SoloScan(u: Setup, s: State, i: nat)
    requires Shaped(s) && s.loader == LTry(i)
    ensures Run(u, s, Times(Deliver, PassLength(s.locks, i))) ==
            Some(Restocked(s, FirstFree(s.locks, i), u.increment))
    decreases |s.locks| - i
  {
    if i == |s.stores| {
      NoDelivery(u, s);
    } else if s.locks[i].Free? {
      SoloDelivery(u, s, i);
    } else {
      var next := s.(loader := LTry(i + 1));
      SkipShortens(s.locks, i);
      RunDeliver(u, s, PassLength(s.locks, i + 1));
      SoloScan(u, next, i + 1);
    }
  }

  /** Left alone, the loader that tries the stores from i on comes to the counter with one delivery
      made at the first free store, or none if and only if every store from i on is locked; locks and
      customers are as they were. */
  lemma SoloRestock(u: Setup, s: State, i: nat)
    requires Shaped(s) && s.loader == LTry(i)
    ensures var j := FirstFree(s.locks, i);
            var end := Run(u, s, Times(Deliver, PassLength(s.locks, i)));
            && end.Some? && end.value.loader.LSatLock?
            && end.value.locks == s.locks && end.value.customers == s.customers && end.value.need == s.need
            && end.value.stores == StockAfter(s.stores, j, u.increment)
            && end.value.loads == s.loads + (if exists k :: i <= k < |s.locks| && s.locks[k].Free? then 1 else 0)
  {
    SoloScan(u, s, i);
  }

  /** The shared arrays and the two loop bodies that change them. */
  class Floor {
    const stores: array<int>
    const locks: array<Owner>

    constructor (stock: seq<int>)
      ensures fresh(stores) && fresh(locks) && stores[..] == stock
      ensures locks.Length == |stock| && forall i :: 0 <= i < locks.Length ==> locks[i].Free?
    {
      stores := new int[|stock|](i requires 0 <= i < |stock| => stock[i]);
      locks := new Owner[|stock|](_ => Free);
    }

    /** A customer's for loop: it buys out the first free store. */
    method Visit(c: nat, need: int) returns (left: int, ghost at: nat)
      requires stores.Length == locks.Length
      modifies stores, locks
      ensures at == FirstFree(old(locks[..]), 0) && locks[..] == old(locks[..])
      ensures at == locks.Length ==> left == need && stores[..] == old(stores[..])
      ensures at < locks.Length ==> left == need - old(stores[..])[at] && stores[..] == old(stores[..])[at := 0]
      ensures need - left == Sum(old(stores[..])) - Sum(stores[..])
    {
      left, at := need, 0;
      var i := 0;
      while i < stores.Length
        invariant i <= stores.Length && left == need && at == i
        invariant locks[..] == old(locks[..]) && stores[..] == old(stores[..])
        invariant FirstFree(locks[..], i) == FirstFree(locks[..], 0)
      {
        if locks[i].Free? {
          locks[i] := ByCustomer(c);
          left := left - stores[i];
          SumUpdate(stores[..], i, 0);
          stores[i] := 0;
          assert stores[..] == old(stores[..])[i := 0];
          locks[i] := Free;
          assert locks[..] == old(locks[..]);
          return;
        }
        i, at := i + 1, at + 1;
      }
    }

    /** The loader's for loop: it fills up the first free store. */
    method Restock(increment: int) returns (ghost at: nat)
      requires stores.Length == locks.Length
      modifies stores, locks
      ensures at == FirstFree(old(locks[..]), 0) && locks[..] == old(locks[..])
      ensures stores[..] == StockAfter(old(stores[..]), at, increment)
    {
      at := 0;
      var i := 0;
      while i < stores.Length
        invariant i <= stores.Length && at == i
        invariant locks[..] == old(locks[..]) && stores[..] == old(stores[..])
        invariant FirstFree(locks[..], i) == FirstFree(locks[..], 0)
      {
        if locks[i].Free? {
          locks[i] := ByLoader;
          stores[i] := stores[i] + increment;
          locks[i] := Free;
          assert locks[..] == old(locks[..]);
          return;
        }
        i, at := i + 1, at + 1;
      }
    }
  }
}
