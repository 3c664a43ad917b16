/** The capped mint/burn ledger: `contracts/resource-token/src/lib.rs` and the balance and supply
    accessors of `contracts/resource-token/src/storage.rs`. */
module ResourceToken {
  import opened Words
  import opened MapSum

  const MAX_SUPPLY: i128 := 1_000_000_000_000_000

  datatype TokenError =
    | NotAuthorized | AmountNotPositive | SupplyOverflow | MaxSupplyExceeded | BalanceOverflow
    | InsufficientBalance | BalanceUnderflow | SupplyUnderflow

  /** The namespaced supply and balance entries; an absent entry reads as zero. */
  datatype Ledger = Ledger(supply: int, balances: map<Address, int>)

  const EMPTY: Ledger := Ledger(0, map[])

  function Minted(l: Ledger, authorized: bool, to: Address, amount: i128): Result<Ledger, TokenError> {
    if !authorized then Err(NotAuthorized)
    else if amount <= 0 then Err(AmountNotPositive)
    else if !FitsI128(l.supply + amount) then Err(SupplyOverflow)
    else if l.supply + amount > MAX_SUPPLY then Err(MaxSupplyExceeded)
    else if !FitsI128(Get(l.balances, to) + amount) then Err(BalanceOverflow)
    else Ok(Ledger(l.supply + amount, l.balances[to := Get(l.balances, to) + amount]))
  }

  function Burned(l: Ledger, authorized: bool, from: Address, amount: i128): Result<Ledger, TokenError> {
    if !authorized then Err(NotAuthorized)
    else if amount <= 0 then Err(AmountNotPositive)
    else if Get(l.balances, from) < amount then Err(InsufficientBalance)
    else if !FitsI128(Get(l.balances, from) - amount) then Err(BalanceUnderflow)
    else if !FitsI128(l.supply - amount) then Err(SupplyUnderflow)
    else Ok(Ledger(l.supply - amount, l.balances[from := Get(l.balances, from) - amount]))
  }

  // ---------- Runs ----------

  datatype Call =
    | Mint(authorized: bool, to: Address, amount: i128)
    | Burn(authorized: bool, from: Address, amount: i128)

  function Attempt(l: Ledger, c: Call): Result<Ledger, TokenError> {
    match c
    case Mint(auth, to, amount) => Minted(l, auth, to, amount)
    case Burn(auth, from, amount) => Burned(l, auth, from, amount)
  }

  /** Calls in order from `l`; a panicking call is reverted. */
  function Run(l: Ledger, calls: seq<Call>): Ledger {
    if calls == [] then l
    else
      var before := Run(l, calls[..|calls| - 1]);
      match Attempt(before, calls[|calls| - 1])
      case Ok(after) => after
      case Err(_) => before
  }

  /** The documented invariant: the supply is the sum of nonnegative balances, and capped. */
  ghost predicate Backed(l: Ledger) {
    && l.supply == Sum(l.balances) <= MAX_SUPPLY
    && forall a :: a in l.balances ==> l.balances[a] >= 0
  }

  lemma StepKeepsBacked(l: Ledger, c: Call)
    requires Backed(l) && Attempt(l, c).Ok?
    ensures Backed(Attempt(l, c).value)
  {
    match c
    case Mint(_, to, amount) => SumUpdate(l.balances, to, Get(l.balances, to) + amount);
    case Burn(_, from, amount) => SumUpdate(l.balances, from, Get(l.balances, from) - amount);
  }

  lemma {:induction false} RunsAreBacked(calls: seq<Call>)
    ensures Backed(Run(EMPTY, calls))
  {
    if calls == [] {
    } else {
      var before := calls[..|calls| - 1];
      RunsAreBacked(before);
      if Attempt(Run(EMPTY, before), calls[|calls| - 1]).Ok? {
        StepKeepsBacked(Run(EMPTY, before), calls[|calls| - 1]);
      }
    }
  }

  /** In a reachable state a call fails only for a reason its caller can see, the first that applies;
      the arithmetic traps behind the cap check and behind the balance check never fire. */
  lemma ReachableFailures(calls: seq<Call>, c: Call)
    ensures var l, r := Run(EMPTY, calls), Attempt(Run(EMPTY, calls), c);
            match c
            case Mint(authorized, to, amount) =>
              if !authorized then r == Err(NotAuthorized)
              else if amount <= 0 then r == Err(AmountNotPositive)
              else if l.supply + amount > I128_MAX then r == Err(SupplyOverflow)
              else if l.supply + amount > 1_000_000_000_000_000 then r == Err(MaxSupplyExceeded)
              else r.Ok?
            case Burn(authorized, from, amount) =>
              if !authorized then r == Err(NotAuthorized)
              else if amount <= 0 then r == Err(AmountNotPositive)
              else if Get(l.balances, from) < amount then r == Err(InsufficientBalance)
              else r.Ok?
  {
    RunsAreBacked(calls);
    SumBounds(Run(EMPTY, calls).balances, if c.Mint? then c.to else c.from);
  }

  /** What the successful calls of a run minted to `a` less what they burned from it. */
  function NetMinted(calls: seq<Call>, a: Address): int {
    if calls == [] then 0
    else
      var before, c := calls[..|calls| - 1], calls[|calls| - 1];
      NetMinted(before, a)
      + (if Attempt(Run(EMPTY, before), c).Err? then 0
         else match c
           case Mint(_, to, amount) => if to == a then amount else 0
           case Burn(_, from, amount) => if from == a then -amount else 0)
  }

  /** Every balance is what was minted to its account less what was burned from it. */
  lemma {:induction false} BalancesAreNetMinted(calls: seq<Call>, a: Address)
    ensures Get(Run(EMPTY, calls).balances, a) == NetMinted(calls, a)
  {
    if calls == [] {
    } else {
      BalancesAreNetMinted(calls[..|calls| - 1], a);
    }
  }

  /** A burn undoes the mint of the same amount to the same account, for supply and every balance. */
  lemma BurnUndoesMint(calls: seq<Call>, a: Address, amount: i128, other: Address)
    requires Minted(Run(EMPTY, calls), true, a, amount).Ok?
    ensures var l := Run(EMPTY, calls);
            var l' := Burned(Minted(l, true, a, amount).value, true, a, amount);
            l'.Ok? && l'.value.supply == l.supply && Get(l'.value.balances, other) == Get(l.balances, other)
  {
    RunsAreBacked(calls);
    SumBounds(Run(EMPTY, calls).balances, a);
  }

  class Token {
    var totalSupply: int
    var balances: map<Address, int>

    function Contents(): Ledger
      reads this
    {
      Ledger(totalSupply, balances)
    }

    constructor ()
      ensures Contents() == EMPTY
    {
      totalSupply, balances := 0, map[];
    }

    method Mint(authorized: bool, to: Address, amount: i128) returns (r: Result<(), TokenError>)
      modifies this
      ensures match Minted(old(Contents()), authorized, to, amount)
              case Ok(l) => r == Ok(()) && Contents() == l
              case Err(e) => r == Err(e) && Contents() == old(Contents())
    {
      if !authorized {
        return Err(NotAuthorized);
      }
      if amount <= 0 {
        return Err(AmountNotPositive);
      }
      var newSupply := totalSupply + amount;
      if !FitsI128(newSupply) {
        return Err(SupplyOverflow);
      }
      if newSupply > MAX_SUPPLY {
        return Err(MaxSupplyExceeded);
      }
      var newBalance := Get(balances, to) + amount;
      if !FitsI128(newBalance) {
        return Err(BalanceOverflow);
      }
      balances := balances[to := newBalance];
      totalSupply := newSupply;
      return Ok(());
    }

    /** The balance is written before the supply is checked; a trap then undoes it. */
    method Burn(authorized: bool, from: Address, amount: i128) returns (r: Result<(), TokenError>)
      modifies this
      ensures match Burned(old(Contents()), authorized, from, amount)
              case Ok(l) => r == Ok(()) && Contents() == l
              case Err(e) => r == Err(e) && Contents() == old(Contents())
    {
      if !authorized {
        return Err(NotAuthorized);
      }
      if amount <= 0 {
        return Err(AmountNotPositive);
      }
      var before := balances;
      var currentBalance := Get(balances, from);
      if currentBalance < amount {
        return Err(InsufficientBalance);
      }
      var newBalance := currentBalance - amount;
      if !FitsI128(newBalance) {
        return Err(BalanceUnderflow);
      }
      balances := balances[from := newBalance];
      var newSupply := totalSupply - amount;
      if !FitsI128(newSupply) {
        balances := before;
        return Err(SupplyUnderflow);
      }
      totalSupply := newSupply;
      return Ok(());
    }
  }
}
