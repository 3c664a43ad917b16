/** Moving entries from legacy to namespaced keys: `migrate_namespace` of
    `contracts/resource-token/src/storage.rs`. */
module NamespaceMigration {
  import opened Words
  import opened MapSum
  import ResourceToken

  /** One generation of keys. `None` and absent entries are keys that do not exist. */
  datatype Entries = Entries(
    admin: Option<Address>,
    supply: Option<int>,
    balances: map<Address, int>,
    nonces: map<Address, int>,
    operators: map<Address, nat>)

  datatype Store = Store(legacy: Entries, named: Entries)

  function OrZero(x: Option<int>): int {
    if x.Some? then x.value else 0
  }

  /** Entries of `m` a migration of the addresses `who` moves: those present and not zero. */
  function Movable(m: map<Address, int>, who: set<Address>): map<Address, int> {
    map a | a in m && a in who && m[a] != 0 :: m[a]
  }

  /** Admin and supply, each moved only if there is something to move. */
  function SingletonsMoved(st: Store): Store {
    var st1 :=
      if st.legacy.admin.None? then st
      else Store(st.legacy.(admin := None), st.named.(admin := st.legacy.admin));
    if OrZero(st1.legacy.supply) == 0 then st1
    else Store(st1.legacy.(supply := None), st1.named.(supply := st1.legacy.supply))
  }

  function EntriesMoved(st: Store, who: set<Address>): Store {
    var balances := Movable(st.legacy.balances, who);
    var nonces := Movable(st.legacy.nonces, who);
    var operators := Restrict(st.legacy.operators, who);
    Store(
      st.legacy.(balances := st.legacy.balances - balances.Keys,
                 nonces := st.legacy.nonces - nonces.Keys,
                 operators := st.legacy.operators - operators.Keys),
      st.named.(balances := st.named.balances + balances,
                nonces := st.named.nonces + nonces,
                operators := st.named.operators + operators))
  }

  /** The effect of a migration, as a function of the set of listed addresses. */
  function Migrated(st: Store, who: set<Address>): Store {
    EntriesMoved(SingletonsMoved(st), who)
  }

  function Members(addresses: seq<Address>): set<Address> {
    set a | a in addresses
  }

  // ---------- Algebra of migrations ----------

  lemma NothingListed(st: Store)
    ensures EntriesMoved(st, Members([])) == st
  {
    assert Movable(st.legacy.balances, Members([])) == map[];
    assert Movable(st.legacy.nonces, Members([])) == map[];
    assert Restrict(st.legacy.operators, Members([])) == map[];
  }

  lemma MovableCompose(m: map<Address, int>, n: map<Address, int>, a: set<Address>, b: set<Address>)
    ensures var m' := m - Movable(m, a).Keys;
            && m' - Movable(m', b).Keys == m - Movable(m, a + b).Keys
            && n + Movable(m, a) + Movable(m', b) == n + Movable(m, a + b)
  {
    var m' := m - Movable(m, a).Keys;
    assert Movable(m, a) + Movable(m', b) == Movable(m, a + b);
  }

  lemma RestrictCompose(m: map<Address, nat>, n: map<Address, nat>, a: set<Address>, b: set<Address>)
    ensures var m' := m - Restrict(m, a).Keys;
            && m' - Restrict(m', b).Keys == m - Restrict(m, a + b).Keys
            && n + Restrict(m, a) + Restrict(m', b) == n + Restrict(m, a + b)
  {
    var m' := m - Restrict(m, a).Keys;
    assert Restrict(m, a) + Restrict(m', b) == Restrict(m, a + b);
  }

  lemma EntriesCompose(st: Store, a: set<Address>, b: set<Address>)
    ensures EntriesMoved(EntriesMoved(st, a), b) == EntriesMoved(st, a + b)
  {
    MovableCompose(st.legacy.balances, st.named.balances, a, b);
    MovableCompose(st.legacy.nonces, st.named.nonces, a, b);
    RestrictCompose(st.legacy.operators, st.named.operators, a, b);
  }

  lemma SingletonsSettle(st: Store, who: set<Address>)
    ensures SingletonsMoved(EntriesMoved(SingletonsMoved(st), who)) == EntriesMoved(SingletonsMoved(st), who)
  {
  }

  /** From any state, migrating A and then B is migrating their union in one call. */
  lemma MigrationsCompose(st: Store, a: set<Address>, b: set<Address>)
    ensures Migrated(Migrated(st, a), b) == Migrated(st, a + b)
  {
    SingletonsSettle(st, a);
    EntriesCompose(SingletonsMoved(st), a, b);
  }

  /** Repeating a migration, whole or in part, changes nothing. */
  lemma MigrationIdempotent(st: Store, a: set<Address>, b: set<Address>)
    requires b <= a
    ensures Migrated(Migrated(st, a), b) == Migrated(st, a)
  {
    MigrationsCompose(st, a, b);
    assert a + b == a;
  }

  function MigrationRun(st: Store, calls: seq<seq<Address>>): Store {
    if calls == [] then st
    else Migrated(MigrationRun(st, calls[..|calls| - 1]), Members(calls[|calls| - 1]))
  }

  function Listed(calls: seq<seq<Address>>): set<Address> {
    if calls == [] then {} else Listed(calls[..|calls| - 1]) + Members(calls[|calls| - 1])
  }

  /** A nonempty run of migrations is one migration of everyone listed in it. */
  lemma {:induction false} RunIsOneMigration(st: Store, calls: seq<seq<Address>>)
    requires calls != []
    ensures MigrationRun(st, calls) == Migrated(st, Listed(calls))
  {
    var init, last := calls[..|calls| - 1], Members(calls[|calls| - 1]);
    if init == [] {
      assert Listed(calls) == last;
    } else {
      RunIsOneMigration(st, init);
      MigrationsCompose(st, Listed(init), last);
    }
  }

  // ---------- Conservation ----------

  lemma {:induction false} AllZero(m: map<Address, int>)
    requires forall a :: a in m ==> m[a] == 0
    ensures Sum(m) == 0
    decreases |m|
  {
    if m == map[] {
    } else {
      var a :| a in m;
      SumWithout(m, a);
      AllZero(m - {a});
    }
  }

  ghost function TotalBalance(st: Store): int {
    Sum(st.legacy.balances) + Sum(st.named.balances)
  }

  /** What namespaced balances are written over by legacy ones. */
  ghost function Overwritten(st: Store, who: set<Address>): int {
    Sum(Restrict(st.named.balances, Movable(st.legacy.balances, who).Keys))
  }

  /** In every state a migration loses exactly the namespaced balances it writes over. */
  lemma MigrationAccounting(st: Store, who: set<Address>)
    ensures TotalBalance(Migrated(st, who)) == TotalBalance(st) - Overwritten(st, who)
  {
    var moved := Movable(st.legacy.balances, who);
    SumMinus(st.legacy.balances, moved.Keys);
    assert Restrict(st.legacy.balances, moved.Keys) == moved;
    SumOverlay(st.named.balances, moved);
  }

  /** The supply and balances of one key generation, as the token reads them. */
  function LedgerOf(e: Entries): ResourceToken.Ledger {
    ResourceToken.Ledger(OrZero(e.supply), e.balances)
  }

  /** Both generations satisfy the token's invariant: supply is the sum of the balances, and capped. */
  ghost predicate BothBacked(st: Store) {
    ResourceToken.Backed(LedgerOf(st.legacy)) && ResourceToken.Backed(LedgerOf(st.named))
  }

  lemma MigratedBalances(st: Store, who: set<Address>)
    ensures Sum(Migrated(st, who).named.balances)
         == Sum(st.named.balances) + Sum(Movable(st.legacy.balances, who)) - Overwritten(st, who)
  {
    SumOverlay(st.named.balances, Movable(st.legacy.balances, who));
  }

  lemma MigratedEntries(st: Store, who: set<Address>)
    requires BothBacked(st)
    ensures var after := Migrated(st, who).named;
            && OrZero(after.supply)
               == OrZero(if OrZero(st.legacy.supply) == 0 then st.named.supply else st.legacy.supply)
            && OrZero(after.supply) <= ResourceToken.MAX_SUPPLY
            && forall a :: a in after.balances ==> after.balances[a] >= 0
  {
  }

  /** Between backed generations a migration of `who` leaves the namespaced supply equal to the sum of
      its balances in exactly two cases: the legacy supply is zero and nothing is written over, or it is
      nonzero and what is not moved of the legacy supply is what survives of the namespaced one. */
  lemma MigrationKeepsBackedExactly(st: Store, who: set<Address>)
    requires BothBacked(st)
    ensures var moved := Sum(Movable(st.legacy.balances, who));
            ResourceToken.Backed(LedgerOf(Migrated(st, who).named)) <==>
              if OrZero(st.legacy.supply) == 0 then moved == Overwritten(st, who)
              else OrZero(st.legacy.supply) - moved == OrZero(st.named.supply) - Overwritten(st, who)
  {
    MigratedBalances(st, who);
    MigratedEntries(st, who);
  }

  /** Every holder of a legacy balance is listed. */
  ghost predicate ListsHolders(st: Store, who: set<Address>) {
    forall a :: a in st.legacy.balances && st.legacy.balances[a] != 0 ==> a in who
  }

  /** Every account with a namespaced balance has a legacy one to replace it. */
  ghost predicate OnlyLegacyHolders(st: Store) {
    forall a :: Get(st.named.balances, a) != 0 ==> Get(st.legacy.balances, a) != 0
  }

  lemma ListedMoveAll(st: Store, who: set<Address>)
    requires BothBacked(st) && ListsHolders(st, who)
    ensures Sum(Movable(st.legacy.balances, who)) == Sum(st.legacy.balances)
  {
    var m := st.legacy.balances;
    SumMinus(m, Movable(m, who).Keys);
    assert Restrict(m, Movable(m, who).Keys) == Movable(m, who);
    AllZero(m - Movable(m, who).Keys);
  }

  lemma ZeroSum(m: map<Address, int>)
    requires forall a :: a in m ==> m[a] >= 0
    ensures Sum(m) == 0 <==> forall a :: Get(m, a) == 0
  {
    if Sum(m) == 0 {
      forall a ensures Get(m, a) == 0 {
        SumBounds(m, a);
      }
    } else {
      if forall a :: Get(m, a) == 0 {
        forall a | a in m ensures m[a] == 0 {
          assert Get(m, a) == 0;
        }
        AllZero(m);
      }
    }
  }

  /** What of the namespaced balances a migration of all holders does not write over. */
  lemma OverwrittenAllExactly(st: Store, who: set<Address>)
    requires BothBacked(st) && ListsHolders(st, who)
    ensures Overwritten(st, who) == Sum(st.named.balances) <==> OnlyLegacyHolders(st)
  {
    var named, moved := st.named.balances, Movable(st.legacy.balances, who);
    var kept := named - moved.Keys;
    SumMinus(named, moved.Keys);
    ZeroSum(kept);
    if OnlyLegacyHolders(st) {
      forall a ensures Get(kept, a) == 0 {
        assert Get(named, a) != 0 ==> Get(st.legacy.balances, a) != 0;
      }
    } else {
      var a :| Get(named, a) != 0 && Get(st.legacy.balances, a) == 0;
      assert a in kept && Get(kept, a) != 0;
    }
  }

  /** With all holders listed the namespaced ledger stays backed exactly when there was no legacy
      supply, or every account with a namespaced balance also had a legacy one. */
  lemma FullMigrationKeepsBackedExactly(st: Store, who: set<Address>)
    requires BothBacked(st) && ListsHolders(st, who)
    ensures ResourceToken.Backed(LedgerOf(Migrated(st, who).named))
            <==> OrZero(st.legacy.supply) == 0 || OnlyLegacyHolders(st)
  {
    ListedMoveAll(st, who);
    OverwrittenAllExactly(st, who);
    MigrationKeepsBackedExactly(st, who);
    if OrZero(st.legacy.supply) == 0 {
      ZeroSum(st.legacy.balances);
      assert Movable(st.legacy.balances, who) == map[] by {
        assert forall a :: a in st.legacy.balances ==> st.legacy.balances[a] == Get(st.legacy.balances, a);
      }
      assert Restrict(st.named.balances, Movable(st.legacy.balances, who).Keys) == map[];
    }
  }

  // ---------- Mint, then migrate ----------

  /** The entries one mint of `amount` to `a` leaves in a fresh generation of keys. */
  function MintedEntries(a: Address, amount: int): Entries {
    Entries(None, Some(amount), map[a := amount], map[], map[])
  }

  lemma MintedEntriesBacked(a: Address, amount: i128)
    requires 0 < amount <= ResourceToken.MAX_SUPPLY
    ensures ResourceToken.Minted(ResourceToken.EMPTY, true, a, amount) == Ok(LedgerOf(MintedEntries(a, amount)))
    ensures ResourceToken.Backed(LedgerOf(MintedEntries(a, amount)))
    ensures Sum(MintedEntries(a, amount).balances) == amount
  {
    var empty: map<Address, int> := map[];
    SumUpdate(empty, a, amount);
    assert empty[a := amount] == map[a := amount];
  }

  /** Three units minted under legacy keys, five under namespaced keys to the same account, then the
      migration: the five vanish, from the balance and from the supply. */
  lemma MigrationAfterMintLoses(a: Address)
    ensures var st := Store(MintedEntries(a, 3), MintedEntries(a, 5));
            && BothBacked(st)
            && TotalBalance(st) == 8 && TotalBalance(Migrated(st, {a})) == 3
            && LedgerOf(Migrated(st, {a}).named) == ResourceToken.Ledger(3, map[a := 3])
  {
    var st := Store(MintedEntries(a, 3), MintedEntries(a, 5));
    MintedEntriesBacked(a, 3);
    MintedEntriesBacked(a, 5);
    assert Movable(st.legacy.balances, {a}) == st.legacy.balances;
    assert Restrict(st.named.balances, st.legacy.balances.Keys) == st.named.balances;
    MigrationAccounting(st, {a});
  }

  /** With the five minted to another account nothing is written over, but the supply is: it reads
      three while the balances sum to eight, against the documented invariant. */
  lemma MigrationAfterMintUnbacks(a: Address, b: Address)
    requires a != b
    ensures var st := Store(MintedEntries(a, 3), MintedEntries(b, 5));
            var after := Migrated(st, {a}).named;
            && BothBacked(st) && ListsHolders(st, {a})
            && OrZero(after.supply) == 3 && Sum(after.balances) == 8
            && !ResourceToken.Backed(LedgerOf(after))
  {
    var st := Store(MintedEntries(a, 3), MintedEntries(b, 5));
    MintedEntriesBacked(a, 3);
    MintedEntriesBacked(b, 5);
    assert Movable(st.legacy.balances, {a}) == st.legacy.balances;
    assert Restrict(st.named.balances, st.legacy.balances.Keys) == map[];
    MigratedBalances(st, {a});
  }

  // ---------- From legacy keys alone ----------

  ghost predicate LegacyOnly(st: Store) {
    st.named == Entries(None, None, map[], map[], map[])
  }

  /** Migrations from a legacy-only state conserve the balances at every point of the run. */
  lemma LegacyMigrationConserves(st: Store, calls: seq<seq<Address>>)
    requires LegacyOnly(st) && calls != []
    ensures TotalBalance(MigrationRun(st, calls)) == TotalBalance(st)
    ensures OrZero(MigrationRun(st, calls).named.supply) == OrZero(st.legacy.supply)
  {
    var who := Listed(calls);
    RunIsOneMigration(st, calls);
    MigrationAccounting(st, who);
    assert Restrict(st.named.balances, Movable(st.legacy.balances, who).Keys) == map[];
  }

  lemma AllMoved(st: Store, calls: seq<seq<Address>>)
    requires LegacyOnly(st) && calls != [] && ListsHolders(st, Listed(calls))
    ensures var end := MigrationRun(st, calls);
            && (forall a :: a in end.legacy.balances ==> end.legacy.balances[a] == 0)
            && forall a :: Get(end.named.balances, a) == Get(st.legacy.balances, a)
  {
    RunIsOneMigration(st, calls);
  }

  /** Once every holder was listed, the namespaced balances are the legacy ones, account by account,
      and the namespaced supply is their sum if the legacy supply was. */
  lemma LegacyMigrationCompletes(st: Store, calls: seq<seq<Address>>)
    requires LegacyOnly(st) && calls != [] && ListsHolders(st, Listed(calls))
    ensures var end := MigrationRun(st, calls);
            && (forall a :: Get(end.named.balances, a) == Get(st.legacy.balances, a))
            && Sum(end.named.balances) == Sum(st.legacy.balances)
            && (OrZero(st.legacy.supply) == Sum(st.legacy.balances) ==>
                  OrZero(end.named.supply) == Sum(end.named.balances))
  {
    LegacyMigrationConserves(st, calls);
    AllMoved(st, calls);
    AllZero(MigrationRun(st, calls).legacy.balances);
  }

  // ---------- What a run moves and leaves ----------

  /** A run of migrations leaves no administrator and no supply under legacy keys; the namespaced ones
      are the legacy ones where there were any (a supply: not zero), else what they were. */
  lemma SingletonsMoveExactly(st: Store, calls: seq<seq<Address>>)
    requires calls != []
    ensures var end := MigrationRun(st, calls);
            && end.legacy.admin == None && OrZero(end.legacy.supply) == 0
            && end.named.admin == (if st.legacy.admin.Some? then st.legacy.admin else st.named.admin)
            && OrZero(end.named.supply)
               == OrZero(if OrZero(st.legacy.supply) != 0 then st.legacy.supply else st.named.supply)
  {
    RunIsOneMigration(st, calls);
  }

  /** A balance or a nonce of a listed address: gone under its legacy key, and under the namespaced one
      the legacy value unless that was zero. Of other addresses neither changes. */
  ghost predicate MovedEntry(legacy: map<Address, int>, named: map<Address, int>,
                             legacy': map<Address, int>, named': map<Address, int>, a: Address, listed: bool)
  {
    if listed && Get(legacy, a) != 0 then a !in legacy' && a in named' && named'[a] == legacy[a]
    else
      && (a in legacy' <==> a in legacy) && (a in legacy ==> legacy'[a] == legacy[a])
      && (a in named' <==> a in named) && (a in named ==> named'[a] == named[a])
  }

  /** The same for an operator entry, which moves whatever its value. */
  ghost predicate MovedOperator(legacy: map<Address, nat>, named: map<Address, nat>,
                                legacy': map<Address, nat>, named': map<Address, nat>, a: Address, listed: bool)
  {
    if listed && a in legacy then a !in legacy' && a in named' && named'[a] == legacy[a]
    else
      && (a in legacy' <==> a in legacy) && (a in legacy ==> legacy'[a] == legacy[a])
      && (a in named' <==> a in named) && (a in named ==> named'[a] == named[a])
  }

  /** What a run of migrations does to the entries of any address, under both generations of keys. */
  lemma EntriesMoveExactly(st: Store, calls: seq<seq<Address>>, a: Address)
    requires calls != []
    ensures var end, listed := MigrationRun(st, calls), a in Listed(calls);
            && MovedEntry(st.legacy.balances, st.named.balances, end.legacy.balances, end.named.balances, a, listed)
            && MovedEntry(st.legacy.nonces, st.named.nonces, end.legacy.nonces, end.named.nonces, a, listed)
            && MovedOperator(st.legacy.operators, st.named.operators,
                             end.legacy.operators, end.named.operators, a, listed)
  {
    RunIsOneMigration(st, calls);
  }

  /** Nothing is left to migrate for the addresses `who`: no administrator, no supply, no balance,
      nonce or operator entry under legacy keys. */
  ghost predicate NothingLeft(st: Store, who: set<Address>) {
    && st.legacy.admin == None && OrZero(st.legacy.supply) == 0
    && (forall a :: a in who ==> Get(st.legacy.balances, a) == 0 && Get(st.legacy.nonces, a) == 0)
    && (forall a :: a in who ==> a !in st.legacy.operators)
  }

  /** Migrations move and do not copy: after a run nothing is left under the legacy keys it listed. */
  lemma NothingLeftBehind(st: Store, calls: seq<seq<Address>>)
    requires calls != []
    ensures NothingLeft(MigrationRun(st, calls), Listed(calls))
  {
    RunIsOneMigration(st, calls);
  }

  /** A run of migrations sets the nonce of an address back exactly when the address is listed and its
      legacy nonce, not zero, is behind the namespaced one: the replay counter returns to used values. */
  lemma NonceSetBackExactly(st: Store, calls: seq<seq<Address>>, a: Address)
    requires calls != []
    ensures Get(MigrationRun(st, calls).named.nonces, a) < Get(st.named.nonces, a) <==>
              a in Listed(calls) && Get(st.legacy.nonces, a) != 0
              && Get(st.legacy.nonces, a) < Get(st.named.nonces, a)
  {
    EntriesMoveExactly(st, calls, a);
  }

  /** A counter that stood at 7 under namespaced keys and at 1 under legacy keys stands at 1 afterwards. */
  lemma NonceSetBack(a: Address)
    ensures var st := Store(Entries(None, None, map[], map[a := 1], map[]),
                            Entries(None, None, map[], map[a := 7], map[]));
            Get(MigrationRun(st, [[a]]).named.nonces, a) == 1
  {
    var st := Store(Entries(None, None, map[], map[a := 1], map[]), Entries(None, None, map[], map[a := 7], map[]));
    assert a in Members([a]) && Listed([[a]]) == Members([a]);
    EntriesMoveExactly(st, [[a]], a);
  }

  // ---------- The loop ----------

  lemma OneMore(st: Store, addresses: seq<Address>, i: nat)
    requires i < |addresses|
    ensures EntriesMoved(EntriesMoved(st, Members(addresses[..i])), {addresses[i]})
         == EntriesMoved(st, Members(addresses[..i + 1]))
  {
    assert Members(addresses[..i + 1]) == Members(addresses[..i]) + {addresses[i]};
    EntriesCompose(st, Members(addresses[..i]), {addresses[i]});
  }

  lemma MovableOne(m: map<Address, int>, n: map<Address, int>, a: Address)
    ensures Get(m, a) != 0 ==> n + Movable(m, {a}) == n[a := m[a]] && m - Movable(m, {a}).Keys == m - {a}
    ensures Get(m, a) == 0 ==> n + Movable(m, {a}) == n && m - Movable(m, {a}).Keys == m
  {
    if Get(m, a) != 0 {
      assert Movable(m, {a}) == map[a := m[a]];
    } else {
      assert Movable(m, {a}) == map[];
    }
  }

  lemma RestrictOne(m: map<Address, nat>, n: map<Address, nat>, a: Address)
    ensures a in m ==> n + Restrict(m, {a}) == n[a := m[a]] && m - Restrict(m, {a}).Keys == m - {a}
    ensures a !in m ==> n + Restrict(m, {a}) == n && m - Restrict(m, {a}).Keys == m
  {
    if a in m {
      assert Restrict(m, {a}) == map[a := m[a]];
    } else {
      assert Restrict(m, {a}) == map[];
    }
  }

  class Storage {
    var legacy: Entries
    var named: Entries

    function Contents(): Store
      reads this
    {
      Store(legacy, named)
    }

    method MigrateNamespace(addresses: seq<Address>)
      modifies this
      ensures Contents() == Migrated(old(Contents()), Members(addresses))
    {
      if legacy.admin.Some? {
        named := named.(admin := legacy.admin);
        legacy := legacy.(admin := None);
      }
      var legacySupply := OrZero(legacy.supply);
      if legacySupply != 0 {
        named := named.(supply := Some(legacySupply));
        legacy := legacy.(supply := None);
      }
      ghost var start := Contents();
      assert start == SingletonsMoved(old(Contents()));
      var i := 0;
      NothingListed(start);
      while i < |addresses|
        invariant i <= |addresses|
        invariant Contents() == EntriesMoved(start, Members(addresses[..i]))
      {
        MigrateAddress(addresses[i]);
        OneMore(start, addresses, i);
        i := i + 1;
      }
      assert addresses[..i] == addresses;
    }

    /** The loop body: balance, nonce and operator entry of one address. */
    method MigrateAddress(a: Address)
      modifies this
      ensures Contents() == EntriesMoved(old(Contents()), {a})
    {
      MovableOne(legacy.balances, named.balances, a);
      MovableOne(legacy.nonces, named.nonces, a);
      RestrictOne(legacy.operators, named.operators, a);
      if Get(legacy.balances, a) != 0 {
        named := named.(balances := named.balances[a := legacy.balances[a]]);
        legacy := legacy.(balances := legacy.balances - {a});
      }
      if Get(legacy.nonces, a) != 0 {
        named := named.(nonces := named.nonces[a := legacy.nonces[a]]);
        legacy := legacy.(nonces := legacy.nonces - {a});
      }
      if a in legacy.operators {
        named := named.(operators := named.operators[a := legacy.operators[a]]);
        legacy := legacy.(operators := legacy.operators - {a});
      }
    }
  }
}
