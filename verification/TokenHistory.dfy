/** Mints, burns and migrations in any order: mints and burns see only the namespaced entries, while a
    migration may still find something under legacy keys. */
module TokenHistory {
  import opened Words
  import opened MapSum
  import opened NamespaceMigration
  import ResourceToken

  datatype Action =
    | LedgerCall(call: ResourceToken.Call)
    | Migrate(addresses: seq<Address>)

  /** A failing mint or burn leaves the store as it was. */
  function Acted(st: Store, action: Action): Store {
    match action
    case LedgerCall(c) =>
      (match ResourceToken.Attempt(LedgerOf(st.named), c)
       case Ok(l) => Store(st.legacy, st.named.(supply := Some(l.supply), balances := l.balances))
       case Err(_) => st)
    case Migrate(addresses) => Migrated(st, Members(addresses))
  }

  function Run(st: Store, actions: seq<Action>): Store {
    if actions == [] then st else Acted(Run(st, actions[..|actions| - 1]), actions[|actions| - 1])
  }

  /** Every address listed by a migration of the run. */
  function Listed(actions: seq<Action>): set<Address> {
    if actions == [] then {}
    else
      var earlier := Listed(actions[..|actions| - 1]);
      match actions[|actions| - 1]
      case LedgerCall(_) => earlier
      case Migrate(addresses) => earlier + Members(addresses)
  }

  lemma OneMore(st: Store, actions: seq<Action>, action: Action)
    ensures Run(st, actions + [action]) == Acted(Run(st, actions), action)
    ensures Listed(actions + [action]) == Listed(actions) + if action.Migrate? then Members(action.addresses) else {}
  {
    assert (actions + [action])[..|actions|] == actions;
  }

  // ---------- Migrated once, migrated for good ----------

  lemma NothingLeftStep(st: Store, who: set<Address>, action: Action)
    requires NothingLeft(st, who)
    ensures NothingLeft(Acted(st, action), who)
  {
  }

  lemma MigrationLeavesNothing(st: Store, who: set<Address>)
    ensures NothingLeft(Migrated(st, who), who)
  {
  }

  lemma {:induction false} RunLeavesNothing(st: Store, actions: seq<Action>)
    requires exists i :: 0 <= i < |actions| && actions[i].Migrate?
    ensures NothingLeft(Run(st, actions), Listed(actions))
  {
    var before, last := actions[..|actions| - 1], actions[|actions| - 1];
    if exists i :: 0 <= i < |before| && before[i].Migrate? {
      RunLeavesNothing(st, before);
      NothingLeftStep(Run(st, before), Listed(before), last);
    } else {
      ListedNobody(before);
    }
    if last.Migrate? {
      MigrationLeavesNothing(Run(st, before), Members(last.addresses));
    } else {
      assert exists i :: 0 <= i < |before| && before[i].Migrate? by {
        var i :| 0 <= i < |actions| && actions[i].Migrate?;
        assert before[i] == actions[i];
      }
    }
  }

  lemma {:induction false} ListedNobody(actions: seq<Action>)
    requires forall i :: 0 <= i < |actions| ==> !actions[i].Migrate?
    ensures Listed(actions) == {}
  {
    if actions == [] {
    } else {
      ListedNobody(actions[..|actions| - 1]);
    }
  }

  lemma NothingToMigrate(st: Store, who: set<Address>)
    requires NothingLeft(st, who)
    ensures Migrated(st, who) == st
  {
    assert SingletonsMoved(st) == st;
    assert forall a :: a in st.legacy.balances && a in who ==> Get(st.legacy.balances, a) == 0;
    assert forall a :: a in st.legacy.nonces && a in who ==> Get(st.legacy.nonces, a) == 0;
    assert Movable(st.legacy.balances, who) == map[];
    assert Movable(st.legacy.nonces, who) == map[];
    assert Restrict(st.legacy.operators, who) == map[];
  }

  /** From any store and through any mints and burns, migrating addresses that were migrated before
      changes nothing: neither their entries nor the supply or the administrator. */
  lemma MigratingAgainChangesNothing(st: Store, actions: seq<Action>, addresses: seq<Address>)
    requires exists i :: 0 <= i < |actions| && actions[i].Migrate?
    requires Members(addresses) <= Listed(actions)
    ensures Run(st, actions + [Migrate(addresses)]) == Run(st, actions)
  {
    RunLeavesNothing(st, actions);
    NothingToMigrate(Run(st, actions), Members(addresses));
    OneMore(st, actions, Migrate(addresses));
  }

  /** Three units minted under legacy keys and migrated, five minted to the same account afterwards, and
      the migration repeated: supply and balance stay at eight. */
  lemma MintAfterMigrationKept(a: Address)
    ensures var st := Store(MintedEntries(a, 3), Entries(None, None, map[], map[], map[]));
            var end := Run(st, [Migrate([a]), LedgerCall(ResourceToken.Mint(true, a, 5)), Migrate([a])]);
            OrZero(end.named.supply) == 8 && Get(end.named.balances, a) == 8
  {
    var st := Store(MintedEntries(a, 3), Entries(None, None, map[], map[], map[]));
    var migrate, mint := Migrate([a]), LedgerCall(ResourceToken.Mint(true, a, 5));
    assert Members([a]) == {a};
    assert Movable(st.legacy.balances, {a}) == map[a := 3];
    assert [] + [migrate] == [migrate] && [migrate] + [mint] == [migrate, mint];
    assert [migrate, mint] + [migrate] == [migrate, mint, migrate];
    OneMore(st, [], migrate);
    OneMore(st, [migrate], mint);
    assert [migrate, mint][0].Migrate?;
    MigratingAgainChangesNothing(st, [migrate, mint], [a]);
  }

  // ---------- Backed throughout ----------

  /** The namespaced ledger is backed and no balance or supply is left to move. */
  ghost predicate Settled(st: Store) {
    && ResourceToken.Backed(LedgerOf(st.named))
    && OrZero(st.legacy.supply) == 0
    && forall a :: Get(st.legacy.balances, a) == 0
  }

  lemma SettledStep(st: Store, action: Action)
    requires Settled(st)
    ensures Settled(Acted(st, action))
  {
    match action
    case LedgerCall(c) =>
      if ResourceToken.Attempt(LedgerOf(st.named), c).Ok? {
        ResourceToken.StepKeepsBacked(LedgerOf(st.named), c);
      }
    case Migrate(addresses) =>
      assert forall a :: a in st.legacy.balances ==> Get(st.legacy.balances, a) == 0;
      assert Movable(SingletonsMoved(st).legacy.balances, Members(addresses)) == map[];
      assert LedgerOf(Migrated(st, Members(addresses)).named) == LedgerOf(st.named);
  }

  lemma FirstMigrationSettles(st: Store, addresses: seq<Address>)
    requires LegacyOnly(st) && ResourceToken.Backed(LedgerOf(st.legacy)) && ListsHolders(st, Members(addresses))
    ensures Settled(Migrated(st, Members(addresses)))
  {
    var who := Members(addresses);
    var empty: map<Address, int> := map[];
    assert Sum(empty) == 0;
    FullMigrationKeepsBackedExactly(st, who);
  }

  /** If the first action on a backed legacy ledger is a migration that lists all holders, the supply is
      the sum of the balances after every mint, burn and migration that follows. */
  lemma {:induction false} BackedThroughout(st: Store, addresses: seq<Address>, more: seq<Action>)
    requires LegacyOnly(st) && ResourceToken.Backed(LedgerOf(st.legacy)) && ListsHolders(st, Members(addresses))
    ensures Settled(Run(st, [Migrate(addresses)] + more))
    decreases |more|
  {
    var actions := [Migrate(addresses)] + more;
    if more == [] {
      assert actions[..0] == [];
      FirstMigrationSettles(st, addresses);
    } else {
      var m := more[..|more| - 1];
      assert actions[..|actions| - 1] == [Migrate(addresses)] + m;
      BackedThroughout(st, addresses, m);
      SettledStep(Run(st, [Migrate(addresses)] + m), more[|more| - 1]);
    }
  }
}
