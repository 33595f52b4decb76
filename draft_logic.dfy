/**
 * The pure part of the draft engine: the draft order built from the catalog,
 * the status a draft is in, the automatic-pick heuristic, and the bookkeeping
 * that ties the available ids to the filled slots.
 */
module DraftLogic {
  import opened Options
  import opened Players

  /** One pick of the draft order; `playerId` stays `None` until the pick is made. */
  datatype Slot = Slot(overall: int, round: int, pick: int, team: Option<string>, playerId: Option<int>)

  datatype Status = Simulating | WaitingForUser | Complete

  // ---------------------------------------------------------------------------
  // Catalog projections
  // ---------------------------------------------------------------------------

  /** Every id catalogued for the year. */
  function PlayerIdsByYear(catalog: Catalog, year: int): set<int> {
    IdSet(PlayersOfYear(catalog, year))
  }

  /** An id is catalogued for the year exactly when some row of that year carries it. */
  lemma PlayerIdsByYearMembership(catalog: Catalog, year: int, x: int)
    ensures x in PlayerIdsByYear(catalog, year) <==> exists p :: p in catalog && p.year == year && p.id == x
  {
    IdSetMembership(PlayersOfYear(catalog, year), x);
  }

  /** The unfilled slot a row with an overall number stands for. */
  function SlotOf(p: Player): Slot
    requires p.overall.Some?
  {
    Slot(p.overall.value, p.round, p.pick, p.team, None)
  }

  /** One unfilled slot per row that has an overall number, in row order. */
  function ScheduledSlots(ps: seq<Player>): (slots: seq<Slot>)
    ensures |slots| <= |ps|
  {
    if ps == [] then []
    else (if ps[0].overall.Some? then [SlotOf(ps[0])] else []) + ScheduledSlots(ps[1..])
  }

  /** ScheduledSlots leaves every slot unfilled and has a slot for exactly the rows with an overall number. */
  lemma {:induction false} ScheduledSlotsSpec(ps: seq<Player>)
    ensures forall s :: s in ScheduledSlots(ps) ==> s.playerId == None
    ensures forall p :: p in ps && p.overall.Some? ==> SlotOf(p) in ScheduledSlots(ps)
    ensures forall s :: s in ScheduledSlots(ps) ==> exists p :: p in ps && p.overall.Some? && SlotOf(p) == s
    ensures |ScheduledSlots(ps)| == |set i | 0 <= i < |ps| && ps[i].overall.Some?|
  {
    ScheduledSlotsCount(ps, |ps|);
    assert ps[..|ps|] == ps;
    if ps != [] {
      ScheduledSlotsSpec(ps[1..]);
      assert forall p :: p in ps <==> p == ps[0] || p in ps[1..];
    }
  }

  /** Scheduling the rows of `a + b` schedules those of `a`, then those of `b`. */
  lemma {:induction false} ScheduledSlotsAppend(a: seq<Player>, b: seq<Player>)
    ensures ScheduledSlots(a + b) == ScheduledSlots(a) + ScheduledSlots(b)
  {
    if a == [] {
      assert a + b == b;
    } else {
      var ab := a + b;
      assert ab[0] == a[0] && ab[1..] == a[1..] + b;
      ScheduledSlotsAppend(a[1..], b);
      assert ScheduledSlots(ab) == (if a[0].overall.Some? then [SlotOf(a[0])] else []) + ScheduledSlots(ab[1..]);
    }
  }

  /** The first `n` rows yield one slot per row among them that has an overall number. */
  lemma {:induction false} ScheduledSlotsCount(ps: seq<Player>, n: nat)
    requires n <= |ps|
    ensures |ScheduledSlots(ps[..n])| == |set i | 0 <= i < n && ps[i].overall.Some?|
  {
    if n > 0 {
      ScheduledSlotsCount(ps, n - 1);
      assert ps[..n] == ps[..n - 1] + [ps[n - 1]];
      ScheduledSlotsAppend(ps[..n - 1], [ps[n - 1]]);
      assert [ps[n - 1]][1..] == [];
      var before := set i | 0 <= i < n - 1 && ps[i].overall.Some?;
      var upto := set i | 0 <= i < n && ps[i].overall.Some?;
      if ps[n - 1].overall.Some? {
        assert upto == before + {n - 1};
      } else {
        assert upto == before;
      }
    }
  }

  ghost predicate SortedByOverall(s: seq<Slot>) {
    forall i, j :: 0 <= i < j < |s| ==> s[i].overall <= s[j].overall
  }

  /** Inserts `x` before the first slot whose overall number is not below its own. */
  function InsertByOverall(x: Slot, s: seq<Slot>): seq<Slot> {
    if s == [] || x.overall <= s[0].overall then [x] + s
    else [s[0]] + InsertByOverall(x, s[1..])
  }

  /** Insertion sort by overall number. */
  function SortByOverall(s: seq<Slot>): seq<Slot> {
    if s == [] then []
    else InsertByOverall(s[0], SortByOverall(s[1..]))
  }

  /** Inserting into a sequence sorted by overall keeps it sorted and adds exactly `x`. */
  lemma InsertByOverallSpec(x: Slot, s: seq<Slot>)
    requires SortedByOverall(s)
    ensures SortedByOverall(InsertByOverall(x, s))
    ensures multiset(InsertByOverall(x, s)) == multiset(s) + multiset{x}
  {
    InsertByOverallSorted(x, s);
    InsertByOverallPermutes(x, s);
  }

  /** Insertion adds exactly `x` to the slots. */
  lemma {:induction false} InsertByOverallPermutes(x: Slot, s: seq<Slot>)
    ensures multiset(InsertByOverall(x, s)) == multiset(s) + multiset{x}
  {
    if s != [] && s[0].overall < x.overall {
      InsertByOverallPermutes(x, s[1..]);
      assert s == [s[0]] + s[1..];
    }
  }

  /** A lower bound on the overall numbers of `x` and of `s` bounds those of the insertion too. */
  lemma {:induction false} InsertByOverallBound(x: Slot, s: seq<Slot>, b: int)
    requires b <= x.overall && forall k :: 0 <= k < |s| ==> b <= s[k].overall
    ensures forall k :: 0 <= k < |InsertByOverall(x, s)| ==> b <= InsertByOverall(x, s)[k].overall
  {
    if s != [] && s[0].overall < x.overall {
      InsertByOverallBound(x, s[1..], b);
    }
  }

  /** Insertion into a sequence sorted by overall keeps it sorted. */
  lemma {:induction false} InsertByOverallSorted(x: Slot, s: seq<Slot>)
    requires SortedByOverall(s)
    ensures SortedByOverall(InsertByOverall(x, s))
  {
    if s != [] && s[0].overall < x.overall {
      var rest := InsertByOverall(x, s[1..]);
      InsertByOverallSorted(x, s[1..]);
      InsertByOverallBound(x, s[1..], s[0].overall);
      var r := [s[0]] + rest;
      forall i, j | 0 <= i < j < |r| ensures r[i].overall <= r[j].overall {
        if i > 0 {
          assert r[i] == rest[i - 1];
        }
      }
    }
  }

  /** Sorting by overall yields a sorted permutation of its input. */
  lemma {:induction false} SortByOverallSpec(s: seq<Slot>)
    ensures SortedByOverall(SortByOverall(s))
    ensures multiset(SortByOverall(s)) == multiset(s)
  {
    if s != [] {
      SortByOverallSpec(s[1..]);
      InsertByOverallSpec(s[0], SortByOverall(s[1..]));
      assert s == [s[0]] + s[1..];
    }
  }

  /**
   * The draft order of a year: the year's scheduled slots, ascending by
   * overall; DraftOrderByYearSpec states what it holds.
   */
  function DraftOrderByYear(catalog: Catalog, year: int): seq<Slot> {
    SortByOverall(ScheduledSlots(PlayersOfYear(catalog, year)))
  }

  /**
   * The draft order of a year is sorted by overall, is a permutation of the
   * scheduled slots of the year's rows, leaves every slot unfilled, and holds
   * the slot of exactly those rows of the year that have an overall number.
   */
  lemma DraftOrderByYearSpec(catalog: Catalog, year: int)
    ensures var order := DraftOrderByYear(catalog, year);
      && SortedByOverall(order)
      && multiset(order) == multiset(ScheduledSlots(PlayersOfYear(catalog, year)))
      && (forall i :: 0 <= i < |order| ==> order[i].playerId == None)
      && (forall p :: p in catalog && p.year == year && p.overall.Some? ==> SlotOf(p) in order)
      && (forall s :: s in order ==> exists p :: p in catalog && p.year == year && p.overall.Some? && SlotOf(p) == s)
      && var rows := PlayersOfYear(catalog, year);
        |order| == |set i | 0 <= i < |rows| && rows[i].overall.Some?|
  {
    var slots := ScheduledSlots(PlayersOfYear(catalog, year));
    var order := DraftOrderByYear(catalog, year);
    SortByOverallSpec(slots);
    ScheduledSlotsSpec(PlayersOfYear(catalog, year));
    forall s ensures s in order <==> s in slots {
      assert s in order <==> s in multiset(order);
      assert s in slots <==> s in multiset(slots);
    }
    forall i | 0 <= i < |order| ensures order[i].playerId == None {
      assert order[i] in order;
    }
    assert |order| == |multiset(order)| == |multiset(slots)| == |slots|;
  }

  /** There are never more slots than ids for the year, so ids cannot run out before slots do. */
  lemma OrderFitsPlayers(catalog: Catalog, year: int)
    requires WellFormed(catalog)
    ensures |DraftOrderByYear(catalog, year)| <= |PlayerIdsByYear(catalog, year)|
  {
    var ps := PlayersOfYear(catalog, year);
    PlayersOfYearDistinct(catalog, year);
    IdSetSize(ps);
    var order := DraftOrderByYear(catalog, year);
    SortByOverallSpec(ScheduledSlots(ps));
    assert |order| == |multiset(order)| == |multiset(ScheduledSlots(ps))| == |ScheduledSlots(ps)|;
  }

  // ---------------------------------------------------------------------------
  // Status and round/pick metadata
  // ---------------------------------------------------------------------------

  /** The user is on the clock when the slot at `index` belongs to the user's team. */
  predicate UserTurn(order: seq<Slot>, index: nat, userTeam: string)
    requires index < |order|
  {
    order[index].team == Some(userTeam)
  }

  /** The status a draft at `index` is in, as recomputed after every pick. */
  function StatusOf(order: seq<Slot>, index: nat, userTeam: string): Status {
    if index >= |order| then Complete
    else if UserTurn(order, index, userTeam) then WaitingForUser
    else Simulating
  }

  /**
   * Round and pick shown for a draft at `index`: those of the slot at `index`,
   * or of the last slot once the order is exhausted; a draft that has never
   * moved past slot 0 shows round 1, pick 1.
   */
  function MetaAt(order: seq<Slot>, index: nat): (int, int) {
    var j := if index < |order| then index else |order| - 1;
    if j >= 1 then (order[j].round, order[j].pick) else (1, 1)
  }

  /**
   * After a pick, round and pick move to the next slot, or stay where they
   * were when the pick filled the last slot.
   */
  lemma MetaAfterPick(order: seq<Slot>, index: nat, pid: int)
    requires index < |order|
    ensures MetaAt(Fill(order, index, pid), index + 1)
            == if index + 1 < |order| then (order[index + 1].round, order[index + 1].pick) else MetaAt(order, index)
  {
  }

  // ---------------------------------------------------------------------------
  // Filling slots
  // ---------------------------------------------------------------------------

  /** The order with `pid` written into the slot at `index`. */
  function Fill(order: seq<Slot>, index: nat, pid: int): (r: seq<Slot>)
    requires index < |order|
    ensures |r| == |order| && r[index].playerId == Some(pid)
    ensures forall i :: 0 <= i < |order| && i != index ==> r[i] == order[i]
    ensures forall i :: 0 <= i < |order| ==> r[i].(playerId := None) == order[i].(playerId := None)
  {
    order[index := order[index].(playerId := Some(pid))]
  }

  /** The ids written into the first `n` slots. */
  function FilledIds(order: seq<Slot>, n: nat): (ids: set<int>)
    requires n <= |order|
  {
    if n == 0 then {}
    else FilledIds(order, n - 1) + (if order[n - 1].playerId.Some? then {order[n - 1].playerId.value} else {})
  }

  lemma {:induction false} FilledIdsMembership(order: seq<Slot>, n: nat, x: int)
    requires n <= |order|
    ensures x in FilledIds(order, n) <==> exists i :: 0 <= i < n && order[i].playerId == Some(x)
  {
    if n > 0 {
      FilledIdsMembership(order, n - 1, x);
      if order[n - 1].playerId == Some(x) {
        assert x in FilledIds(order, n);
      }
    }
  }

  /**
   * The bookkeeping of a draft at `index`: exactly the slots before `index`
   * are filled, no id fills two slots, no drafted id is still available, and
   * every id involved belongs to the year.
   */
  ghost predicate Ledger(ids: set<int>, available: set<int>, order: seq<Slot>, index: nat) {
    && index <= |order|
    && (forall i :: 0 <= i < index ==> order[i].playerId.Some?)
    && (forall i :: index <= i < |order| ==> order[i].playerId == None)
    && (forall i, j :: 0 <= i < j < index ==> order[i].playerId != order[j].playerId)
    && (forall i :: 0 <= i < index ==> order[i].playerId.value !in available && order[i].playerId.value in ids)
    && available <= ids
  }

  lemma {:induction false} FilledIdsSize(order: seq<Slot>, n: nat)
    requires n <= |order|
    requires forall i :: 0 <= i < n ==> order[i].playerId.Some?
    requires forall i, j :: 0 <= i < j < n ==> order[i].playerId != order[j].playerId
    ensures |FilledIds(order, n)| == n
  {
    if n > 0 {
      FilledIdsSize(order, n - 1);
      var x := order[n - 1].playerId.value;
      FilledIdsMembership(order, n - 1, x);
    }
  }

  /** The drafted ids and the available ids are disjoint parts of the year's ids. */
  lemma FilledIdsPartition(ids: set<int>, available: set<int>, order: seq<Slot>, index: nat)
    requires Ledger(ids, available, order, index)
    ensures available !! FilledIds(order, index)
    ensures available + FilledIds(order, index) <= ids
    ensures |FilledIds(order, index)| == index
  {
    forall x | x in FilledIds(order, index) ensures x !in available && x in ids {
      FilledIdsMembership(order, index, x);
    }
    FilledIdsSize(order, index);
  }

  /**
   * Conservation: the available ids and the drafted slots never outnumber the
   * year's ids, and when every id is either available or drafted,
   * |available| + index is exactly the number of ids of the year.
   */
  lemma Conservation(ids: set<int>, available: set<int>, order: seq<Slot>, index: nat)
    requires Ledger(ids, available, order, index)
    ensures |available| + index <= |ids|
    ensures available + FilledIds(order, index) == ids ==> |available| + index == |ids|
  {
    FilledIdsPartition(ids, available, order, index);
    var filled := FilledIds(order, index);
    assert |available + filled| == |available| + |filled|;
    SubsetSize(available + filled, ids);
  }

  /** Conversely, when |available| + index is the number of ids, every id is available or drafted. */
  lemma EveryIdAccounted(ids: set<int>, available: set<int>, order: seq<Slot>, index: nat)
    requires Ledger(ids, available, order, index)
    requires |available| + index == |ids|
    ensures available + FilledIds(order, index) == ids
  {
    FilledIdsPartition(ids, available, order, index);
    var filled := FilledIds(order, index);
    assert |available + filled| == |available| + |filled|;
    SubsetSize(available + filled, ids);
  }

  /** A subset is no larger than its superset, and one as large is the superset itself. */
  lemma SubsetSize(a: set<int>, b: set<int>)
    requires a <= b
    ensures |a| <= |b|
    ensures |a| == |b| ==> a == b
  {
    assert b == a + (b - a);
    assert a * (b - a) == {};
    if |a| == |b| {
      assert |b - a| == 0;
    }
  }

  /** Drafting an available id into the slot at `index` keeps the bookkeeping. */
  lemma PickKeepsLedger(ids: set<int>, available: set<int>, order: seq<Slot>, index: nat, pid: int)
    requires Ledger(ids, available, order, index)
    requires pid in available && index < |order|
    ensures Ledger(ids, available - {pid}, Fill(order, index, pid), index + 1)
  {
  }

  /**
   * The bookkeeping a draft keeps: the ledger holds, there are no more slots
   * than ids, and while there is a slot, |available| + index is the number of
   * ids of the year.
   */
  ghost predicate Books(ids: set<int>, available: set<int>, order: seq<Slot>, index: nat) {
    && Ledger(ids, available, order, index)
    && |order| <= |ids|
    && (|order| > 0 ==> |available| + index == |ids|)
  }

  /** A pick keeps the books, and afterwards |available| + index is the number of ids of the year. */
  lemma PickKeepsBooks(ids: set<int>, available: set<int>, order: seq<Slot>, index: nat, pid: int)
    requires Books(ids, available, order, index)
    requires pid in available && index < |order|
    ensures Books(ids, available - {pid}, Fill(order, index, pid), index + 1)
    ensures |available - {pid}| + (index + 1) == |ids|
  {
    PickKeepsLedger(ids, available, order, index, pid);
  }

  /**
   * While slots remain and every id is available or drafted, somebody is
   * still available: the automatic-pick loop cannot stall.
   */
  lemma SlotsRemainImplyAvailable(ids: set<int>, available: set<int>, order: seq<Slot>, index: nat)
    requires Ledger(ids, available, order, index)
    requires available + FilledIds(order, index) == ids
    requires |order| <= |ids|
    requires index < |order|
    ensures available != {}
  {
    Conservation(ids, available, order, index);
  }

  /**
   * A catalog without unique ids per year: one id sits on the rows of overall
   * 1 and 2 of the year 2000, both of team A.
   */
  function StallingCatalog(): Catalog {
    [Player(5, 2000, Some(1), 1, 1, Some("A"), None, None, None),
     Player(5, 2000, Some(2), 1, 2, Some("A"), None, None, None)]
  }

  /** That catalog's rows of 2000 are the whole catalog, with the one id 5. */
  lemma StallingCatalogIds()
    ensures var c := StallingCatalog();
      && !WellFormed(c)
      && PlayersOfYear(c, 2000) == c
      && PlayerIdsByYear(c, 2000) == {5}
  {
    var c := StallingCatalog();
    var a, b := c[0], c[1];
    assert c[0].id == c[1].id && c[0].year == c[1].year;
    assert c[1..] == [b] && [b][1..] == [];
    assert PlayersOfYear([b], 2000) == [b];
    assert PlayersOfYear(c, 2000) == [a] + PlayersOfYear([b], 2000) == c;
    assert IdSet([b]) == {5} + IdSet([]) == {5};
    assert IdSet(c) == {5} + IdSet([b]) == {5};
  }

  /** That catalog has two slots for 2000, in the order of its rows. */
  lemma StallingCatalogOrder()
    ensures var c := StallingCatalog();
      DraftOrderByYear(c, 2000) == [SlotOf(c[0]), SlotOf(c[1])]
  {
    var c := StallingCatalog();
    StallingCatalogIds();
    var a, b := c[0], c[1];
    assert c[1..] == [b] && [b][1..] == [];
    var sa, sb := SlotOf(a), SlotOf(b);
    assert ScheduledSlots([b]) == [sb];
    assert ScheduledSlots(c) == [sa, sb];
    assert [sa, sb][1..] == [sb] && [sb][1..] == [];
    assert SortByOverall([sb]) == InsertByOverall(sb, []) == [sb];
    assert InsertByOverall(sa, [sb]) == [sa, sb];
    assert SortByOverall([sa, sb]) == InsertByOverall(sa, SortByOverall([sb]));
  }

  /** On that catalog, id 5 is picked for slot 0, and nobody is left to pick for slot 1. */
  lemma StallingChoices()
    ensures var c := StallingCatalog();
      && SimulatedChoice(c, 0, {5}) == Some(c[0])
      && SimulatedChoice(c, 1, {5} - {5}) == None
  {
    var c := StallingCatalog();
    assert {5} - {5} == {};
    assert c[1..] == [c[1]] && [c[1]][1..] == [];
    assert Pool([c[1]], {}) == [];
    assert Pool(c, {}) == [];
  }

  /**
   * Without unique ids the count fails and the loop stalls. With the user on
   * team B, the first simulated pick drafts the year's only id; then nobody is
   * available while team A is still on the clock in slot 1, so the simulated
   * pick finds nobody and the recomputed status stays Simulating.
   */
  lemma DuplicateIdsStall()
    ensures var c := StallingCatalog();
      var rows := PlayersOfYear(c, 2000);
      var ids := PlayerIdsByYear(c, 2000);
      var order := DraftOrderByYear(c, 2000);
      && !WellFormed(c)
      && |order| == 2 && ids == {5}
      && SimulatedChoice(rows, 0, ids) == Some(c[0])
      && SimulatedChoice(rows, 1, ids - {c[0].id}) == None
      && StatusOf(Fill(order, 0, c[0].id), 1, "B") == Simulating
  {
    StallingCatalogIds();
    StallingCatalogOrder();
    StallingChoices();
  }

  // ---------------------------------------------------------------------------
  // Automatic-pick heuristic
  // ---------------------------------------------------------------------------

  /** The row scheduled for overall number `overall`: the first row with that overall. */
  function Scheduled(players: seq<Player>, overall: int): Option<Player> {
    if players == [] then None
    else if players[0].overall == Some(overall) then Some(players[0])
    else Scheduled(players[1..], overall)
  }

  /** The scheduled row is a row with that overall number, and there is none only when no row has it. */
  lemma {:induction false} ScheduledSpec(players: seq<Player>, overall: int)
    ensures var r := Scheduled(players, overall);
      && (r.Some? ==> r.value in players && r.value.overall == Some(overall))
      && (r.None? ==> forall p :: p in players ==> p.overall != Some(overall))
  {
    if players != [] {
      ScheduledSpec(players[1..], overall);
      assert forall p :: p in players <==> p == players[0] || p in players[1..];
    }
  }

  /** The scheduled row is the first row with that overall number, as the source's `row.index[0]` takes it. */
  lemma {:induction false} ScheduledIsFirst(players: seq<Player>, overall: int)
    ensures var r := Scheduled(players, overall);
      r.Some? ==> exists k :: 0 <= k < |players| && players[k] == r.value &&
                    forall j :: 0 <= j < k ==> players[j].overall != Some(overall)
  {
    if players != [] && players[0].overall != Some(overall) {
      ScheduledIsFirst(players[1..], overall);
      var r := Scheduled(players, overall);
      if r.Some? {
        var k :| 0 <= k < |players[1..]| && players[1..][k] == r.value &&
                 forall j :: 0 <= j < k ==> players[1..][j].overall != Some(overall);
        assert players[k + 1] == r.value;
        assert forall j :: 0 <= j < k + 1 ==> players[j].overall != Some(overall) by {
          forall j | 0 <= j < k + 1 ensures players[j].overall != Some(overall) {
            if j > 0 {
              assert players[j] == players[1..][j - 1];
            }
          }
        }
      }
    }
  }

  /** The rows whose id is still available, in row order. */
  function Pool(players: seq<Player>, available: set<int>): seq<Player> {
    if players == [] then []
    else (if players[0].id in available then [players[0]] else []) + Pool(players[1..], available)
  }

  /** The pool holds exactly the rows whose id is available. */
  lemma {:induction false} PoolSpec(players: seq<Player>, available: set<int>)
    ensures forall p :: p in Pool(players, available) <==> p in players && p.id in available
  {
    if players != [] {
      PoolSpec(players[1..], available);
      assert forall p :: p in players <==> p == players[0] || p in players[1..];
    }
  }

  /** The rows of `pool` at the given position. */
  function AtPosition(pool: seq<Player>, position: string): seq<Player> {
    if pool == [] then []
    else (if pool[0].position == Some(position) then [pool[0]] else []) + AtPosition(pool[1..], position)
  }

  /** The same-position pool holds exactly the pool's rows at that position. */
  lemma {:induction false} AtPositionSpec(pool: seq<Player>, position: string)
    ensures forall p :: p in AtPosition(pool, position) <==> p in pool && p.position == Some(position)
  {
    if pool != [] {
      AtPositionSpec(pool[1..], position);
      assert forall p :: p in pool <==> p == pool[0] || p in pool[1..];
    }
  }

  /** The position to fill: that of the scheduled row, unless it is missing or empty. */
  function TargetPosition(row: Option<Player>): Option<string> {
    if row.Some? && row.value.position.Some? && row.value.position.value != "" then row.value.position
    else None
  }

  datatype RankKind = PositionRank | OverallRank

  function Rank(p: Player, kind: RankKind): Option<int> {
    match kind
    case PositionRank => p.posRk
    case OverallRank => p.ovrRk
  }

  /** Rank order with missing ranks sorted last. */
  predicate RankLe(a: Option<int>, b: Option<int>) {
    b.None? || (a.Some? && a.value <= b.value)
  }

  /** The first row of `pool` with the smallest rank of the given kind. */
  function BestBy(pool: seq<Player>, kind: RankKind): Player
    requires pool != []
  {
    if |pool| == 1 then pool[0]
    else
      var rest := BestBy(pool[1..], kind);
      if RankLe(Rank(pool[0], kind), Rank(rest, kind)) then pool[0] else rest
  }

  /** The chosen row is in the pool and no row of the pool ranks strictly better. */
  lemma {:induction false} BestBySpec(pool: seq<Player>, kind: RankKind)
    requires pool != []
    ensures var best := BestBy(pool, kind);
      && best in pool
      && forall q :: q in pool ==> RankLe(Rank(best, kind), Rank(q, kind))
  {
    if |pool| > 1 {
      BestBySpec(pool[1..], kind);
      assert forall q :: q in pool <==> q == pool[0] || q in pool[1..];
    }
  }

  /** The scheduled row for the pick at `index` exists and is still available. */
  predicate ScheduledAvailable(players: seq<Player>, index: nat, available: set<int>) {
    var row := Scheduled(players, index + 1);
    row.Some? && row.value.id in available
  }

  /**
   * The player the simulation drafts at `index`, or `None` when nobody of the
   * year is available: the scheduled (historical) player if still available;
   * otherwise the best available player by position rank at the scheduled
   * player's position, if anybody there is available; otherwise the best
   * available player by overall rank.
   */
  function SimulatedChoice(players: seq<Player>, index: nat, available: set<int>): Option<Player> {
    var row := Scheduled(players, index + 1);
    if row.Some? && row.value.id in available then row
    else
      var pool := Pool(players, available);
      if pool == [] then None
      else
        var target := TargetPosition(row);
        var same := if target.Some? then AtPosition(pool, target.value) else [];
        if same != [] then Some(BestBy(same, PositionRank)) else Some(BestBy(pool, OverallRank))
  }

  /** SimulatedChoice drafts a row whose id is available, and names nobody exactly when nobody is available. */
  lemma SimulatedChoiceAvailable(players: seq<Player>, index: nat, available: set<int>)
    ensures var r := SimulatedChoice(players, index, available);
      && (r.Some? ==> r.value in players && r.value.id in available)
      && (r.None? <==> forall p :: p in players ==> p.id !in available)
  {
    ScheduledSpec(players, index + 1);
    var pool := Pool(players, available);
    PoolSpec(players, available);
    if pool != [] {
      BestBySpec(pool, OverallRank);
      var target := TargetPosition(Scheduled(players, index + 1));
      if target.Some? {
        AtPositionSpec(pool, target.value);
        var same := AtPosition(pool, target.value);
        if same != [] {
          BestBySpec(same, PositionRank);
        }
      }
    }
  }

  /**
   * How SimulatedChoice picks among the available rows. It takes the scheduled
   * player when that player is available. Otherwise, when the scheduled
   * player's position is set and somebody available plays it, the choice plays
   * it too, with a minimal position rank among them; failing that, the choice
   * has a minimal overall rank among everybody available.
   */
  lemma SimulatedChoiceSpec(players: seq<Player>, index: nat, available: set<int>)
    ensures var r := SimulatedChoice(players, index, available);
      && (ScheduledAvailable(players, index, available) ==> r == Scheduled(players, index + 1))
      && (!ScheduledAvailable(players, index, available) && r.Some? ==>
            var target := TargetPosition(Scheduled(players, index + 1));
            if target.Some? && exists q :: q in players && q.id in available && q.position == target then
              && r.value.position == target
              && forall q :: q in players && q.id in available && q.position == target ==> RankLe(r.value.posRk, q.posRk)
            else
              forall q :: q in players && q.id in available ==> RankLe(r.value.ovrRk, q.ovrRk))
  {
    var row := Scheduled(players, index + 1);
    ScheduledSpec(players, index + 1);
    var pool := Pool(players, available);
    PoolSpec(players, available);
    if pool != [] {
      BestBySpec(pool, OverallRank);
      var target := TargetPosition(row);
      if target.Some? {
        AtPositionSpec(pool, target.value);
        var same := AtPosition(pool, target.value);
        if same != [] {
          BestBySpec(same, PositionRank);
        }
      }
    }
  }

  /** When no row of the year carries an available id, no id of the year is available. */
  lemma PoolExhausted(catalog: Catalog, year: int, available: set<int>)
    requires available <= PlayerIdsByYear(catalog, year)
    requires forall p :: p in PlayersOfYear(catalog, year) ==> p.id !in available
    ensures available == {}
  {
    forall x | x in available ensures x !in available {
      PlayerIdsByYearMembership(catalog, year, x);
    }
  }

  // ---------------------------------------------------------------------
  // The automatic-pick loop
  // ---------------------------------------------------------------------

  /** The part of a draft record the automatic picks change. */
  datatype Progress = Progress(order: seq<Slot>, index: nat, available: set<int>)

  /**
   * What the automatic-pick loop makes of a draft at `index` whose status is
   * Simulating exactly when `simulating` holds. While it is, the player
   * SimulatedChoice names fills the slot at the index and the status is
   * recomputed. The loop stops once the status is not Simulating, once
   * nobody is available, or once a player is chosen for a slot that does not
   * exist (that player's id is then already removed).
   */
  function Simulation(players: seq<Player>, userTeam: string, order: seq<Slot>, index: nat,
                      available: set<int>, simulating: bool): (r: Progress)
    ensures |r.order| == |order| && index <= r.index && r.available <= available
    decreases |order| - index
  {
    if !simulating then Progress(order, index, available)
    else match SimulatedChoice(players, index, available)
      case None => Progress(order, index, available)
      case Some(p) =>
        if index < |order| then
          var filled := Fill(order, index, p.id);
          Simulation(players, userTeam, filled, index + 1, available - {p.id}, StatusOf(filled, index + 1, userTeam) == Simulating)
        else Progress(order, index, available - {p.id})
  }

  /** `after` is what the automatic-pick loop makes of the draft, as Simulation computes it. */
  ghost predicate SimulatesTo(players: seq<Player>, userTeam: string, order: seq<Slot>, index: nat,
                              available: set<int>, simulating: bool, after: Progress) {
    after == Simulation(players, userTeam, order, index, available, simulating)
  }

  /**
   * `after` is what a user's pick of `pid` in the slot at `index`, followed by
   * the automatic-pick loop, makes of the draft: the slot is filled, the
   * status recomputed, and the loop runs while that status is Simulating.
   */
  ghost predicate PickedThenSimulated(players: seq<Player>, userTeam: string, order: seq<Slot>, index: nat,
                                      available: set<int>, pid: int, after: Progress) {
    && index < |order|
    && var filled := Fill(order, index, pid);
      after == Simulation(players, userTeam, filled, index + 1, available - {pid},
                          StatusOf(filled, index + 1, userTeam) == Simulating)
  }

  /**
   * One simulated pick is one step of Simulation: whatever it leaves behind,
   * the loop goes on to the same result as from the record before the pick.
   */
  lemma SimulationStep(players: seq<Player>, userTeam: string, order: seq<Slot>, index: nat, available: set<int>,
                       order': seq<Slot>, index': nat, available': set<int>, status': Status, crashed: bool)
    requires var c := SimulatedChoice(players, index, available);
      && (crashed <==> c.Some? && index >= |order|)
      && (c.None? ==> order' == order && index' == index && available' == available && status' != Simulating)
      && (c.Some? && !crashed ==>
            && order' == Fill(order, index, c.value.id) && index' == index + 1
            && available' == available - {c.value.id} && status' == StatusOf(order', index', userTeam))
      && (c.Some? && crashed ==> order' == order && index' == index && available' == available - {c.value.id})
    ensures Simulation(players, userTeam, order', index', available', !crashed && status' == Simulating)
         == Simulation(players, userTeam, order, index, available, true)
  {
  }

  /**
   * The loop never simulates the pick of the user's team, except in slot 0,
   * where the initial record is Simulating whoever owns it; slots before the
   * index are never rewritten, and the team of every slot stays as it was.
   */
  lemma {:induction false} SimulationSkipsUser(players: seq<Player>, userTeam: string, order: seq<Slot>, index: nat,
                                              available: set<int>, simulating: bool)
    requires simulating && 0 < index < |order| ==> order[index].team != Some(userTeam)
    ensures var r := Simulation(players, userTeam, order, index, available, simulating);
      && (forall k :: index <= k < r.index && 0 < k < |order| ==> r.order[k].team != Some(userTeam))
      && (forall k :: 0 <= k < index && k < |order| ==> r.order[k] == order[k])
      && (forall k :: 0 <= k < |order| ==> r.order[k].team == order[k].team)
    decreases |order| - index
  {
    if simulating {
      var c := SimulatedChoice(players, index, available);
      if c.Some? && index < |order| {
        var filled := Fill(order, index, c.value.id);
        SimulationSkipsUser(players, userTeam, filled, index + 1, available - {c.value.id},
                            StatusOf(filled, index + 1, userTeam) == Simulating);
      }
    }
  }

  // ---------------------------------------------------------------------
  // The draft record's invariant, stated on the record's field values
  // ---------------------------------------------------------------------

  /** The slots keep the shape of `schedule`: only their player ids differ. */
  ghost predicate Shaped(order: seq<Slot>, schedule: seq<Slot>) {
    && |order| == |schedule|
    && forall i :: 0 <= i < |order| ==> order[i].(playerId := None) == schedule[i]
  }

  /**
   * A draft record over the ids `ids` of its year and the year's draft order
   * `schedule`: the bookkeeping holds, the slots keep the schedule's shape,
   * the status is the one StatusOf computes (except in the untouched initial
   * record, whose status is Simulating whoever picks first), and round and
   * pick are those MetaAt gives.
   */
  ghost predicate Consistent(ids: set<int>, schedule: seq<Slot>, userTeam: string, index: nat,
                             round: int, pick: int, available: set<int>, order: seq<Slot>, status: Status) {
    && Books(ids, available, order, index)
    && Shaped(order, schedule)
    && (status == StatusOf(order, index, userTeam) || (index == 0 && status == Simulating))
    && (round, pick) == MetaAt(order, index)
  }

  /**
   * The record a draft starts from is consistent: every id of the year is
   * available, every slot is unfilled, the index is 0, round and pick are 1
   * and the status is Simulating.
   */
  lemma InitialConsistent(catalog: Catalog, year: int, userTeam: string)
    requires WellFormed(catalog)
    ensures var ids := PlayerIdsByYear(catalog, year);
      var order := DraftOrderByYear(catalog, year);
      Consistent(ids, order, userTeam, 0, 1, 1, ids, order, Simulating)
  {
    var ids := PlayerIdsByYear(catalog, year);
    var order := DraftOrderByYear(catalog, year);
    OrderFitsPlayers(catalog, year);
    DraftOrderByYearSpec(catalog, year);
  }

  /** Drafting an available id into the current slot keeps the record consistent. */
  lemma DraftKeepsConsistent(ids: set<int>, schedule: seq<Slot>, userTeam: string, index: nat,
                             round: int, pick: int, available: set<int>, order: seq<Slot>, status: Status, pid: int)
    requires Consistent(ids, schedule, userTeam, index, round, pick, available, order, status)
    requires pid in available && index < |order|
    ensures var order' := Fill(order, index, pid);
      var meta := MetaAt(order', index + 1);
      Consistent(ids, schedule, userTeam, index + 1, meta.0, meta.1, available - {pid}, order', StatusOf(order', index + 1, userTeam))
    ensures |available - {pid}| + (index + 1) == |ids|
  {
    PickKeepsBooks(ids, available, order, index, pid);
  }
}
