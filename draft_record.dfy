/**
 * The mutable record of one draft and the operations that change it in place:
 * recomputing the status and the round/pick metadata, drafting a player into
 * the current slot, and simulating the pick of a team that is not the user's.
 */
module DraftRecord {
  import opened Options
  import opened Players
  import opened DraftLogic

  class Draft {
    const catalog: Catalog
    const year: int
    const userTeam: string
    var index: nat
    var round: int
    var pick: int
    var available: set<int>
    var order: seq<Slot>
    var status: Status

    /** The ids catalogued for this draft's year, fixed when the draft is created. */
    ghost const ids: set<int>

    /** The year's draft order, whose shape the slots keep. */
    ghost const schedule: seq<Slot>

    /** The catalog rows of this draft's year, which the simulated picks choose from. */
    ghost const rows: seq<Player>

    /** The fixed part of the record: `rows`, `ids` and `schedule` are those of the catalogued year. */
    ghost predicate Linked() {
      && WellFormed(catalog)
      && rows == PlayersOfYear(catalog, year)
      && ids == PlayerIdsByYear(catalog, year)
      && schedule == DraftOrderByYear(catalog, year)
    }

    /** The record invariant: the field values are Consistent for this draft's year. */
    ghost predicate Valid()
      reads this
    {
      Consistent(ids, schedule, userTeam, index, round, pick, available, order, status)
    }

    /** The record a new draft starts from. */
    constructor (catalog: Catalog, year: int, userTeam: string)
      requires WellFormed(catalog) && YearPresent(catalog, year)
      ensures Valid() && Linked()
      ensures this.catalog == catalog && this.year == year && this.userTeam == userTeam
      ensures index == 0 && round == 1 && pick == 1 && status == Simulating
      ensures available == PlayerIdsByYear(catalog, year)
      ensures order == DraftOrderByYear(catalog, year)
      ensures forall i :: 0 <= i < |order| ==> order[i].playerId == None
    {
      this.catalog := catalog;
      this.year := year;
      this.userTeam := userTeam;
      index := 0;
      round := 1;
      pick := 1;
      InitialConsistent(catalog, year, userTeam);
      rows := PlayersOfYear(catalog, year);
      ids := PlayerIdsByYear(catalog, year);
      schedule := DraftOrderByYear(catalog, year);
      available := PlayerIdsByYear(catalog, year);
      order := DraftOrderByYear(catalog, year);
      status := Simulating;
    }

    /** While a slot remains, somebody is still available, so the simulated pick never finds an empty pool mid-draft. */
    lemma SomeoneAvailable()
      requires Valid() && index < |order|
      ensures available != {}
    {
      EveryIdAccounted(ids, available, order, index);
      SlotsRemainImplyAvailable(ids, available, order, index);
    }

    /** Recomputes the status from the index, the team on the clock and the user's team. */
    method UpdateStatus()
      modifies this`status
      ensures status == StatusOf(order, index, userTeam)
      ensures status == Complete <==> index >= |order|
      ensures status == WaitingForUser <==> index < |order| && order[index].team == Some(userTeam)
      ensures old(Valid()) ==> Valid()
    {
      if index >= |order| {
        status := Complete;
        return;
      }
      status := if UserTurn(order, index, userTeam) then WaitingForUser else Simulating;
    }

    /** Copies round and pick from the slot at the index, if there is one. */
    method AdvanceMetadata()
      modifies this`round, this`pick
      ensures index < |order| ==> round == order[index].round && pick == order[index].pick
      ensures index >= |order| ==> round == old(round) && pick == old(pick)
    {
      if index >= |order| {
        return;
      }
      round := order[index].round;
      pick := order[index].pick;
    }

    /**
     * Drafts `pid` into the current slot: removes it from the available ids,
     * writes it into the slot at the index, moves the index on by one and
     * recomputes the metadata and the status.
     */
    method DraftPlayer(pid: int)
      requires Valid()
      requires pid in available && index < |order|
      modifies this
      ensures Valid()
      ensures available == old(available) - {pid}
      ensures order == Fill(old(order), old(index), pid)
      ensures index == old(index) + 1
      ensures status == StatusOf(order, index, userTeam)
      ensures index < |order| ==> round == order[index].round && pick == order[index].pick
      ensures index >= |order| ==> round == old(round) && pick == old(pick)
      ensures |available| + index == |ids|
    {
      DraftKeepsConsistent(ids, schedule, userTeam, index, round, pick, available, order, status, pid);
      MetaAfterPick(order, index, pid);
      ghost var meta := MetaAt(Fill(order, index, pid), index + 1);
      available := available - {pid};
      order := Fill(order, index, pid);
      index := index + 1;
      AdvanceMetadata();
      assert (round, pick) == meta;
      UpdateStatus();
    }

    /**
     * Simulates the pick at the index with the heuristic of SimulatedChoice.
     * When nobody is available it only recomputes the status. When somebody is
     * chosen but the order has no slot at the index (a year without any slot),
     * the id is removed from the available set and then the slot write fails:
     * `crashed` reports that failure, and nothing else has changed.
     */
    method SimulatePick() returns (crashed: bool)
      requires Valid() && Linked() && status == Simulating
      modifies this
      ensures Valid()
      ensures var c := SimulatedChoice(rows, old(index), old(available));
        && (crashed <==> c.Some? && old(index) >= |old(order)|)
        && (c.None? ==>
              && index == old(index) && available == old(available) && order == old(order)
              && round == old(round) && pick == old(pick) && status == Complete)
        && (c.Some? && !crashed ==>
              && index == old(index) + 1
              && available == old(available) - {c.value.id}
              && order == Fill(old(order), old(index), c.value.id)
              && status == StatusOf(order, index, userTeam))
        && (c.Some? && crashed ==>
              && available == old(available) - {c.value.id}
              && index == old(index) && order == old(order)
              && round == old(round) && pick == old(pick) && status == old(status))
      ensures crashed ==> |order| == 0
      ensures Simulation(rows, userTeam, order, index, available, !crashed && status == Simulating)
           == Simulation(rows, userTeam, old(order), old(index), old(available), true)
      ensures SimulatedChoice(rows, old(index), old(available)).None? ==> |order| == 0
    {
      ghost var (order0, index0, available0) := (order, index, available);
      var players := PlayersOfYear(catalog, year);
      var choice := SimulatedChoice(players, index, available);
      SimulatedChoiceAvailable(players, index, available);
      crashed := false;
      match choice
      case None =>
        PoolExhausted(catalog, year, available);
        UpdateStatus();
      case Some(p) =>
        if index < |order| {
          DraftPlayer(p.id);
        } else {
          assert index == 0 && |order| == 0;
          available := available - {p.id};
          crashed := true;
        }
      SimulationStep(rows, userTeam, order0, index0, available0, order, index, available, status, crashed);
    }
  }
}
