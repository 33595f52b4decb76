/**
 * The engine's entry points without the web layer: starting a draft, reading
 * its status and its board, advancing the simulation to the user's next turn,
 * and submitting the user's pick. Failures are ApiError values rather than
 * HTTP errors.
 */
module DraftApi {
  import opened Options
  import opened Players
  import opened DraftLogic
  import opened DraftRecord
  import opened DraftState

  /**
   * DraftNotFound and YearNotFound are the two "not found" answers,
   * NotYourTurn and PlayerNotAvailable the two rejected picks, and
   * SlotOutOfRange the failed write into a slot that does not exist.
   */
  datatype ApiError = DraftNotFound | YearNotFound | NotYourTurn | PlayerNotAvailable | SlotOutOfRange

  datatype Result<T> = Ok(value: T) | Err(error: ApiError)

  /** What the status endpoint reports. */
  datatype StatusView = StatusView(round: int, pick: int, status: Status, index: nat)

  /** What advancing and picking report. */
  datatype TurnView = TurnView(round: int, pick: int, status: Status)

  /** What the board endpoint reports. */
  datatype BoardView = BoardView(year: int, currentIndex: nat, board: seq<Slot>, status: Status)

  /**
   * Starts a draft of `year` for `userTeam`, unless the catalog has no row of
   * that year, in which case nothing is created.
   */
  method StartDraft(reg: Registry, year: int, userTeam: string) returns (r: Result<string>)
    requires reg.Valid()
    modifies reg
    ensures reg.Valid()
    ensures r.Err? <==> !YearPresent(reg.catalog, year)
    ensures r.Err? ==> r.error == YearNotFound && reg.drafts == old(reg.drafts)
    ensures r.Ok? ==>
      && r.value !in old(reg.drafts) && r.value in reg.drafts
      && reg.drafts == old(reg.drafts)[r.value := reg.drafts[r.value]]
      && fresh(reg.drafts[r.value])
      && var d := reg.drafts[r.value];
        && d.year == year && d.userTeam == userTeam
        && d.index == 0 && d.round == 1 && d.pick == 1 && d.status == Simulating
        && d.available == PlayerIdsByYear(reg.catalog, year)
        && d.order == DraftOrderByYear(reg.catalog, year)
  {
    if !YearPresent(reg.catalog, year) {
      return Err(YearNotFound);
    }
    var id := reg.CreateDraft(year, userTeam);
    return Ok(id);
  }

  /** Round, pick, status and index of the draft `id`. */
  function DraftStatus(reg: Registry, id: string): (r: Result<StatusView>)
    reads reg, reg.drafts.Values
    ensures r.Err? <==> id !in reg.drafts
    ensures r.Err? ==> r.error == DraftNotFound
    ensures r.Ok? ==> var d := reg.drafts[id];
      r.value == StatusView(d.round, d.pick, d.status, d.index)
  {
    if id !in reg.drafts then Err(DraftNotFound)
    else
      var d := reg.drafts[id];
      Ok(StatusView(d.round, d.pick, d.status, d.index))
  }

  /**
   * In a valid registry the reported status agrees with the index: the index
   * never passes the number of slots, a complete draft has used every slot,
   * and a draft waiting for the user has the user's team on the clock.
   */
  lemma StatusAgreesWithIndex(reg: Registry, id: string)
    requires reg.Valid() && id in reg.drafts
    ensures var v := DraftStatus(reg, id).value;
      var d := reg.drafts[id];
      && v.index <= |d.order|
      && (v.status == Complete ==> v.index == |d.order|)
      && (v.status == WaitingForUser ==> v.index < |d.order| && d.order[v.index].team == Some(d.userTeam))
      && (v.index < |d.order| && v.index > 0 ==> (v.round, v.pick) == (d.order[v.index].round, d.order[v.index].pick))
  {
    assert reg.drafts[id].Valid();
  }

  /** Year, current index, slots and status of the draft `id`. */
  function DraftBoard(reg: Registry, id: string): (r: Result<BoardView>)
    reads reg, reg.drafts.Values
    ensures r.Err? <==> id !in reg.drafts
    ensures r.Err? ==> r.error == DraftNotFound
    ensures r.Ok? ==> var d := reg.drafts[id];
      r.value == BoardView(d.year, d.index, d.order, d.status)
  {
    if id !in reg.drafts then Err(DraftNotFound)
    else
      var d := reg.drafts[id];
      Ok(BoardView(d.year, d.index, d.order, d.status))
  }

  /**
   * In a valid registry the board is filled exactly up to the current index,
   * no player appears on it twice, and every player on it belongs to the
   * draft's year and is no longer available.
   */
  lemma BoardIsConsistent(reg: Registry, id: string)
    requires reg.Valid() && id in reg.drafts
    ensures var b := DraftBoard(reg, id).value;
      var d := reg.drafts[id];
      && b.currentIndex <= |b.board|
      && (forall i :: 0 <= i < |b.board| ==> (b.board[i].playerId.Some? <==> i < b.currentIndex))
      && (forall i, j :: 0 <= i < j < |b.board| && b.board[i].playerId.Some? ==> b.board[i].playerId != b.board[j].playerId)
      && (forall i :: 0 <= i < |b.board| && b.board[i].playerId.Some? ==>
            b.board[i].playerId.value !in d.available && b.board[i].playerId.value in PlayerIdsByYear(d.catalog, d.year))
  {
    assert reg.drafts[id].Valid();
  }

  /**
   * Simulates picks while the draft is simulating. It stops when the user is
   * on the clock or the draft is complete, or when a slot write fails, which
   * can only happen in a year without slots. Every step but such a last one
   * fills the next slot, so at most one step per remaining slot is taken
   * (one step, in a year without slots).
   */
  method RunSimulation(d: Draft) returns (crashed: bool, ghost steps: nat)
    requires d.Valid() && d.Linked()
    modifies d
    ensures d.Valid()
    ensures SimulatesTo(d.rows, d.userTeam, old(d.order), old(d.index), old(d.available), old(d.status) == Simulating,
                    Progress(d.order, d.index, d.available))
    ensures forall k :: old(d.index) <= k < d.index && 0 < k < |d.order| ==> d.order[k].team != Some(d.userTeam)
    ensures crashed ==> |d.order| == 0 && d.status == Simulating
    ensures !crashed ==> d.status != Simulating
    ensures old(d.index) <= d.index && |d.order| == |old(d.order)|
    ensures forall i :: 0 <= i < old(d.index) ==> d.order[i] == old(d.order)[i]
    ensures d.available <= old(d.available)
    ensures !crashed ==> |old(d.available)| - |d.available| == d.index - old(d.index)
    ensures old(d.status) != Simulating ==> !crashed && steps == 0 && unchanged(d)
    ensures |d.order| > 0 ==> steps == d.index - old(d.index) <= |d.order| - old(d.index)
    ensures |d.order| == 0 ==> steps <= 1
  {
    ghost var players := d.rows;
    ghost var outcome := Simulation(players, d.userTeam, d.order, d.index, d.available, d.status == Simulating);
    SimulationSkipsUser(players, d.userTeam, d.order, d.index, d.available, d.status == Simulating);
    crashed := false;
    steps := 0;
    while !crashed && d.status == Simulating
      invariant d.Valid()
      invariant Simulation(players, d.userTeam, d.order, d.index, d.available, !crashed && d.status == Simulating) == outcome
      invariant crashed ==> |d.order| == 0 && d.status == Simulating
      invariant old(d.index) <= d.index && |d.order| == |old(d.order)|
      invariant forall i :: 0 <= i < old(d.index) ==> d.order[i] == old(d.order)[i]
      invariant d.available <= old(d.available)
      invariant !crashed ==> |old(d.available)| - |d.available| == d.index - old(d.index)
      invariant steps == 0 ==> !crashed && unchanged(d)
      invariant steps > 0 ==> old(d.status) == Simulating
      invariant |d.order| > 0 ==> steps == d.index - old(d.index)
      invariant |d.order| == 0 ==> steps <= 1 && (steps == 1 ==> crashed || d.status != Simulating)
      decreases |d.order| - d.index, if !crashed && d.status == Simulating then 1 else 0
    {
      crashed := d.SimulatePick();
      steps := steps + 1;
    }
  }

  /** Simulates the draft `id` up to the user's next turn or its end. */
  method Advance(reg: Registry, id: string) returns (r: Result<TurnView>)
    requires reg.Valid()
    modifies if id in reg.drafts then {reg.drafts[id]} else {}
    ensures reg.Valid()
    ensures id !in reg.drafts ==> r == Err(DraftNotFound)
    ensures id in reg.drafts ==> var d := reg.drafts[id];
      && (r.Ok? ==> r.value == TurnView(d.round, d.pick, d.status) && d.status != Simulating)
      && (r.Err? ==> r.error == SlotOutOfRange && |d.order| == 0)
      && old(d.index) <= d.index
      && (forall i :: 0 <= i < old(d.index) ==> d.order[i] == old(d.order)[i])
      && (old(d.status) != Simulating ==> r.Ok? && unchanged(d))
      && SimulatesTo(d.rows, d.userTeam, old(d.order), old(d.index), old(d.available), old(d.status) == Simulating,
                    Progress(d.order, d.index, d.available))
      && (forall k :: old(d.index) <= k < d.index && 0 < k < |d.order| ==> d.order[k].team != Some(d.userTeam))
  {
    if id !in reg.drafts {
      return Err(DraftNotFound);
    }
    var d := reg.drafts[id];
    r := AdvanceDraft(d);
  }

  /** Advance on the record `d` itself. */
  method AdvanceDraft(d: Draft) returns (r: Result<TurnView>)
    requires d.Valid() && d.Linked()
    modifies d
    ensures d.Valid()
    ensures r.Ok? ==> r.value == TurnView(d.round, d.pick, d.status) && d.status != Simulating
    ensures r.Err? ==> r.error == SlotOutOfRange && |d.order| == 0
    ensures old(d.index) <= d.index
    ensures forall i :: 0 <= i < old(d.index) ==> d.order[i] == old(d.order)[i]
    ensures old(d.status) != Simulating ==> r.Ok? && unchanged(d)
    ensures SimulatesTo(d.rows, d.userTeam, old(d.order), old(d.index), old(d.available), old(d.status) == Simulating,
                    Progress(d.order, d.index, d.available))
    ensures forall k :: old(d.index) <= k < d.index && 0 < k < |d.order| ==> d.order[k].team != Some(d.userTeam)
  {
    var crashed, _ := RunSimulation(d);
    if crashed {
      return Err(SlotOutOfRange);
    }
    return Ok(TurnView(d.round, d.pick, d.status));
  }

  /**
   * The user's pick of `pid` in the draft `id`: rejected unless the user is on
   * the clock, and then rejected unless `pid` is available; otherwise `pid`
   * fills the current slot and the simulation runs to the user's next turn or
   * the end of the draft.
   */
  method PickPlayer(reg: Registry, id: string, pid: int) returns (r: Result<TurnView>)
    requires reg.Valid()
    modifies if id in reg.drafts then {reg.drafts[id]} else {}
    ensures reg.Valid()
    ensures id !in reg.drafts ==> r == Err(DraftNotFound)
    ensures id in reg.drafts ==> var d := reg.drafts[id];
      && (old(d.status) != WaitingForUser ==> r == Err(NotYourTurn) && unchanged(d))
      && (old(d.status) == WaitingForUser && pid !in old(d.available) ==> r == Err(PlayerNotAvailable) && unchanged(d))
      && (old(d.status) == WaitingForUser && pid in old(d.available) ==>
            && r == Ok(TurnView(d.round, d.pick, d.status))
            && d.status != Simulating
            && old(d.index) < d.index <= |d.order|
            && d.order[old(d.index)].playerId == Some(pid)
            && pid !in d.available
            && (forall i :: 0 <= i < old(d.index) ==> d.order[i] == old(d.order)[i])
            && (forall k :: old(d.index) < k < d.index && k < |d.order| ==> d.order[k].team != Some(d.userTeam))
            && PickedThenSimulated(d.rows, d.userTeam, old(d.order), old(d.index), old(d.available), pid,
                                   Progress(d.order, d.index, d.available)))
  {
    if id !in reg.drafts {
      return Err(DraftNotFound);
    }
    var d := reg.drafts[id];
    r := PickOn(d, pid);
    forall k | k in reg.drafts
      ensures reg.drafts[k].catalog == reg.catalog && reg.drafts[k].Linked() && reg.drafts[k].Valid()
    {
      if k != id {
        assert reg.drafts[k] != d;
      }
    }
  }

  /** PickPlayer on the record `d` itself. */
  method PickOn(d: Draft, pid: int) returns (r: Result<TurnView>)
    requires d.Valid() && d.Linked()
    modifies d
    ensures d.Valid()
    ensures old(d.status) != WaitingForUser ==> r == Err(NotYourTurn) && unchanged(d)
    ensures old(d.status) == WaitingForUser && pid !in old(d.available) ==> r == Err(PlayerNotAvailable) && unchanged(d)
    ensures old(d.status) == WaitingForUser && pid in old(d.available) ==>
      && r == Ok(TurnView(d.round, d.pick, d.status))
      && d.status != Simulating
      && old(d.index) < d.index <= |d.order|
      && d.order[old(d.index)].playerId == Some(pid)
      && pid !in d.available
      && (forall i :: 0 <= i < old(d.index) ==> d.order[i] == old(d.order)[i])
      && (forall k :: old(d.index) < k < d.index && k < |d.order| ==> d.order[k].team != Some(d.userTeam))
      && PickedThenSimulated(d.rows, d.userTeam, old(d.order), old(d.index), old(d.available), pid,
                             Progress(d.order, d.index, d.available))
  {
    if d.status != WaitingForUser {
      return Err(NotYourTurn);
    }
    if pid !in d.available {
      return Err(PlayerNotAvailable);
    }
    SubmitPick(d, pid);
    return Ok(TurnView(d.round, d.pick, d.status));
  }

  /**
   * The accepted user's pick: `pid` fills the current slot and the simulation
   * runs on. The user's slot exists, so the simulation cannot fail.
   */
  method SubmitPick(d: Draft, pid: int)
    requires d.Valid() && d.Linked() && d.status == WaitingForUser && pid in d.available
    modifies d
    ensures d.Valid()
    ensures d.status != Simulating
    ensures old(d.index) < d.index <= |d.order|
    ensures d.order[old(d.index)].playerId == Some(pid)
    ensures pid !in d.available
    ensures forall i :: 0 <= i < old(d.index) ==> d.order[i] == old(d.order)[i]
    ensures forall k :: old(d.index) < k < d.index && k < |d.order| ==> d.order[k].team != Some(d.userTeam)
    ensures PickedThenSimulated(d.rows, d.userTeam, old(d.order), old(d.index), old(d.available), pid,
                                Progress(d.order, d.index, d.available))
  {
    d.DraftPlayer(pid);
    var crashed, _ := RunSimulation(d);
  }
}
