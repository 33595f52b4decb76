# Draft engine model

This project models the engine of DraftGame in Dafny. DraftGame is a web game in which a user plays one team through a
historical player draft. The other teams' picks are simulated.

The player catalog is an immutable input value: a sequence of rows, each with an id, a draft year, the historical slot
(overall number, round, pick, team), a position and two ranks. The engine consists of:

- the draft order of a year, built from the catalog;
- the mutable record of one draft (`DraftRecord.Draft`), with its status and metadata updates, the shared
  "draft a player into the current slot" mutation and the simulated pick;
- the registry of drafts (`DraftState.Registry`), a map from key to record;
- the entry points `start`, `status`, `advance`, `pick` and `board` (`DraftApi`). Each returns an `ApiError` value where
  the web layer answers with an HTTP error.

The record invariant (`DraftLogic.Consistent`, kept by every operation) states:

- exactly the slots before the index are filled;
- no player fills two slots;
- no drafted player is still available;
- `|available| + index` equals the number of ids of the year whenever the year has a slot;
- the status agrees with the index and the team on the clock;
- round and pick follow `DraftLogic.MetaAt`. While 0 < index < |order| they are those of the slot at the index. Once
  the order is used up they are those of the last slot, provided it is not slot 0. Otherwise, at index 0 or in an
  order of at most one slot, they are round 1, pick 1.

The catalog is assumed to give each player id at most one row per year (`Players.WellFormed`). The year's table is
indexed by player id, but nothing in the code enforces that the index is unique; the finding below shows what
happens without it. A draft can only be created for a year that has at least one catalog row: for any other year the
source raises `KeyError` while building the record (backend/models/draft_state.py:16, through
backend/services/draft_logic.py:10), and `start_draft` rejects such a year before it gets there.

Two behaviours of the code are easy to miss:

- A new draft always starts in status `Simulating` with round 1, pick 1 (backend/models/draft_state.py:13-18), even when
  the user's team owns the first slot. The invariant allows this one exception at index 0, and `Advance` then
  simulates the user's first pick.
- A year with players but no slot with an overall number does not report "complete". The simulated pick removes a
  player from the available set, then fails writing a slot that does not exist (backend/services/draft_logic.py:56-58).
  The model returns `SlotOutOfRange` from that advance. Each later advance fails the same way until nobody of the year
  is available; then the draft is complete.

## Model

| member | source | states |
|---|---|---|
| Players.PlayersOfYear | backend/services/draft_logic.py:9-10 | The year's table is exactly the catalog rows of that year and is no longer than the catalog |
| Players.IdSetMembership | backend/services/draft_logic.py:10 | An id is in the id set of some rows exactly when one of the rows carries it |
| Players.PlayersOfYearDistinct | backend/services/draft_logic.py:10 | In a well-formed catalog the rows of one year have pairwise distinct ids, as the year's table, indexed by player id, is meant to have |
| Players.IdSetSize | backend/services/draft_logic.py:10 | Rows with distinct ids have as many ids as rows |
| DraftLogic.PlayerIdsByYearMembership | backend/services/draft_logic.py:9-10 | The year's id set holds an id exactly when some catalog row of that year carries it |
| DraftLogic.ScheduledSlotsSpec | backend/services/draft_logic.py:14-25 | Dropping rows without an overall number leaves every slot unfilled, with one slot for each row that has an overall number and no other slot, and exactly as many slots as rows with an overall number |
| DraftLogic.ScheduledSlotsAppend | backend/services/draft_logic.py:16-25 | The slots of two row sequences joined are the slots of the first followed by those of the second |
| DraftLogic.ScheduledSlotsCount | backend/services/draft_logic.py:16-25 | The first n rows yield exactly one slot per row among them with an overall number |
| DraftLogic.InsertByOverallSpec | backend/services/draft_logic.py:14 | Inserting into a list sorted by overall keeps it sorted and adds exactly the one slot |
| DraftLogic.InsertByOverallPermutes | backend/services/draft_logic.py:14 | Insertion adds exactly the one slot to the multiset of slots |
| DraftLogic.InsertByOverallBound | backend/services/draft_logic.py:14 | A lower bound on the overall numbers of the inserted slot and of the list bounds the result too |
| DraftLogic.InsertByOverallSorted | backend/services/draft_logic.py:14 | Insertion into a list sorted by overall keeps it sorted |
| DraftLogic.SortByOverallSpec | backend/services/draft_logic.py:14 | Sorting by overall yields a sorted permutation of its input |
| DraftLogic.DraftOrderByYearSpec | backend/services/draft_logic.py:13-25 | The draft order is ascending by overall, is a permutation of the year's scheduled slots, has every player id unset, holds the slot of exactly the year's rows with an overall number, and has one slot per such row |
| DraftLogic.OrderFitsPlayers | backend/services/draft_logic.py:9-25 | A year never has more slots than ids |
| DraftLogic.MetaAfterPick | backend/services/draft_logic.py:46-52 | After a pick, round and pick are those of the next slot, or stay as they were when the last slot was filled |
| DraftLogic.Fill | backend/services/draft_logic.py:58-59 | Writing a pick sets the id of the slot at the index and changes no other slot and no other field |
| DraftLogic.FilledIdsMembership | backend/services/draft_logic.py:58-59 | An id is among the drafted ids of the first n slots exactly when one of those slots holds it |
| DraftLogic.FilledIdsSize | backend/services/draft_logic.py:55-61 | n filled slots that hold distinct ids hold n ids |
| DraftLogic.FilledIdsPartition | backend/services/draft_logic.py:55-61 | Drafted ids and available ids are disjoint parts of the year's ids, and there are exactly index drafted ids |
| DraftLogic.Conservation | backend/services/draft_logic.py:55-61 | Available ids plus drafted slots never exceed the year's ids, and equal them when every id is either available or drafted |
| DraftLogic.EveryIdAccounted | backend/services/draft_logic.py:55-61 | If available ids plus the index equal the year's ids, every id of the year is either available or drafted |
| DraftLogic.PickKeepsLedger | backend/services/draft_logic.py:55-61 | Drafting an available id into the current slot keeps the slots before the index filled, the rest unfilled, no id twice and no drafted id available |
| DraftLogic.PickKeepsBooks | backend/services/draft_logic.py:55-61 | A pick preserves the ledger and `|available| + index == |ids of the year|` |
| DraftLogic.SlotsRemainImplyAvailable | backend/api/draft.py:90-91 | While slots remain and every id is available or drafted, somebody is available, so the simulation loop cannot stall on an empty pool |
| DraftLogic.StallingCatalogIds | backend/services/draft_logic.py:9-10 | The two-row catalog that shares id 5 in 2000 is not well formed; its rows of 2000 are the whole catalog and its ids are just {5} |
| DraftLogic.StallingCatalogOrder | backend/services/draft_logic.py:13-25 | That catalog has two slots for 2000, in row order |
| DraftLogic.StallingChoices | backend/services/draft_logic.py:66-96 | On that catalog, id 5 is chosen for slot 0 and nobody can be chosen for slot 1 |
| DraftLogic.DuplicateIdsStall | backend/services/draft_logic.py:80-82 | With ids shared within a year the count fails: after slot 0 takes the only id, slot 1 still has to be filled, nobody is available, and the recomputed status stays Simulating |
| DraftLogic.ScheduledSpec | backend/services/draft_logic.py:68-75 | The scheduled row for an overall number is a row with that number, and there is none only when no row has it |
| DraftLogic.ScheduledIsFirst | backend/services/draft_logic.py:75 | The scheduled row is the first row with that overall number: every earlier row has another one |
| DraftLogic.PoolSpec | backend/services/draft_logic.py:71 | The pool is exactly the year's rows whose id is available |
| DraftLogic.AtPositionSpec | backend/services/draft_logic.py:86-88 | The same-position pool is exactly the pool's rows at that position |
| DraftLogic.BestBySpec | backend/services/draft_logic.py:90-94 | The chosen row is in the pool and has a minimal rank of the given kind, with missing ranks last |
| DraftLogic.SimulatedChoiceAvailable | backend/services/draft_logic.py:66-96 | The chosen player is a row of the year whose id is available, and there is none exactly when nobody is available |
| DraftLogic.SimulatedChoiceSpec | backend/services/draft_logic.py:73-94 | The scheduled player is taken when available. Otherwise the pick has minimal position rank among available players at the scheduled position if any exist, else minimal overall rank among all available players |
| DraftLogic.PoolExhausted | backend/services/draft_logic.py:80-82 | When no row of the year has an available id, the available set is empty |
| DraftLogic.Simulation | backend/api/draft.py:90-91 | The automatic-pick loop keeps the number of slots, never moves the index back and only removes available ids |
| DraftLogic.SimulationStep | backend/services/draft_logic.py:66-96 | One simulated pick is one step of the loop: from the record it leaves, the loop reaches the same result as from the record before it |
| DraftLogic.SimulationSkipsUser | backend/api/draft.py:90-91 | The loop never fills a slot of the user's team past slot 0, never rewrites a slot before the index and keeps every slot's team |
| DraftLogic.InitialConsistent | backend/models/draft_state.py:10-19 | The initial record (index 0, round 1, pick 1, every id available, every slot unfilled, Simulating) satisfies the record invariant |
| DraftLogic.DraftKeepsConsistent | backend/services/draft_logic.py:55-63 | Drafting an available id into the current slot, then recomputing metadata and status, keeps the record invariant and the conservation count |
| DraftRecord.Draft.constructor | backend/models/draft_state.py:10-19 | A new record has index 0, round 1, pick 1, status Simulating, every id of the year available and the year's order with every slot unfilled |
| DraftRecord.Draft.UpdateStatus | backend/services/draft_logic.py:38-43 | Complete exactly when the index has passed the last slot. Otherwise WaitingForUser exactly when the slot at the index is the user's team's. The record invariant is preserved |
| DraftRecord.Draft.AdvanceMetadata | backend/services/draft_logic.py:46-52 | Round and pick come from the slot at the index when there is one, and are unchanged otherwise |
| DraftRecord.Draft.DraftPlayer | backend/services/draft_logic.py:55-63 | Removes exactly the id from the available set, writes it into the slot at the old index, moves the index on by one, recomputes metadata and status, and keeps the invariant and the conservation count |
| DraftRecord.Draft.SomeoneAvailable | backend/api/draft.py:90-91 | In a valid record, somebody is available while a slot remains |
| DraftRecord.Draft.SimulatePick | backend/services/draft_logic.py:66-96 | Drafts SimulatedChoice's player. With nobody available it only recomputes the status (to Complete). In a year without slots it reports the failed write after removing the chosen id. The new record is one step of Simulation from the old |
| DraftState.FreshKey | backend/models/draft_state.py:8 | The new key is not used by any existing draft |
| DraftState.Registry.constructor | backend/models/draft_state.py:4 | The registry starts empty |
| DraftState.Registry.GetDraft | backend/models/draft_state.py:23-24 | Returns the record stored under the id, or None exactly when no record is stored |
| DraftState.Registry.CreateDraft | backend/models/draft_state.py:7-20 | For a year that has catalog rows, adds exactly one fresh record under an unused key and returns that key. The record is the initial one for the year and team. All other entries are unchanged and the registry stays valid |
| DraftState.Registry.Store | backend/models/draft_state.py:10 | Storing a valid record under an unused key extends the map by that one entry and keeps the registry valid |
| DraftApi.StartDraft | backend/api/draft.py:60-67 | Fails with YearNotFound, creating nothing, exactly when the year has no catalog row. Otherwise it returns the key of a new initial draft |
| DraftApi.DraftStatus | backend/api/draft.py:70-81 | Reports round, pick, status and index of the stored draft; DraftNotFound exactly for an unknown id |
| DraftApi.StatusAgreesWithIndex | backend/api/draft.py:70-81 | The reported index never passes the slot count. Complete means every slot is used. WaitingForUser means the user's team is on the clock. Past slot 0, round and pick are the current slot's |
| DraftApi.DraftBoard | backend/api/draft.py:124-135 | Reports year, current index, slots and status of the stored draft; DraftNotFound exactly for an unknown id |
| DraftApi.BoardIsConsistent | backend/api/draft.py:124-135 | The board is filled exactly up to the current index. No player is on it twice. Every player on it belongs to the year and is no longer available |
| DraftApi.RunSimulation | backend/api/draft.py:90-91 | Loops until the status is no longer Simulating (or the slot write fails in a year without slots) and keeps the invariant. The resulting slots, index and available ids are exactly what Simulation computes from the old record, so each filled slot gets SimulatedChoice's player. No slot of the user's team past slot 0 is filled, and no earlier slot is rewritten |
| DraftApi.Advance | backend/api/draft.py:84-97 | DraftNotFound for an unknown id. Otherwise returns round, pick and a status other than Simulating. The record is what Simulation makes of it, no slot of the user's team past slot 0 is filled and earlier slots are unchanged. A draft not simulating is left as it was |
| DraftApi.AdvanceDraft | backend/api/draft.py:90-97 | Advance on one record: the simulation result, equal to what Simulation computes and never filling a slot of the user's team past slot 0, or SlotOutOfRange only in a year without slots |
| DraftApi.PickPlayer | backend/api/draft.py:100-121 | DraftNotFound for an unknown id. NotYourTurn whenever the user is not on the clock, checked before PlayerNotAvailable; both leave the draft unchanged. Otherwise the id fills the slot at the old index and the record is what Simulation makes of the result, stopping at the user's next slot or the end |
| DraftApi.PickOn | backend/api/draft.py:106-121 | The pick checks and their outcomes on one record, in the source's order; an accepted pick is followed by exactly the picks Simulation makes |
| DraftApi.SubmitPick | backend/api/draft.py:112-115 | An accepted pick fills the current slot with the id, then runs the simulation to a status other than Simulating; the result is what Simulation computes, and no later slot of the user's team is filled |

## Left out

- HTTP: status codes and JSON bodies become `ApiError` and result datatypes. FastAPI routing and request models are
  not modelled.
- The catalog loader and its CSV files are not part of this model. The catalog is a parameter of the registry. A NaN
  column is `None`, and a NaN position filters nothing, exactly like a missing one.
- `uuid4`: modelled only as some key not in use (`FreshKey`). Randomness is not modelled.
- BestBySpec: `BestBy` takes the first row with a minimal rank, but pandas' unstable sort may break ties
  differently, so `BestBySpec` and `SimulatedChoiceSpec` promise only minimality.
- `json_safe`, `get_player`, `get_available_players`, `get_years` and `get_teams` are not modelled: they are read-only
  views and type coercion outside the engine.
- The frontend, the root `main.py` prototype and the application wiring in `backend/main.py` are not part of this model.
- Concurrency: the registry is a process-wide dictionary, and simultaneous requests are not modelled.
- `get_draft` tests the record for truthiness. A stored record is a non-empty dictionary, so this is modelled as
  presence in the map.
- Player.round and Player.pick are integers, so a row with an overall number but a NaN round or pick cannot be
  represented. The source's `int(...)` raises on such a row at backend/services/draft_logic.py:19-20 and starting a
  draft of that year fails.
- DraftApi.RunSimulation: the failed slot write (an `IndexError` in the source) is modelled as a returned flag that
  stops the loop, rather than an exception unwinding the request.

## Findings

| source | as written | input that shows it | evidently intended | confidence | as-written member | corrected member |
|---|---|---|---|---|---|---|
| backend/services/draft_logic.py:80-82, backend/api/draft.py:90-91 | When the available pool is empty, `simulate_pick` only recomputes the status, and the loop in `advance` repeats while the status is Simulating. Player ids are not checked to be unique within a year, so slots can outnumber ids | Year 2000 with rows (id 5, overall 1, team A) and (id 5, overall 2, team A), user team B: slot 0 takes id 5, then slot 1 has nobody to pick and the status stays Simulating, so `advance` never returns | Each id has at most one row per year. Then somebody is available while a slot remains, and every simulated pick fills a slot | not executed | DraftLogic.DuplicateIdsStall | DraftRecord.Draft.SomeoneAvailable |
