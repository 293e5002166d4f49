# Verification model

A Dafny model of the parts of the repository whose correctness rests on more than one function: what the edit
scripts of the mirror do when they are run, what the invite ledger keeps over every run, how recorded audio is cut
and put together again, what the caption meter's totals mean, who owns which text of a shared document, and what
survives a move of a recording that is cut off.

`dafny verify dfyconfig.toml` checks everything.

## The modules

- `Prelude` has the few types and functions all modules share.
- **Edit scripts** (`crates/vt-mirror`). `Lis` is the longest-increasing-subsequence routine, with full optimality.
  `MirrorState` has values, schemas and the stored containers, `Numerals` list indices written as keys, `MapDiff` and
  `ScriptOrder` the mutually recursive map, text and container diff and the order in which its changes are applied;
  what a list container inside a map ends in is a parameter there, and the list modules say what it is. `NodeShapes`
  says, in its own terms, which stored containers are edited in place and which are made anew, and what each then is.
  `ListScript` runs list scripts step by step: delete, insert, move as remove then insert, nested edit. `KeyedList`
  and `KeyedListExact` are the keyed list, `MovableScript`, `MovableList`, `MoveBound`, `MovableExact` and
  `MovableMoves` the movable list, `PositionalList` the list without ids. Each differ is a method proved against what
  running its script does, and the condition under which that is the new state is stated, exactly wherever it is
  known.
- **Invite ledger** (`services/community-invite/server.py`). `QuotaLedger` has each transaction as a function on the
  rows, `QuotaRuns` what every run of them keeps, `QuotaAnswers` what each of them answers and writes, row by row,
  `InviteStore` the store itself, and `MintProtocol` the interleavings of key requests with a fallible upstream, of
  which `SessionLife` runs one session from its invite to its settlement. A `BEGIN IMMEDIATE` transaction is one step.
- **Recorded audio**. `CaptureLedger` is the rebuilt chunk ledger and the export check that must agree with it,
  `AudioWindow` the read of a span across chunks, `EncryptedStream` the length-prefixed file and its streaming reader
  over a cipher that is only known to undo itself, `Resampler` the conversion to 16 kHz mono. `IntegerMath` has the
  facts about quotients they share.
- **Caption meter**. `CaptionErasure` has the meter, the sums its totals must equal, and a count of the same numbers
  from the history of updates alone; `CaptionLanes` says in which lane and language each text of an utterance is
  counted.
- **Owned text**. `MarkedRanges`, `StyledText` and `OwnedText` are ranges, marks and ownership in styled documents;
  `SectionProjection` writes a transcript into its section.
- **Moving a recording**. `FlatMove` and `SessionSlices` are the copy and clear of flat text and of transcript blocks,
  `PartialCopy` the copy into a transcript that has some of the blocks left over. `SessionMove` has the steps of moves
  over three tabs and any number of notebooks: plans made before the lock is taken, failures, copies that break off
  half-way, crashes, and edits; `MoveRuns` has what whole runs of them keep and lose, `MoveRaces` what becomes of
  edits made while a move runs, and `MoveFailures` what rollbacks, failed clears and replays come to.
- **Publishing**. `PublishWatermark` is the version watermark of a shared document, with the steps of publishes and of
  any number of imports interleaved.

## How the model stands to the code

- A container is named by the keys that lead to it, or by an id of its own inside a list. Numbers of JSON values are
  reals, times are integers, and a document's text is the sequence of its characters with the marks on each.
- The clock, the database, files, the upstream service, the cipher and the rule by which typed text takes on marks are
  parameters. A cipher is sound when decrypting undoes encrypting and its output fits a 32-bit length. A rule for
  marks is orderly when typed text takes marks only from its left neighbour, and the ownership marks only inside text
  that carries them on both sides.
- A falsy old field is written again even when nothing changed, an empty key is never written, a list is accepted
  where a map is stored and then does nothing: `MapDiff.Lands` has these guards as the code has them.
- 64-bit products and sums saturate as they do in the code; the results on reading a span ask that the recording's
  frames, times a thousand, fit 64 bits.
- A move holds the editors' lock from its first copy to its last clear. Edits of flat text need that lock too
  (`crates/vt-ffi/src/editor_api.rs:668`), so they are steps between moves; edits of a transcript do not
  (`crates/vt-ffi/src/block_document_api.rs:266-330`, lines 616-627) and are steps at any time. What was last written
  of each recording is kept beside the state of the program, to say what an owner must hold, and so is the slice a
  move has read.

## Where code and documentation disagree

- The keyed list scan stops deleting once the new list runs out, so a dropped tail survives
  (`crates/vt-mirror/src/diff.rs:412-415`), and without ids old items stay beside their counterparts:
  `KeyedListExact.DiffListWithIdSelector` says exactly when the script ends in the new list, `KeyedListExact.DropEnd`
  what becomes of a dropped end.
- The movable list's moves name old indices. That is said to go wrong when deletions are in the same script, and to be
  avoided by reordering and deleting separately (`crates/vt-mirror/src/diff.rs:23-26`). But a script that only
  reorders ends in the new order exactly when each move takes from behind all that the moves before it have touched:
  `MovableMoves.ReorderingExact`, `MovableList.ReversalGoesWrong`.
- The positional list deletes a shrunk tail in ascending order (`crates/vt-mirror/src/diff.rs:549-557`), which runs
  off the list when the tail is longer than one item.
- `publish_shared_session` is described as doing nothing without a room, but it raises the watermark
  (`crates/vt-ffi/src/shared_session_docs.rs:363-388`): `PublishWatermark.UnsentIsNeverSent`.
- `apply` reads the version before and after an import without holding a lock that local edits take, so it may take a
  local edit for part of the import: `PublishWatermark.RaiseSwallowsExactly`. A publish between the import and the
  raising of the watermark sends the arrivals back to the room, which the watermark is there to prevent:
  `PublishWatermark.ArrivalStaysOutExactly`.
- A publish exports up to the document's end but raises the watermark only to the version it read before
  (`crates/vt-ffi/src/shared_session_docs.rs:374-381`), so what enters in between is sent again with the next one:
  `PublishWatermark.ExportedTwiceExactly`.
- A fresh session is said never to be over its key budget (`services/community-invite/server.py:1345-1348`), and the
  answer of its start's claim is not looked at. The claim is granted exactly when the session is still open, which it
  is unless its reservation went stale in between: `MintProtocol.StartClaimExactly`,
  `MintProtocol.FreshStartIsGranted`.
- Every intermediate state of a move is said to hold the content (`crates/vt-ffi/src/session_move.rs:19-23`). The plan
  is made at lines 52-55, before the lock is taken at line 56, and only the commit checks it again
  (`crates/vt-store/src/notebook_store.rs:577-590`). When two calls plan the same move at once, the second is refused
  after the first has moved the recording, and its rollback (lines 87-111) removes the recording from the notebook
  that now owns it: `MoveRuns.TwoCallsLoseTheRecording`. `MoveRuns.EditFreeRunExactly` says exactly when a run loses
  nothing.
- The same promise fails for what is written into a realtime transcript while a move runs. The move reads the
  recording's slice once, copies it (lines 183-208) and clears it (lines 130-144); the verbs that write a transcript
  take no lock that it holds, so an annotation made in between is cleared with the slice and is in neither notebook:
  `MoveRaces.EditDuringMoveExactly`, `MoveRaces.EditDuringMoveIsLost`, `MoveRaces.LateEditIsCleared`.
- A copy of flat text is taken for the whole when any of the recording's text is there (lines 241-249). One that
  failed among its marks (lines 259-283), and whose rollback failed too, leaves a part:
  `MoveRaces.HalfCopyIsTakenForWhole`.
- A failed move is to leave nothing of the session behind in the target (lines 58-60). Where a copy fails among its
  marks, the characters not yet marked are nobody's, so a rollback that works leaves them in the target:
  `MoveFailures.HalfCopyUndoneExactly`.
- `stream_duration_seconds` promises that the lanes of a session together stay within the reservation; that holds if
  and only if the reservation has a second per lane: `QuotaRuns.LanesStayWithinReservation`.
- A quota may be negative, since the command line takes any number; then nothing is ever reserved, and the bound is
  the larger of the quota and nought.
- The move says that a replay converges after a crash (`crates/vt-ffi/src/session_move.rs:19-23`). Before the commit
  it does. After it, planning the same move again is refused, because the recording already belongs to the target
  (`crates/vt-store/src/notebook_store.rs:637-641`), so a section that was not cleared stays in the source. Moving
  back later takes it for the copy: `MoveRuns.EditIsLostOnTheWayBack`; `MoveRuns.MoveKeepsNewestText` says exactly
  when text written since is carried along.
- Sections of flat text are promised to read in recording order. Two sections of the same second stand in the order
  they arrived but are listed by id, and a section recorded before both can land between them:
  `FlatMove.CopyKeepsOrder` and `FlatMove.TieSplitsOrder`. Transcript blocks take the first later block of the
  document and keep the order.
- The read of a recording's span misses the last frames of a recording that does not end on a whole millisecond:
  `AudioWindow.WholeReadIsComplete`.
- A file cut inside a chunk's length prefix reads as a shorter file, without an error:
  `EncryptedStream.TruncationIsReportedPastHeader`.

## Model

| member | source | states |
|---|---|---|
| Lis.LongestIncreasingSubsequence | crates/vt-mirror/src/lis.rs:10-51 | The returned indices rise, their values rise strictly, and no strictly rising pick of the input, of any kind, is longer |
| Lis.TailSlot | crates/vt-mirror/src/lis.rs:22-32 | The binary search finds the one slot where the value belongs among the tails |
| Lis.FileAll | crates/vt-mirror/src/lis.rs:16-41 | After the pass over the input every value has the rank of the longest pick ending there, tails are the least ends of their ranks, and each predecessor is one rank below and smaller |
| Lis.FollowLinks | crates/vt-mirror/src/lis.rs:42-51 | Filling the result from the back through the predecessors gives a rising pick as long as the number of tails |
| Lis.PickIsBoundedByRank | crates/vt-mirror/src/lis.rs:10-51 | A pick ending at an index is never longer than that index's rank |
| Lis.NoPickIsLonger | crates/vt-mirror/src/lis.rs:10-51 | No pick of the whole input is longer than the highest rank |
| MirrorState.BuildKeepsConforming | crates/vt-mirror/src/mirror.rs:840-973 | A container created from a value reads back as that value if and only if the value conforms to the container's schema |
| Numerals.DecimalParses | crates/vt-mirror/src/diff.rs:67-85 | A list index written as a key parses back to that index, for every index |
| MirrorState.IndexEntriesAreListed | crates/vt-mirror/src/diff.rs:67-77 | The entries of a list are its items under their decimal indices, each once |
| MirrorState.ObjectEntries | crates/vt-mirror/src/diff.rs:67-77 | The entries of a value list each field, or each list item under its index, exactly once |
| MapDiff.DiffContainer | crates/vt-mirror/src/diff.rs:101-212 | For a stored tree of maps, texts and lists of any nesting, whatever the lists' own scripts end in: the script is addressed at or below the container, no change rewrites the way to another one, and applying it to the stored tree gives the new value if and only if `Lands` holds. A stored container stays the kind it is, and field by field, all the way down, a field's container is edited in place, made anew or left alone as declared types and shapes say (`IsKept`); a change is addressed to a field of a map if and only if the field is not edited in place and not as wanted (`WritesAllRight`). It is refused if and only if the new value has not the container's shape, the schema declares another type, or so it is for a field that is edited in place (`IsRefused`) |
| MapDiff.DiffField | crates/vt-mirror/src/diff.rs:604-691 | One field's changes touch that field only and land it exactly under the guards of the code; an equal field gets no change unless its value is falsy. A container of the declared type, or else of the type the value suggests, is edited in place: no change is addressed to its key in the map, and it stays a container of its kind; every other field is written whole, as the container asked for or as the plain value |
| MapDiff.DeleteMissing | crates/vt-mirror/src/diff.rs:591-601 | Exactly the fields the new object lacks are deleted, except the empty key; nothing else changes |
| MapDiff.DiffFields | crates/vt-mirror/src/diff.rs:603-691 | The loop over the new fields settles each of them and leaves the others as they were |
| MapDiff.DiffMap | crates/vt-mirror/src/diff.rs:576-694 | The applied script reads as the new object if and only if `Lands`; equal inputs give an empty script if and only if no field is falsy; containers survive or are made anew as in `MapDiff.DiffContainer` |
| MapDiff.InsertSettles | crates/vt-mirror/src/diff.rs:615-690 | A field that cannot be edited in place is written whole, and lands exactly when its value has the declared shape and its key is not empty |
| MapDiff.ReadsBack | crates/vt-mirror/src/diff.rs:576-694 | A map reads as the new object if and only if each of its fields does |
| MapDiff.NotEverythingLands | crates/vt-mirror/src/diff.rs:576-694 | Concrete inputs the diff accepts and does not land: an empty key, a list given for a map, a number in a field declared to be text |
| MapDiff.KeptField | crates/vt-mirror/src/diff.rs:630-672 | A field whose container is edited in place ends as a container of its kind, and no change of the script is addressed to the field's key in the map |
| MapDiff.WrittenField | crates/vt-mirror/src/diff.rs:604-690 | Any other field gets one change at its own key, and becomes the container its declared type asks for, or its value's shape where none is declared, or the plain value |
| NodeShapes.DeclaredSchemas | crates/vt-mirror/src/diff.rs:580-608 | A field's schema is the one its map declares under the key, and an item's the one its list declares; nothing else declares one |
| NodeShapes.CreatedFields | crates/vt-mirror/src/mirror.rs:840-973 | A map created for an object has exactly the object's fields, each the container declared for it where the value has its shape and else the value itself, all the way down |
| MapDiff.ApplyAllAppends | crates/vt-mirror/src/mirror.rs:533-569 | Applying two scripts one after the other is applying their concatenation |
| MapDiff.ApplyAllBelowChild | crates/vt-mirror/src/mirror.rs:533-569 | A script addressed below one child changes that child alone, as it would change the child by itself |
| ScriptOrder.IndependentChangesCommute | crates/vt-mirror/src/mirror.rs:466-495 | Two changes of different containers, neither of which rewrites the way to the other, may be applied in either order |
| ScriptOrder.ContainerOrderIsHarmless | crates/vt-mirror/src/mirror.rs:466-495 | Applying the script container by container reaches the same tree as applying it in the order it was emitted |
| ScriptOrder.UpdateMap | crates/vt-mirror/src/mirror.rs:450-495 | Diffing and then applying the changes grouped by container gives the new value if and only if `Lands`, and stored containers are kept in place as in `MapDiff.DiffContainer`; on an error the tree is untouched, and one comes up exactly when `IsRefused` |
| ListScript.RunAllAppends | crates/vt-mirror/src/mirror.rs:570-637 | Running two list scripts one after the other is running their concatenation, failures included |
| ListScript.NewSlotReads | crates/vt-mirror/src/utils.rs:83-113 | An inserted item reads back as its value when it is stored as a plain value or conforms to the item schema. It becomes the container the item schema declares, and a node of that kind; under a plain schema what the value's shape suggests; and a plain value without a schema or under a movable list |
| ListScript.NestedEditsOneItem | crates/vt-mirror/src/mirror.rs:570-637 | Changes addressed to one item's container edit that item in place and leave the list's order alone |
| ListScript.NestedCommutes | crates/vt-mirror/src/mirror.rs:570-637 | An item's own changes commute with inserts and deletes of other items |
| KeyedListExact.DiffListWithIdSelector | crates/vt-mirror/src/diff.rs:367-495 | The script never leaves the list, for any input, every insert asks for the container its item should become, and slot by slot the script ends in a merge of the two lists in which an item that meets one with its id stays the same container, of the same kind and with the same id (`IsMerge`). Where the items the script edits or inserts land, it ends in the new list if and only if the scan passes no old item over; with ids everywhere it ends in the new list followed by the old items from `Reach` on, and with distinct ids that is the new list alone if and only if the old list was empty, its last item is kept, or the kept items were reordered; it is refused if and only if the diff of an item that meets one with its id is |
| KeyedList.ScanOne | crates/vt-mirror/src/diff.rs:401-477 | One turn of the scan keeps the settled part, followed by what the script makes of the rest, equal to what it makes of the whole |
| KeyedList.ScanOld | crates/vt-mirror/src/diff.rs:393-477 | The walk over the old list keeps index plus offset non-negative and in range and stops with the old list used up |
| KeyedList.AppendNew | crates/vt-mirror/src/diff.rs:479-494 | The new items left over are appended in order at the end |
| KeyedList.DiffSameId | crates/vt-mirror/src/diff.rs:418-450 | Items with the same id become equal: a container is edited in place and keeps its id and kind, a plain value is replaced by what an insert of the new one should be |
| KeyedListExact.MergedExactly | crates/vt-mirror/src/diff.rs:393-494 | What the script makes of two lists is the new one if and only if no old item is left standing beside its counterpart |
| KeyedListExact.NoIdsExactly | crates/vt-mirror/src/diff.rs:410-415 | Between lists without ids that is so if and only if the old list is where the new one begins |
| KeyedListExact.MergedIsReach | crates/vt-mirror/src/diff.rs:393-494 | With ids everywhere the script leaves the new list and the old items not looked at when it ran out |
| KeyedListExact.KeyedScriptIsExact | crates/vt-mirror/src/diff.rs:412-415 | With distinct ids nothing is left over if and only if the old list was empty, its last item is kept, or the kept items were reordered |
| KeyedListExact.ReachIsEnd | crates/vt-mirror/src/diff.rs:376-477 | The scan reads the whole old list if and only if some item of it forces it to |
| KeyedListExact.DropEnd | crates/vt-mirror/src/diff.rs:412-415 | A whole family of failures: run, the script that should drop the end of a list, however long, leaves all of it in place |
| MoveBound.MovesLeaveAPick | crates/vt-mirror/src/diff.rs:291-308 | After n single-item moves of a list, all but n of a rising pick still rise |
| MoveBound.FewestMoves | crates/vt-mirror/src/diff.rs:291-308 | No sequence of moves that brings a sorted list into a given order is shorter than the items outside a longest rising pick of that order |
| MovableScript.OrderedSurvivorsStay | crates/vt-mirror/src/diff.rs:291-308 | When the survivors keep their order, the optimal pick covers them all and no move is emitted |
| MovableScript.OrderedSurvivorsArrange | crates/vt-mirror/src/diff.rs:277-325 | Then the descending deletes and ascending inserts put every survivor and every new item in its place |
| MovableScript.OneRelocatedArranges | crates/vt-mirror/src/diff.rs:291-308 | When one item of a permutation is relocated the script has exactly one move, and running it gives the new order |
| MovableScript.DeletesKeep | crates/vt-mirror/src/diff.rs:277-289 | Deleting from the back leaves exactly the items not deleted, in order |
| MovableScript.InsertsComplete | crates/vt-mirror/src/diff.rs:310-325 | Inserting the new items in ascending order completes the arrangement around the survivors |
| MovableList.DiffMovableList | crates/vt-mirror/src/diff.rs:234-364 | For every input the script starts with deletions, a least set of moves and insertions, and every insert asks for the container its item should become; with distinct ids and items whose own edits land, it ends in the new list whenever these put every item in its place, as they do where the survivors keep their order or one item is relocated, and then a surviving container is the same container, of the same kind and with the same id, and every other item is stored as it should be (`ItemsKept`); `MovableMoves.DiffArrangesExactly` and `MovableExact.SingleMoveExact` say exactly when they do; an error means that the diff of a new item and the last stored one with its id is refused, and only that |
| MovableList.HeadArranges | crates/vt-mirror/src/diff.rs:277-325 | In that scope the deletes, moves and inserts reach the arranged list |
| MovableList.UpdateItems | crates/vt-mirror/src/diff.rs:327-361 | The last pass brings every survivor up to date in place, a container staying the container it is, and leaves the inserted items alone |
| MovableList.CollectDeletes | crates/vt-mirror/src/diff.rs:277-289 | The deletions are those of the items gone, from the highest index down |
| MovableList.RepeatedIds | crates/vt-mirror/src/diff.rs:254-289 | For any ids, repeated ones too: a new item is paired with the last old item of its id, and an old item is deleted if and only if it is the last of its id and no new item has the id |
| MovableList.NoFewerMoves | crates/vt-mirror/src/diff.rs:291-308 | Whatever single-item moves reorder the survivors, they are at least as many as the script's |
| MovableList.ReversalGoesWrong | crates/vt-mirror/src/diff.rs:291-308 | A concrete failure: reversing three items ends in another order, whichever longest pick is chosen |
| MovableExact.NoMoveExact | crates/vt-mirror/src/diff.rs:277-325 | Without an emitted move, deletes and inserts arrange the list if and only if the survivors keep their order |
| MovableExact.SingleMoveExact | crates/vt-mirror/src/diff.rs:277-325 | With one emitted move the list is arranged if and only if the other survivors keep their order, nothing before the item's old index is deleted and nothing before its new index is inserted |
| MovableExact.WrongItemNeverHelps | crates/vt-mirror/src/diff.rs:296-308 | A stale index that moves another item never gives the wanted order by coincidence |
| MovableExact.OneMoveExact | crates/vt-mirror/src/diff.rs:296-308 | The same on the order of the survivors alone, for every longest pick |
| MovableExact.InsertsExact | crates/vt-mirror/src/diff.rs:310-325 | The insertions complete the list if and only if the survivors stand in the new order before them, and always run |
| MovableExact.DistinctIdsMakeAJob | crates/vt-mirror/src/diff.rs:250-275 | Lists with distinct ids meet what the exact conditions ask for |
| MovableMoves.FrontExactly | crates/vt-mirror/src/diff.rs:288-308 | Past the places filled so far, an index names what it named before the moves if and only if no move has taken from as far back, and a lower item otherwise |
| MovableMoves.ArrivesExactly | crates/vt-mirror/src/diff.rs:288-308 | Any number of moves by old and new index bring a list into an order, for every longest pick of it, if and only if every item outside the pick is moved and each from behind all that the moves before it have touched |
| MovableMoves.NoneIsWrong | crates/vt-mirror/src/diff.rs:288-308 | No order comes out right by a move that takes another item than the one meant |
| MovableMoves.ArrivingIsTight | crates/vt-mirror/src/diff.rs:288-308 | An order that comes out right took a different item with every move, and moved every item outside the pick |
| MovableMoves.MovesExact | crates/vt-mirror/src/diff.rs:277-325 | Where nothing is deleted before the old index and nothing inserted before the new index of an item outside the pick, the script's head arranges the list if and only if its moves go forward, however many they are |
| MovableMoves.ReorderingExact | crates/vt-mirror/src/diff.rs:277-325 | So it is for every script that deletes and inserts nothing |
| MovableMoves.DiffArrangesExactly | crates/vt-mirror/src/diff.rs:234-325 | The same in terms of the lists and their ids |
| MovableMoves.ShiftedComesRight | crates/vt-mirror/src/diff.rs:288-325 | Where an insertion shifts what a move names, a script can come out right with a move that takes the wrong item: a concrete one |
| PositionalList.DiffList | crates/vt-mirror/src/diff.rs:500-573 | Run change by change, the positional script succeeds if and only if the list loses at most one item, and then reads as the new list if and only if every place lands; an error means that some place does not. A container at a place both lists have is edited in place and keeps its id and kind, and every insert asks for, and is stored as, the container its item should become; it is refused if and only if the diff of some place's container is |
| PositionalList.AscendingDeletesFit | crates/vt-mirror/src/diff.rs:549-557 | Deleting a tail in ascending order leaves the list as soon as the tail is longer than one item |
| QuotaLedger.SettlingKeepsBalance | services/community-invite/server.py:715-748 | Settling an open session for at most its reservation keeps every sum over open and settled sessions equal to its column |
| QuotaRuns.StepKeepsBalance | services/community-invite/server.py:383-454 | Every transaction keeps the balance: reserved is the sum over open sessions, used the sum of settlements, both together within the quota |
| QuotaRuns.EveryRunBalances | services/community-invite/server.py:218-748 | The balance holds in every ledger reachable by creating, reserving, settling, expiring, adjusting, pausing, claiming and releasing keys; no session is settled for more than it reserved; no session has more than 16 keys |
| QuotaRuns.EveryRunContinues | services/community-invite/server.py:383-454 | Over any run session rows only ever gain a settlement, and that once |
| QuotaRuns.ReserveThenSettle | services/community-invite/server.py:416-454 | Settling a fresh reservation charges exactly what was used, held to the reservation, and gives all of it back |
| QuotaRuns.ReserveGrantsMost | services/community-invite/server.py:416-454 | A grant is the most that the request, the limit of a session and the seconds left all allow; refused if and only if the invite is missing, paused or used up |
| QuotaRuns.AdjustUndone | services/community-invite/server.py:650-674 | Taking a change of quota back restores the ledger if and only if the change did not run into what is used and reserved |
| QuotaRuns.PauseUndone | services/community-invite/server.py:676-692 | A paused invite grants nothing, and resuming it restores the ledger |
| QuotaRuns.ClaimThenRelease | services/community-invite/server.py:497-552 | Releasing a claim at once restores the ledger |
| QuotaRuns.ExpireClearsStale | services/community-invite/server.py:383-401 | Expiry settles every open reservation older than the limit at zero and touches no other |
| QuotaRuns.KeysAfterClaim | services/community-invite/server.py:497-532 | A claim adds its count to the session's rows and nothing to any other's |
| QuotaRuns.KeysAfterRelease | services/community-invite/server.py:538-552 | A release removes the count from the session, as far as it has that many, and nothing from any other |
| QuotaRuns.LanesStayWithinReservation | services/community-invite/server.py:765-772 | The lanes of a session together stay within its reservation if and only if it holds at least a second per lane |
| QuotaAnswers.ClaimExactly | services/community-invite/server.py:497-536 | A claim is granted if and only if it asks for at least one key, the session is the invite's and open, and its key rows and the claim together are at most sixteen; it answers that sum and adds that many rows of the session, and a refused one changes nothing |
| QuotaAnswers.ReleaseExactly | services/community-invite/server.py:538-552 | A release takes the session's newest key rows, as many as it says or all of them, keeps every row before them and all rows of other sessions, in order |
| QuotaAnswers.MintBeginsExactly | services/community-invite/server.py:1403-1418 | A mint begins if and only if the service is configured and its claim is granted; otherwise it is answered with an error and nothing is claimed |
| QuotaAnswers.MintOpensExactly | services/community-invite/server.py:1394-1402 | A mint goes on if and only if its session is open when it is read |
| QuotaAnswers.BatchExactly | services/community-invite/server.py:1407-1411 | A batch is as many keys as asked for, from one to four; a renewal is one |
| QuotaAnswers.ReserveExactly | services/community-invite/server.py:416-454 | A grant adds one open row with the name, invite, seconds, time, and the lanes asked for, from one to four, and holds its seconds of the invite; a refusal changes nothing |
| QuotaAnswers.SettleExactly | services/community-invite/server.py:715-748 | A settlement closes the invite's open session with what was used, from nothing up to what was reserved, and without one changes nothing |
| QuotaAnswers.ExpireExactly | services/community-invite/server.py:383-401 | An expiry closes exactly the open sessions made more than six hours before, at nothing, and leaves every invite holding what its open sessions hold |
| QuotaAnswers.AdjustExactly | services/community-invite/server.py:650-674 | A change of quota adds what is asked but leaves no less than what is used and reserved |
| QuotaAnswers.StreamIsLongest | services/community-invite/server.py:765-772 | A stream lasts the longest that all lanes together can within the reservation, and a second at least |
| QuotaAnswers.MintsOnePerCall | services/community-invite/server.py:1419-1448 | A mint is answered after as many upstream calls that work as it has keys, no sooner and no later |
| QuotaAnswers.FailedMintGivesBack | services/community-invite/server.py:1426-1436 | A mint with one failed call gives its whole claim back and is answered with no key |
| SessionLife.WholeLife | services/community-invite/server.py:1325-1448 | A whole life step by step: an invite with a quota starts a session, which gets its key and one for each lane asked for, and is settled at what it used; nothing else is on the ledger at the end |
| SessionLife.FailedStartRefunds | services/community-invite/server.py:1337-1360 | A start that fails, before its key is claimed or at the call for it, closes its session at nothing and leaves the invite all of its seconds |
| InviteStore.Store.constructor | services/community-invite/server.py:101-216 | A new store is the empty ledger |
| InviteStore.Store.CreateInvite | services/community-invite/server.py:218-229 | The transaction is `QuotaLedger.Create` |
| InviteStore.Store.ExpireStaleReservations | services/community-invite/server.py:383-401 | The loop over stale rows is `QuotaLedger.Expire` |
| InviteStore.Store.ReserveSession | services/community-invite/server.py:416-454 | The transaction and its answer are those of `QuotaLedger.Reserve` |
| InviteStore.Store.SettleSession | services/community-invite/server.py:715-748 | The transaction is `QuotaLedger.Settle`, refused without an open session of the invite, and answers what the invite has left |
| InviteStore.Store.AdjustInviteQuota | services/community-invite/server.py:650-674 | The transaction is `QuotaLedger.Adjust`, never below what is used and reserved |
| InviteStore.Store.SetInviteEnabled | services/community-invite/server.py:676-692 | The transaction is `QuotaLedger.SetEnabled` |
| InviteStore.Store.ReserveSessionKeys | services/community-invite/server.py:497-532 | All or nothing: the whole batch within the budget, or no row |
| InviteStore.Store.ReleaseSessionKeys | services/community-invite/server.py:538-552 | The newest rows of the session go, as many as were claimed |
| MintProtocol.EveryInterleavingAccounts | services/community-invite/server.py:1325-1448 | In every interleaving of starts and mints, upstream failures and other transactions, a session's key rows are the whole batches of its mints in flight, failed and not yet given back, and answered, and the one key its start was granted; the ledger balances |
| MintProtocol.KeysStayInBudget | services/community-invite/server.py:1345-1448 | So the rows are what the requests owe by their kind, batch and phase alone, and never more than the budget |
| MintProtocol.DeliveredKeysStayInBudget | services/community-invite/server.py:1345-1448 | Nor are the keys that went out to clients, as long as the start's claim was granted |
| MintProtocol.StartClaimExactly | services/community-invite/server.py:1345-1348 | A start's claim finds no row of its session and is granted if and only if the session is still open |
| MintProtocol.FreshStartIsGranted | services/community-invite/server.py:1333-1348 | Whatever other requests do between a start's reservation and its claim, the claim is granted, unless the reservation went stale in the meantime |
| MintProtocol.ReleaseIsExact | services/community-invite/server.py:1426-1436 | Giving a failed batch back removes exactly as many rows as it claimed and none of another session |
| EncryptedStream.U32RoundTrip | crates/vt-crypto/src/decrypt.rs:22-27 | A length written as four little-endian bytes reads back as itself |
| EncryptedStream.EncryptToFile | crates/vt-crypto/src/decrypt.rs:16-35 | The file is the sequence of length-prefixed encrypted pieces of the data |
| EncryptedStream.FileYieldsData | crates/vt-crypto/src/decrypt.rs:16-110 | Reading the file chunk by chunk yields exactly the data, for every data and every sound cipher |
| EncryptedStream.TruncationIsReportedPastHeader | crates/vt-crypto/src/decrypt.rs:67-92 | A file cut inside a chunk is reported as broken, unless the cut falls in the chunk's header: then it reads as the end |
| EncryptedStream.ReadReturnsPrefix | crates/vt-crypto/src/decrypt.rs:95-110 | A read never fails on an encrypted file, returns the next bytes, and returns none only when none are left |
| EncryptedStream.DecryptReader.constructor | crates/vt-crypto/src/decrypt.rs:51-64 | A reader starts at the beginning of the file with nothing buffered |
| EncryptedStream.DecryptReader.FillBuffer | crates/vt-crypto/src/decrypt.rs:67-92 | Filling the buffer is one `Fetch` of the file, errors included |
| EncryptedStream.DecryptReader.Read | crates/vt-crypto/src/decrypt.rs:95-110 | A read is one `ReadStep`: a refill when the buffer is used up, then at most the size asked for |
| EncryptedStream.ReadPieces | crates/vt-crypto/src/decrypt.rs:95-110 | For every sequence of sizes the pieces concatenate to a prefix of the data, and a read of a positive size comes back empty only once all of it has been returned |
| EncryptedStream.ReadToEnd | crates/vt-crypto/src/decrypt.rs:16-110 | Encrypting and reading until nothing comes gives back the data |
| CaptureLedger.IndexedCaptureChunks | crates/vt-ffi/src/lib.rs:1267-1308 | The rebuilt windows are exactly those of `AllWindows`, or the first chunk whose file is missing is named |
| CaptureLedger.CountBounds | crates/vt-ffi/src/lib.rs:1273-1282 | The last window starts inside the recording and all windows but the last are full |
| CaptureLedger.WindowsTileFrames | crates/vt-ffi/src/lib.rs:1273-1306 | Frame windows tile the recording: no gap, no overlap, nothing left over, for every length and rate |
| CaptureLedger.WindowsTileMs | crates/vt-ffi/src/lib.rs:1300-1306 | Millisecond windows: each ends where the next starts and the last where the recording does, for every recording; one starts at its sixty seconds if and only if that does not saturate 64 bits |
| CaptureLedger.WindowsEveryMinute | crates/vt-ffi/src/lib.rs:1300-1306 | Where nothing saturates, the windows start every sixty seconds |
| CaptureLedger.CutsAreCuts | crates/vt-ffi/src/lib.rs:1273-1306 | The byte positions between the windows rise from nought to captured times channels times four |
| CaptureLedger.DecryptSessionAudio | crates/vt-ffi/src/settings_api.rs:340-436 | The audio is exported if and only if the format is known, something was captured and every row fits; then it is the chunks joined, captured times channels times four bytes. Otherwise the answer names what is wrong: the format, an empty capture, the number of rows, or the first row that does not fit and whether it is its window, its file or its length |
| CaptureLedger.CheckRow | crates/vt-ffi/src/settings_api.rs:380-420 | A row is refused exactly when it does not fit its place |
| CaptureLedger.LedgerFitsExactly | crates/vt-ffi/src/settings_api.rs:363-420 | A ledger is exported if and only if it has one row for each minute begun, in order, each there, encrypted, not deleted, with that minute's start and end in milliseconds and its frames' bytes; so a deleted, an unencrypted and a shifted row are refused |
| CaptureLedger.JoinRows | crates/vt-ffi/src/settings_api.rs:369-436 | Checking and joining the rows in order succeeds if and only if all fit |
| CaptureLedger.RecoveredLedgerFits | crates/vt-ffi/src/lib.rs:1320-1354 | A ledger rebuilt after an interruption passes every check of the export, which then gives back the recording |
| AudioWindow.WindowRowPart | crates/vt-ffi/src/session_audio_api.rs:398-425 | One window's chunk contributes exactly the bytes of the span that fall into the window |
| AudioWindow.GetAudioSegment | crates/vt-ffi/src/session_audio_api.rs:338-430 | The read is the parts of the live chunks in sorted order, an error for an empty span, and the single file when there are none |
| AudioWindow.DeadRowsAreSilent | crates/vt-ffi/src/session_audio_api.rs:386-407 | A row that is deleted, not encrypted, without its file or outside the span changes nothing of what the span reads, wherever it stands among the others |
| AudioWindow.LiveRowsCount | crates/vt-ffi/src/session_audio_api.rs:386-392 | Rows that are encrypted and not deleted all count |
| AudioWindow.SortKeepsRows | crates/vt-ffi/src/session_audio_api.rs:393 | Sorting gives a sorted arrangement of the same rows |
| AudioWindow.SortedOrderIsUnique | crates/vt-ffi/src/session_audio_api.rs:393 | Rows that start at different times have only one sorted order |
| AudioWindow.SpanInWindow | crates/vt-ffi/src/session_audio_api.rs:417-422 | Frames counted from a window's start are those counted from the start of the recording, held to the window |
| AudioWindow.RecoveredParts | crates/vt-ffi/src/session_audio_api.rs:393-426 | Joined, the parts of a recovered recording are one slice of the whole recording |
| AudioWindow.ReadRecording | crates/vt-ffi/src/session_audio_api.rs:338-430 | Whatever order the rows come in and whatever dead rows stand between them, reading [s, e) gives the bytes from frame floor(s*rate/1000) to frame floor(min(e, last end)*rate/1000), clipped to the recording |
| AudioWindow.WholeReadIsComplete | crates/vt-ffi/src/session_audio_api.rs:417-420 | A read past the end gives the whole recording if and only if it ends on a whole millisecond or within the first of its last window |
| CaptionErasure.ErasureMeter.constructor | crates/vt-ffi/src/capture_erasure.rs:33-42 | A new meter is empty |
| CaptionErasure.ErasureMeter.FinishSession | crates/vt-ffi/src/capture_erasure.rs:67-94 | Finishing clears the meter, and does nothing when no session is open |
| CaptionErasure.ErasureMeter.Roll | crates/vt-ffi/src/capture_erasure.rs:96-101 | A new session starts from an empty meter, the same one goes on |
| CaptionErasure.ErasureMeter.MigrateLaneLanguage | crates/vt-ffi/src/capture_erasure.rs:161-186 | A lane's characters move to its new language as `Migrate` says |
| CaptionErasure.ErasureMeter.RecordText | crates/vt-ffi/src/capture_erasure.rs:188-218 | One update is `Record`: migration first, then the change of text |
| CaptionErasure.ErasureMeter.RewriteLane | crates/vt-ffi/src/capture_erasure.rs:198-217 | A changed text replaces the lane's share and counts what was erased and appended |
| CaptionErasure.ErasureMeter.AbsorbShadow | crates/vt-ffi/src/capture_erasure.rs:108-131 | Without variants the source and translated shadow texts are recorded, each if it is not empty |
| CaptionErasure.ErasureMeter.AbsorbVariant | crates/vt-ffi/src/capture_erasure.rs:134-157 | A variant with text is recorded under its lane, the source lane under its role |
| CaptionErasure.ErasureMeter.AbsorbUtterance | crates/vt-ffi/src/capture_erasure.rs:108-158 | An utterance records its variants if it has any, its shadow texts otherwise |
| CaptionErasure.ErasureMeter.AbsorbCaptions | crates/vt-ffi/src/capture_erasure.rs:45-64 | A caption event rolls the session and absorbs its utterances in order |
| CaptionErasure.CommonPrefixChars | crates/vt-ffi/src/capture_erasure.rs:221-226 | The loop computes `CommonPrefix` |
| CaptionErasure.CommonPrefixIsLongest | crates/vt-ffi/src/capture_erasure.rs:221-226 | Two texts agree on their first n characters if and only if n is at most the common prefix |
| CaptionErasure.ErasesNothing | crates/vt-ffi/src/capture_erasure.rs:200-204 | An update erases nothing if and only if the new text continues the old one |
| CaptionErasure.LaneIsCounted | crates/vt-ffi/src/capture_erasure.rs:164-186 | A lane's characters are all counted under its language, so neither the smaller-of nor the saturating subtraction ever cuts anything off |
| CaptionErasure.RecordKeepsBalance | crates/vt-ffi/src/capture_erasure.rs:188-218 | Before and after every update each language's presented count is the length of the lanes filed under it, and appended less erased is presented |
| CaptionErasure.EveryRunBalances | crates/vt-ffi/src/capture_erasure.rs:45-218 | That balance holds after every run of caption events, re-homings and session changes |
| CaptionErasure.RecordScores | crates/vt-ffi/src/capture_erasure.rs:188-218 | An update adds exactly its least truncation and its addition to the sums over languages; a change of language alone adds nothing |
| CaptionErasure.CountsAreHistory | crates/vt-ffi/src/capture_erasure.rs:188-218 | After any updates the lanes show the last text under the last language of each, and the sums are those counted from the history alone |
| CaptionErasure.SessionCountsItsHistory | crates/vt-ffi/src/capture_erasure.rs:45-101 | After a session's events the meter counts that session's history and nothing before it |
| CaptionLanes.VariantIsFiled | crates/vt-ffi/src/capture_erasure.rs:132-157 | An utterance with variants is counted once for each that has a text, in order: spoken text in the utterance's one source lane under the guessed language or else its own, translated text in the lane of its language |
| CaptionLanes.ShadowIsFiled | crates/vt-ffi/src/capture_erasure.rs:108-131 | An utterance without variants is counted by its source text and its translation, each if there is one, in those lanes |
| CaptionLanes.LanesAreApart | crates/vt-ffi/src/capture_erasure.rs:144-157 | Two texts of one utterance share a lane if and only if both are spoken or both are translations into one language, a language called #source aside |
| CaptionLanes.CaptionStands | crates/vt-ffi/src/capture_erasure.rs:108-218 | After an utterance the meter shows each of its texts in its own lane and language, unless a later text of the utterance took the lane over |
| CaptionLanes.OthersStand | crates/vt-ffi/src/capture_erasure.rs:108-218 | It leaves the lanes of every other utterance as they were |
| MarkedRanges.FindMarkedRanges | crates/vt-ffi/src/editor_api.rs:510-583 | The ranges are sorted, disjoint, never touching and cover exactly the characters that carry every selected mark; refused without a selector and at the first malformed segment |
| MarkedRanges.MatchSegment | crates/vt-ffi/src/editor_api.rs:548-566 | A run matches when it carries every selected value, and is refused when one of them is not a string |
| MarkedRanges.RunsAreUnique | crates/vt-ffi/src/editor_api.rs:510-583 | The characters and their marks alone decide the ranges, however the Delta is cut into segments |
| MarkedRanges.FindUniqueMarkedRange | crates/vt-ffi/src/editor_api.rs:585-597 | One range is given exactly when the matching characters are one stretch; none, and a refusal, when there are none or they are split |
| MarkedRanges.SessionSectionRange | crates/vt-ffi/src/notebook_capture_api.rs:9194-9240 | The section resolver answers the session's stretch, none, or a refusal, passing over attributes that are not an object |
| StyledText.FlatSectionFromDelta | crates/vt-ffi/src/session_move.rs:333-387 | Lifting a range keeps every character and exactly its marks: put on the bare text, the lifted marks give the characters back |
| StyledText.SpliceKeepsMarks | crates/vt-ffi/src/session_move.rs:263-283 | Put into a document, a lifted section has every mark it had, over what the place gives it |
| StyledText.Editor.GetDelta | crates/vt-ffi/src/editor_api.rs:510-530 | A document's Delta has its characters and marks and no malformed segment |
| StyledText.Editor.InsertMarked | crates/vt-ffi/src/session_move.rs:263-283 | Inserting a text and marking it piece by piece is inserting the marked text |
| SectionProjection.RenderTranscriptSection | crates/vt-ffi/src/notebook_api.rs:744-797 | The rendered text and marks are the heading and the blocks, each block under its own marks and all of it owned by the session |
| SectionProjection.SyncSessionTranscript | crates/vt-ffi/src/notebook_api.rs:586-684 | The session's text is replaced by the new section where it stands, everything before and behind it staying as it is, and without one the section goes to the end, if and only if the marks can be read, the text is in one piece and the result can be stored; otherwise the document is as it was |
| SectionProjection.ProjectionReplacesSection | crates/vt-ffi/src/notebook_api.rs:586-656 | A projection leaves every other character alone and leaves the session exactly one stretch, the rendered section |
| SectionProjection.ProjectedIsSynced | crates/vt-ffi/src/notebook_api.rs:608-624 | The projection is the text before the section, the new cells with the marks of that place beneath their own, and the text behind it; without a section the whole document and the new cells behind it |
| SectionProjection.SectionBegins | crates/vt-ffi/src/notebook_api.rs:744-758 | A section starts with its heading line, a blank line before it unless it is the first, owned by the session and otherwise unmarked, and ends with its last block |
| SectionProjection.SectionSpeaks | crates/vt-ffi/src/notebook_api.rs:759-797 | Every block's time and spoken words stand in the section, in order, under the block's own segment and time marks and the session's |
| SectionProjection.SectionSeparates | crates/vt-ffi/src/notebook_api.rs:759-762 | Between two blocks stands a blank line that is no block's |
| SectionProjection.StampReads | crates/vt-ffi/src/notebook_api.rs:799-809 | A time is written as hours, if any, minutes and seconds that make up its whole seconds, minutes and seconds below sixty |
| SectionProjection.TwoDigitsRead | crates/vt-ffi/src/notebook_api.rs:799-809 | Each of them reads back as its number and has two digits at least |
| SectionProjection.ProjectionsReplaceEachOther | crates/vt-ffi/src/notebook_api.rs:586-656 | Projecting the same transcript again gives the identical document; projecting another gives what it would have given at first |
| OwnedText.FindPlace | crates/vt-ffi/src/session_move.rs:157-162 | A session's place is found if and only if every session mark is a string and its text is not split |
| OwnedText.ClearedIsOthers | crates/vt-ffi/src/session_move.rs:157-171 | Deleting the range leaves exactly the text that is not the session's |
| FlatMove.FlatAnchorPosition | crates/vt-ffi/src/session_move.rs:311-331 | The anchor is the start of the first listed session that has text |
| FlatMove.RemoveFlatSection | crates/vt-ffi/src/session_move.rs:154-178 | The session's text goes and every other character stays; refused when it has no single place |
| FlatMove.CopyFlatSection | crates/vt-ffi/src/session_move.rs:213-289 | The target gets the section at the anchor, or nothing when there is none or it is there already; refused exactly under `CopyFails`, with the target untouched |
| FlatMove.CopyHoldsSection | crates/vt-ffi/src/session_move.rs:213-289 | The copy holds the section with every mark it had, and clearing it again gives the target back exactly |
| FlatMove.AnchorIsOwnedByNone | crates/vt-ffi/src/session_move.rs:251-283 | Text put in at an anchor takes over no session's mark |
| FlatMove.CopyMarksExactly | crates/vt-ffi/src/session_move.rs:251-283 | A mark that does not expand is on a copied character if and only if it was on the original, with its value, except one, never a session's, that both neighbours of the copy carry with one value |
| FlatMove.CopyLeavesOthers | crates/vt-ffi/src/session_move.rs:213-289 | A copy leaves every other session's text as it was |
| FlatMove.CopyKeepsPlaces | crates/vt-ffi/src/session_move.rs:213-289 | A copy keeps every session's text in one piece |
| FlatMove.CopyTwiceIsOnce | crates/vt-ffi/src/session_move.rs:241-249 | Copying again changes nothing |
| FlatMove.HalfCopyLeaves | crates/vt-ffi/src/session_move.rs:259-283 | A copy that fails between the insertion and its marks leaves every other session's text as it was, and the session with the characters already marked |
| FlatMove.ClearLeavesOthers | crates/vt-ffi/src/session_move.rs:154-178 | Clearing empties the session's text, leaves the others', and again changes nothing |
| FlatMove.CopyKeepsOrder | crates/vt-ffi/src/session_move.rs:251-258 | The document stays in recording order if and only if no later section stands before the anchor |
| FlatMove.DistinctTimesKeepOrder | crates/vt-ffi/src/session_move.rs:311-331 | None does when no two listed sections were recorded in the same second |
| FlatMove.TieSplitsOrder | crates/vt-ffi/src/session_move.rs:311-331 | A concrete failure: two sections of the same second, and a third recorded before both lands between them |
| SessionSlices.SessionSliceRange | crates/vt-store/src/transcript_projection.rs:402-435 | The slice runs from the session's first capture block to the next block that is not an annotation; refused if and only if another owner's block stands between its own |
| SessionSlices.RangeIsSlice | crates/vt-store/src/transcript_projection.rs:277-289 | A slice's range holds exactly the session's blocks and their annotations, and cutting it out leaves exactly the rest |
| SessionSlices.Transcript.SessionSlice | crates/vt-store/src/transcript_projection.rs:277-289 | The slice read is the session's blocks with the annotations that follow them |
| SessionSlices.Transcript.SpliceSessionSlice | crates/vt-store/src/transcript_projection.rs:297-342 | Blocks are put in from the anchor on, passing over those whose id is there; refused for an empty id, an unsupported lane or an unknown anchor |
| SessionSlices.Transcript.RemoveSessionSlice | crates/vt-store/src/transcript_projection.rs:349-362 | The slice goes and exactly the rest stays |
| SessionSlices.FirstLaterCaptureBlock | crates/vt-ffi/src/session_move.rs:297-309 | The anchor is the first block captured for a listed session |
| SessionSlices.CopyTranscriptSlice | crates/vt-ffi/src/session_move.rs:183-207 | The whole copy of a slice, or nothing when it is interleaved or malformed |
| SessionSlices.CopyKeepsSound | crates/vt-ffi/src/session_move.rs:183-207 | A copy puts the slice there whole, leaves every other slice, keeps the transcript sound, and cutting the slice out again gives the target back |
| SessionSlices.RemoveKeepsSound | crates/vt-store/src/transcript_projection.rs:349-362 | A removal leaves every other slice, keeps the transcript sound, and again changes nothing |
| SessionSlices.CopyKeepsOrder | crates/vt-ffi/src/session_move.rs:183-207 | After a copy the transcript is still in recording order, ties or not |
| PartialCopy.CopySoundExactly | crates/vt-store/src/transcript_projection.rs:297-342 | Into a transcript that has some of the slice left over, a copy leaves every block in its own recording's slice and no slice torn if and only if nothing is left over, nothing is missing, or the missing blocks go in right behind what is left |
| PartialCopy.CopyTakesSliceAlong | crates/vt-store/src/transcript_projection.rs:297-342 | It leaves the source's slice, whole and apart, if and only if the target had a first part of it and the rest goes in right behind |
| SessionMove.OpenedLosesNothing | crates/vt-ffi/src/session_move.rs:47-60 | Any notebooks with sound documents are a state in which nothing is lost, whatever they have left over of other recordings |
| SessionMove.CopyExactly | crates/vt-ffi/src/session_move.rs:113-127 | A copied tab stays sound if and only if its blocks fit, and then holds the recording if and only if the source's text is taken along or, where the target held it already, nothing is added |
| SessionMove.CommitKeeps | crates/vt-store/src/notebook_store.rs:577-620 | Flipping the owner after all three copies, with a plan that still holds, leaves the new owner with everything |
| SessionMove.StepExactly | crates/vt-ffi/src/session_move.rs:47-152 | A step, of whatever plan, loses nothing if and only if it is harmless: no rollback of a tab in the notebook that owns the recording, no copy that meets another text left over, none that adds to a new owner, no copy that breaks off half-way in the owner, no edit that breaks a document, and, at any time, no edit of a transcript slice that a move under way counts on |
| SessionMove.EveryRunExactly | crates/vt-ffi/src/session_move.rs:47-152 | Over any run of plans made at any time, moves, failures, half copies, rollbacks, crashes, edits of flat text between moves and edits of transcripts at any time, every owner has what was last written of its recordings, and every move what it counts on, at every point if and only if no step does harm |
| MoveRuns.EditFreeRunExactly | crates/vt-ffi/src/session_move.rs:47-152 | While nobody edits and no copy breaks off half-way, a run keeps every recording whole in its owner if and only if no tab with something in it is rolled back in a notebook that owns the recording by then |
| MoveRuns.EveryRunKeepsSections | crates/vt-ffi/src/session_move.rs:47-152 | So nothing is lost, whatever fails or is cut off, as long as every move begins while the plan's notebook still owns the recording |
| MoveRuns.TwoCallsLoseTheRecording | crates/vt-ffi/src/session_move.rs:52-111 | A concrete run: two calls plan the same move before either has the lock; afterwards the recording's text is in neither notebook |
| MoveRuns.MoveKeepsNewestText | crates/vt-ffi/src/session_move.rs:52-83 | A move that is neither cut off nor edited into takes the newest text along if and only if in every tab the target had nothing left over, that very text, or in the transcript a first part of it with the rest next; `MoveRaces.EditDuringMoveExactly` has the edits |
| MoveRuns.EditIsLostOnTheWayBack | crates/vt-ffi/src/session_move.rs:15-23 | A concrete run: after a crash behind the commit, an edit in the new notebook and a move back, the old note is taken for the copy and what was written since is in neither notebook |
| MoveRuns.RepeatingChangesNothing | crates/vt-ffi/src/session_move.rs:113-152 | A copy or clear step done again changes nothing |
| MoveRuns.UndoRestoresTarget | crates/vt-ffi/src/session_move.rs:84-111 | Undoing a copy that got as far as any tab gives the target back exactly as it was; `MoveFailures.RollbackRestoresExactly` has it as a run |
| MoveFailures.RollbackRestoresExactly | crates/vt-ffi/src/session_move.rs:61-111 | As a run: a move that fails once n tabs are copied, because the next copy fails or the commit is refused, and is rolled back, ends with no move under way, the same owners, and every notebook exactly as it was if and only if the target had nothing of the recording before |
| MoveFailures.RefusalRestoresExactly | crates/vt-ffi/src/session_move.rs:69-75 | So it is when the commit is refused after all three copies |
| MoveFailures.HalfCopyUndoneExactly | crates/vt-ffi/src/session_move.rs:84-111 | A copy that breaks off among its marks and is rolled back leaves exactly the characters that had no mark yet, so the target is restored if and only if all of them had theirs |
| MoveFailures.FailedClearEnds | crates/vt-ffi/src/session_move.rs:76-83 | A clear that fails after k tabs leaves the move committed: the target with all the copies, the source cleared of the first k tabs and the others as they were |
| MoveFailures.ReplayConverges | crates/vt-ffi/src/session_move.rs:15-23 | Before the commit a replay converges: a move made again after the process ended among its copies ends in the books, owners and text of one that was not cut off |
| MoveRuns.ClearedLacksAll | crates/vt-ffi/src/session_move.rs:76-80 | A clear that is not cut off leaves nothing of the recording behind |
| MoveRaces.EditDuringMoveExactly | crates/vt-ffi/src/block_document_api.rs:266-330 | A move that by itself takes everything along, with the source's transcript edited at any point between its beginning and its commit, loses nothing if and only if the edit is sound and leaves the recording's slice as it was read |
| MoveRaces.EditDuringMoveIsLost | crates/vt-ffi/src/session_move.rs:183-208 | A concrete run: an edit of the recording's slice made while the tabs are copied, an annotation say, is in neither notebook after the clear, and the owner does not hold it |
| MoveRaces.LateEditIsCleared | crates/vt-ffi/src/session_move.rs:130-144 | A concrete run: the same for an edit of the old notebook's slice between the commit and the clear |
| MoveRaces.HalfCopyIsTakenForWhole | crates/vt-ffi/src/session_move.rs:241-283 | A concrete run: the part of a copy that broke off and could not be rolled back is taken for the whole copy by the next move, which clears the rest from the source |
| PublishWatermark.ExtendToInclude | crates/vt-ffi/src/shared_session_docs.rs:531-537 | The watermark is raised exactly at the peers that grew, to their new counts |
| PublishWatermark.SharedSessions.PublishSharedSession | crates/vt-ffi/src/shared_session_docs.rs:363-389 | A publish exports everything since the watermark, what other threads wrote meanwhile included, and raises the watermark to the version read before, whether or not a room is there; nothing for an unregistered or unchanged document or a failed export |
| PublishWatermark.SharedSessions.Apply | crates/vt-ffi/src/shared_session_docs.rs:516-544 | An import brings any mounted document up to the update; for a registered one the watermark takes in what the document grew by between the two readings, and other documents' watermarks stay |
| PublishWatermark.WholeIsItsSteps | crates/vt-ffi/src/shared_session_docs.rs:363-544 | A publish or an import that nothing interrupts is its steps one after the other, whatever other imports are under way |
| PublishWatermark.FailuresLeaveNothing | crates/vt-ffi/src/shared_session_docs.rs:363-544 | A publish whose export fails and an import that fails leave the document, the watermark and every other import as they were |
| PublishWatermark.EveryRunAccounts | crates/vt-ffi/src/shared_session_docs.rs:363-544 | However the steps of edits, of any number of imports at once and of publishes interleave, an operation behind the watermark was marked by exactly one export or taken in exactly once |
| PublishWatermark.ExportedTwiceExactly | crates/vt-ffi/src/shared_session_docs.rs:372-382 | No operation is in more than two exports, and one is in two if and only if an export overtook it and the watermark then passed it otherwise than by an import |
| PublishWatermark.OvertakenIsSentTwice | crates/vt-ffi/src/shared_session_docs.rs:372-382 | An operation that enters between the reading of the version and the export goes out with that publish and with the next |
| PublishWatermark.EditDuringPublishIsSentTwice | crates/vt-ffi/src/shared_session_docs.rs:372-382 | A concrete run: an edit made while a publish is under way is sent twice |
| PublishWatermark.PassedIsFinal | crates/vt-ffi/src/shared_session_docs.rs:363-544 | What became of an operation behind the watermark never changes |
| PublishWatermark.ArrivalStaysOutExactly | crates/vt-ffi/src/shared_session_docs.rs:516-537 | Whatever other imports overlap with it: an operation that arrives with an import is in no export, whatever follows, if and only if no export is made before an import, this or another, has taken the operation in |
| PublishWatermark.ArrivedIsNeverExported | crates/vt-ffi/src/shared_session_docs.rs:516-537 | So a whole import keeps everything it brings out of every export |
| PublishWatermark.OwnEditsAreExportedOnce | crates/vt-ffi/src/shared_session_docs.rs:363-389 | When publishes and imports are whole, a publish leaves every edit made here before it in exactly one export |
| PublishWatermark.RaiseSwallowsExactly | crates/vt-ffi/src/shared_session_docs.rs:522-537 | The last step of any of the imports under way ends the exports of an operation not yet passed if and only if the operation was there at its second reading and its peer had grown since its first |
| PublishWatermark.EditDuringImportIsNeverExported | crates/vt-ffi/src/shared_session_docs.rs:522-537 | A concrete run: an edit made while an import is under way never reaches the room |
| PublishWatermark.UnsentIsNeverSent | crates/vt-ffi/src/shared_session_docs.rs:381-388 | What passes with an export made while no room is there is not made up for later |
| Resampler.CanonicalizeForSoniox | crates/vt-audio/src/canonical.rs:20-82 | Errors for a missing rate, no channels and misaligned input; nothing for nothing; otherwise the resampled downmix |
| Resampler.Interpolate | crates/vt-audio/src/canonical.rs:67-79 | The loop computes the line through the samples at every output moment, and its clamp never acts |
| Resampler.MonoIsBounded | crates/vt-audio/src/canonical.rs:45-54 | Every mixed sample is within full scale, whatever was stored |
| Resampler.MixIsMean | crates/vt-audio/src/canonical.rs:45-54 | A mixed sample times the number of channels is the sum of its frame's channels, each cut off at full scale and silent where it is not a number |
| Resampler.CountIsRounded | crates/vt-audio/src/canonical.rs:60-64 | The frame count is within half a source period of n*16000/rate, unless a lone frame is forced |
| Resampler.LeftIsInside | crates/vt-audio/src/canonical.rs:60-73 | The left index is below the sample count without the clamp |
| Resampler.ClockIsExact | crates/vt-audio/src/canonical.rs:69-75 | Index and fraction together are the exact moment, without drift |
| Resampler.OutputIsBetween | crates/vt-audio/src/canonical.rs:76-79 | Every output frame lies between the two samples around its moment |
| Resampler.OutputIsWeighted | crates/vt-audio/src/canonical.rs:67-79 | An output frame is the mean of the two samples around its moment, each weighted by the other's distance, and past the last sample it is that sample |
| Resampler.OutputIsBounded | crates/vt-audio/src/canonical.rs:45-79 | So it is within full scale |
| Resampler.SameRateIsIdentity | crates/vt-audio/src/canonical.rs:56-58 | Passing the samples through at 16 kHz agrees with the general rule |
| Resampler.SamplesAreKept | crates/vt-audio/src/canonical.rs:69-79 | An output frame whose moment is a sample's is that sample |

## Left out

- MovableMoves.MovesExact: when a deletion or an insertion shifts what one of several moves names, no condition is given; such a script can still come out right, by a move that takes the wrong item (`MovableMoves.ShiftedComesRight`). For a single move `MovableExact.SingleMoveExact` covers these scripts too. Whether a head that arranges the list in another order can be mended by the last pass is not asked.
- KeyedListExact.DiffListWithIdSelector: which slots the script ends in is stated for every input; what the list then reads as, for items that land when they are inserted or edited.
- MapDiff.DiffContainer: the changes of a list container nested in a map are one change here, to the items its own script ends in. Duplicate keys and numbers beyond the reals are not modelled.
- SessionMove.EveryRunExactly: a document changed in memory whose write to disk fails is not modelled; a notebook is never deleted, and a recording's capture and purge show only as refused commits.
- FlatMove.CopyMarksExactly: the marks typed text takes on are any orderly rule on visible characters; the CRDT's own anchors around deleted text are not modelled.
- SectionProjection.SyncSessionTranscript: storing the document is one yes or no; a rollback that itself fails is not modelled.
- AudioWindow.ReadRecording: a recording whose frames times a thousand exceed 64 bits, overflow of 64 bits in `start_ms + 1` and in the frame products, and the single-file read that follows when no chunk has anything, are not modelled; the same holds of `AudioWindow.RecoveredParts` and `AudioWindow.WholeReadIsComplete`.
- CaptionErasure.EveryRunBalances: the counters are unbounded; the code's are 64 bits wide.
- PublishWatermark.EveryRunAccounts: one process and one opening of the document. The watermark starts empty, so the first publish exports all the document then holds, and removing a received document, which forgets its watermark, is not a step.
- MintProtocol.EveryInterleavingAccounts: nobody names a session before its start has been answered, since the name is random; two new sessions never get the same name.
- Resampler.CanonicalizeForSoniox: exact reals in place of 32-bit floats, and no limit on the output's size.
- Root-level changes of the mirror, its event handling and validation: they add tables, not properties of the scripts.
- The cap on open sessions of an invite: its check and the reservation are separate transactions.
- The HTTP handlers, pages, cookies, login throttling, tokens, relay access, usage reconciliation and audit rows of the invite service.
- AES-GCM, key files, file permissions, locks and temporary files.
- The machine's yielding to human edits in shared transcripts, the schema checks of incoming updates, and rooms.
- Reading JSON, and Deltas that are not arrays.
- Bindings, callbacks, logging, exports, providers, scripts and benches.
