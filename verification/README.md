# Verification model of the reservation tool

The reservation tool manages hardware setups that groups own, swap parts between, lend to each other and reserve. This
project models its Setup / Swap / Borrow / Reservation state machine together with baselines, the change ledger, approval
routing, template values and the bulk import, and proves what every run of it keeps.

Run `dafny verify dfyconfig.toml` to check everything.

## How it is built

- **State.** `Domain.State` holds the tables as one value. A row's id is its position in its table; request, grant and
  ledger rows are only ever appended or updated.
- **Specification.** Each service call is a function from a state to a new state or an error (`Swaps`, `Borrows`,
  `Reservations`, `SetupEdits`, `Imports`, `ApprovalRouting`), with the source's checks in the source's order.
- **Services.** `Store.Database` holds the tables as mutable fields; `SwapServices`, `BorrowServices`,
  `ReservationServices` and `AdminServices` are the services with the source's loops and in-place writes, each method
  proved to compute its specification. `Api.Application` adds authentication, permissions and rollback, and
  `Application.HandleAll` proves that serving calls one after another is exactly `Runs.Run`.
- **Rules.** `Rules` says on the rows of the tables who may do what, without using any service specification. `RoutingRules`,
  `SwapRules`, `BorrowRules`, `ReservationRules`, `AdminRules` and `ValueRules` prove that every call of the API answers the
  first rule it breaks and otherwise writes exactly the rows the rules say.
- **Runs.** `Runs.Call` is any API call or scheduled job; `Runs.Next` is one atomic step, `Runs.Run` a fold over any list
  of calls. `HierarchyRuns`, `BorrowRuns`,
  `SwapRuns`, `Decidability`, `ReservationRuns`, `LedgerRuns`, `CellRuns` and `OriginalRuns` prove the properties of all runs.

| file | content |
|---|---|
| Common, Text, Ordering | options and results, table queries, Python string operations, sorting |
| Domain | users, setups, template columns, request and ledger rows, the state |
| ApprovalRouting, HierarchyRuns, Holder | who may approve; when the hierarchy stays acyclic; who effectively holds a setup |
| Rules, RoutingRules | who may do what, on the rows; the services' tests mean the same |
| Borrows, BorrowRuns, BorrowRules, Decidability | borrow steps, coupling with grants, lifecycle, decisions; what each call answers; when a request can be decided |
| Reservations, ReservationRuns, ReservationRules | windows, sweep, cached status; what each call answers |
| TemplateValues, ValueRules, TemplateOrder, TemplateRuns | value canonicalisation and storage, type by type; the ordered column list, and sequences of calls on it |
| ColumnNames, Swaps, FixedExchange, CustomExchange, FullSwaps | swap requests, the exchange loop, swaps that name no column |
| Ledger, LedgerRuns, CellLedger, CellRuns, CustomUndo, SwapRuns, SwapRules, Effects | replay and revert, runs of swaps, undoing one, who raised and settled them, which tables each call can change |
| Witnesses | approvals of custom columns that fail a documented property |
| HardwareState, SetupEdits, OriginalRuns, Imports, AdminRules, SetupRuns | original versus current, admin edits, bulk import; what each call answers; what setups keep in every run |
| Runs, Store, the service files, Api | steps and runs; the imperative services and their refinement |

## Where the code and its documentation differ

The model follows the code.

- The hierarchy is not kept acyclic (app/services/approval_routing_service.py:79-82 says it is): `TwoCallsCloseCycle` is a
  run that closes a cycle, `RunKeepsAcyclicIff` says exactly which calls do. The walk is proved on arbitrary graphs.
- Borrow routing takes all parents and their children, not one parent with its children: `DocumentedRoutingIff` gives the
  exact condition for the documented set. The documented example meets it (`DocumentedExampleHolds`); the scenario of
  tests/test_business_logic.py:384-429, which tags every edge for borrowing, does not (`AllBorrowExampleIsWider`).
- A setup's status is not "RESERVED if and only if it has an active reservation": `CancelledOneOfTwo` is a run
  that ends otherwise, `StatusStaysExactIff` says exactly which cancellations, sweeps and edits break it. One direction holds
  over all runs without status edits (`ReservedStaysBacked`).
- A custom-column swap is an exchange only under a condition: blank values are skipped, defaults of other columns are
  re-applied and required columns fail. `LoopExchangesCustomIff` gives the exact condition.
- A full swap does not exchange every fixed field (app/services/swap_service.py:207-226): a custom column named like one
  makes it list that name twice and swap it back. `FullSwapExchangesIff` says exactly which fields stay,
  `ShadowedFieldStays` is such a run, `RunChainsIff` what it does to the ledger, and `FieldNameIsAccepted` shows that such
  a column can be added; `RunKeepsPlainIff` says exactly which additions do it.
- A baseline is not "captured once and never updated" (app/models/setup_hardware_baseline.py:5-8): admin edits overwrite
  it (`CorrectionOverwritesOriginal`). `OriginalsAreStable` says exactly which edits do, over all runs.
- A request can be unreachable (app/services/borrow_service.py:30-36 says never). Under the role data as seeded
  (app/core/constants.py:138-187, app/db/init_db.py:41-66) that happens exactly when nobody but the requester holds the
  permission: `SeededDecidableIff`, and over runs `AcceptedStaysRejectableIff`; `SelfNamedRequestIsStuck` is such a run.
  For swaps (app/services/swap_service.py:23-31) it takes that nobody at all holds it: `SeededSwapDecidableIff`. Under role
  data edited by hand a routed approver without the permission also blocks the fallback: `FallbackSufficesIff` and
  `SwapFallbackSufficesIff` are exact for any role data, `LoneLeadWithoutPermissionBlocks` is such a state.
- The ledger does not trace every changed custom value (app/services/swap_service.py:437-440): its rows say what a swap
  should have stored. `RunTracesIff` gives the exact condition, `OneSidedSwapIsUntraced` an approval that breaks it.
- A missing custom baseline is not always captured with the pre-swap value (app/services/swap_service.py:397-405):
  `ApprovalCapturesOriginals` says exactly when it is, `DefaultBecomesOriginal` is an approval that records another value.
- RETIRED is not final, although the transition table lets nothing leave it (app/services/setup_service.py:14-19): freeing a
  reservation writes AVAILABLE. `CancellingRevives` is such a run, `RetiredStaysIff` says exactly which calls do it.
- A reorder that repeats an id is accepted although the message asks for every column exactly once: `ReorderLists`.

## Terms used below

- *coupled*: `Borrows.Coupled` - at most one PENDING or COMPLETED request per setup; each grant has the setup and groups of
  its request and is active while that is COMPLETED, closed once it is RETURNED; exactly these requests own a grant, one each.
- *seeded*: `Decidability.Seeded` - every Lead, Manager and Owner holds both approval permissions.
- *settles*: `CustomExchange.Settles` - what can be read off a column, the listed names and the stored texts before the call.
- *plain*: template names that are clean (not blank, trimmed, comma-free) and not names of fixed fields; requests that list
  each column once and only columns of both templates.

## Model

| member | source | states |
|---|---|---|
| ApprovalRouting.ParentIdsMeaning | app/repositories/sqlalchemy/group_hierarchy_repository.py:18-24 | the parent query lists exactly the parents joined by an edge of the domain or of both |
| ApprovalRouting.ChildIdsMeaning | app/repositories/sqlalchemy/group_hierarchy_repository.py:26-32 | the child query lists exactly the children joined by such an edge |
| ApprovalRouting.AncestorGroupIds | app/services/approval_routing_service.py:74-94 | on any finite edge table, cyclic or not, the walk ends and returns exactly the groups reachable over parent edges, the start included; its round k frontier is exactly the groups at shortest distance k |
| ApprovalRouting.NextRound | app/services/approval_routing_service.py:87-93 | one pass turns the ball of radius k into the ball of radius k+1 and the frontier into the next level, growing the visited set unless the frontier is empty |
| ApprovalRouting.ResolveSwapApprovers | app/services/approval_routing_service.py:96-106 | exactly the users that are approved, active, Lead or Manager, and whose primary group is reached over swap edges from the setup's group; nobody for a setup without a group |
| ApprovalRouting.ResolveBorrowApprovers | app/services/approval_routing_service.py:111-148 | exactly the users that are approved, active, Lead or Manager, and whose primary group is the group, a parent of it, or another child of a parent |
| RoutingRules.SwapRoutedIff | app/repositories/sqlalchemy/user_repository.py:98-112 | the swap approvers are, row by row, the users the design routes to: a path of edges from the setup's group to one they lead |
| RoutingRules.BorrowRoutedIff | app/repositories/sqlalchemy/user_repository.py:98-112 | the same for borrow approvers |
| RoutingRules.MayApproveIff | app/services/swap_service.py:234-254 | the approval test is the rule on the rows: an Owner, a routed user, or anybody when no user is routed |
| RoutingRules.MayDecideIff | app/services/borrow_service.py:178-190 | the decision test is the rule on the rows: not the requester, and an Owner, a routed user, or anybody when no other user is routed |
| RoutingRules.MayReturnIff | app/services/borrow_service.py:212-224 | the return test is the rule on the rows: the requester, an Owner, or a Lead or Manager who belongs to the borrowing group or is routed for the lender |
| RoutingRules.HasAccessIff | app/services/swap_service.py:160-183 | the access test is the rule on the rows: an Owner, somebody who belongs to a group that holds the setup, or anybody when no group holds it |
| ApprovalRouting.DocumentedRoutingIff | app/services/approval_routing_service.py:111-144 | the documented "parent and siblings" set is what the code returns exactly when no other parent of the group, nor a child of one, lies outside it |
| ApprovalRouting.DocumentedExampleHolds | app/services/approval_routing_service.py:120-126 | the documented example, its other parent tagged for swaps only, is routed exactly as documented |
| ApprovalRouting.AllBorrowExampleIsWider | tests/test_business_logic.py:384-429 | with every edge tagged for borrowing, as in this scenario, the other parent and its other child are routed to as well |
| ApprovalRouting.RoutingIgnoresOtherDomain | app/services/approval_routing_service.py:96-148 | adding or removing an edge tagged for one domain changes no routing of the other |
| ApprovalRouting.AcyclicGrowsIff | app/services/approval_routing_service.py:79-82 | one more edge keeps an acyclic table acyclic exactly when it does not apply to the domain or its child is neither its parent nor an ancestor of it |
| ApprovalRouting.EditsKeepAcyclicIff | app/repositories/sqlalchemy/group_hierarchy_repository.py:37-66 | an accepted edge keeps the table acyclic exactly when it closes no cycle, which a walk from its parent tells; a deletion always does |
| HierarchyRuns.NextKeepsAcyclicIff | app/api/v1/group_hierarchy.py:37-54 | any call leaves an acyclic hierarchy acyclic exactly when it is not an accepted edge that closes a cycle |
| HierarchyRuns.RunKeepsAcyclicIff | app/services/approval_routing_service.py:79-82 | the hierarchy is acyclic at every point of a run exactly when no call of the run closes a cycle |
| HierarchyRuns.TwoCallsCloseCycle | app/services/group_hierarchy_service.py:40-48 | a witness run of two accepted calls that closes one |
| Holder.ActiveGrantsMapMeaning | app/repositories/sqlalchemy/setup_repository.py:24-33 | with one active grant per setup the map holds exactly the active grants |
| Holder.ReadingsAgree | app/repositories/sqlalchemy/setup_repository.py:24-71 | group filter, swap-access groups and grants map all name "active grant's group, else owning group", so a held setup is listed under exactly one group |
| Borrows.ExpireKeepsCoupled | app/services/borrow_service.py:122-132 | expiring stale requests keeps grants and borrow statuses coupled |
| Borrows.CreateKeepsCoupled | app/services/borrow_service.py:255-310 | a created request keeps at most one open request per setup and the coupling |
| Borrows.ApproveKeepsCoupled | app/services/borrow_service.py:333-364 | an approval keeps the coupling |
| Borrows.ReturnKeepsCoupled | app/services/borrow_service.py:426-446 | a return keeps the coupling |
| Borrows.CloseBorrow | app/services/borrow_service.py:390-416 | rejecting, cancelling or expiring a pending request keeps the coupling |
| Borrows.ApproveGuardNeverFires | app/services/borrow_service.py:346-347 | under the coupling a pending request's setup has no active grant |
| Borrows.ReturnGuardNeverFires | app/services/borrow_service.py:434-436 | under the coupling a completed request owns an active grant |
| Borrows.CoupledOneActiveGrant | app/repositories/sqlalchemy/borrow_repository.py:81-86 | the coupling gives each setup at most one active grant |
| Borrows.ApproveMovesHolder | app/services/borrow_service.py:353-364 | approval moves the effective holder of that setup from the source to the target group, of no other setup, and changes no setup row |
| Borrows.ReturnMovesHolderBack | app/services/borrow_service.py:438-446 | return moves it back to the unchanged owning group and moves no other setup |
| Borrows.OfferedExactlyWhenAccepted | app/services/borrow_service.py:134-160 | every offered lead and setup passes every check of create; what is accepted without being offered is exactly naming oneself or a setup of one's own secondary group |
| BorrowRuns.RunKeepsCoupled | app/services/borrow_service.py:287-446 | after every run of any calls: one open request per setup, active grants one-to-one with completed requests, closed ones with returned, none otherwise - and all readings of the holder agree on every setup |
| BorrowRuns.AccessFollowsHolder | app/services/swap_service.py:160-183 | in every reachable state swap access is: Owner, member of the effective holder, or nobody holds the setup |
| BorrowRuns.ApproveSucceedsIff | app/services/borrow_service.py:333-364 | in every reachable state the exact condition for an approval to succeed, the grant guard playing no part in it |
| BorrowRuns.ReturnSucceedsIff | app/services/borrow_service.py:426-446 | in every reachable state the exact condition for a return to succeed |
| BorrowRuns.NextMoves | app/services/borrow_service.py:333-446 | each call moves each request along the six-state lifecycle only, keeps the recorded decider, and decides a request only through an authorised decision in time |
| BorrowRuns.FinalStaysFinal | app/services/borrow_service.py:23-25 | a rejected, cancelled, returned or expired request never changes again in any run |
| BorrowRuns.DecisionsAreAuthorised | app/services/borrow_service.py:178-190 | every completed, returned or rejected request of a run was decided, while pending and not after its end time, by its recorded decider: not the requester, permitted, and Owner, routed, or with nobody else routed |
| BorrowRuns.AlwaysDecidable | app/services/borrow_service.py:178-190 | the routing rule by itself, activity and permission apart, excludes everyone only if the requester is the only user |
| BorrowRuns.LoansAreAccounted | app/services/borrow_service.py:255-446 | every request of a run was made, permitted and by a Lead, Manager or Owner, for a setup in service that another group owned, into the requester's primary group; a returned one was ended by its recorded user, entitled and while completed; a cancelled one by its requester and an expired one after its end, both while pending |
| BorrowRules.RequestAnswer | app/services/borrow_service.py:255-310 | a request answers the first broken rule of the design, read off the rows; otherwise it appends one pending row of the caller with the payload's setup, field and end, lent by the owning group to the caller's primary group |
| BorrowRules.ApproveAnswer | app/services/borrow_service.py:333-364 | an approval answers the first broken rule; otherwise the row is completed by the caller, the grant to the borrowing group appended, a missing baseline captured and stale requests expired, and nothing else is written |
| BorrowRules.RejectAnswer | app/services/borrow_service.py:381-392 | the same for a rejection |
| BorrowRules.CancelAnswer | app/services/borrow_service.py:409-416 | the same for a cancellation |
| BorrowRules.ReturnAnswer | app/services/borrow_service.py:426-446 | in every reachable state a return answers the first broken rule; otherwise the row is returned by the caller and exactly its grant closed |
| BorrowRules.RequestIsLendable | app/services/borrow_service.py:276-284 | an accepted request can be lent at once: setup in service, owned by the source group, target the requester's own group |
| BorrowRules.RequestedThenApproved | app/services/borrow_service.py:296-364 | an accepted request, approved after any further calls, moves the effective holder of that setup from its owner to the requester's primary group and moves no other setup |
| BorrowRules.SourceLeadsAre | app/services/borrow_service.py:134-144 | the source leads offered are the other approved, active Leads and Managers with a group the requester is not in |
| BorrowRules.BorrowableSetupsAre | app/services/borrow_service.py:146-160 | in every reachable state the setups offered of a lead are those in service, not spoken for, and owned by a group of the lead that the requester is not in |
| Decidability.RejectionSucceedsIff | app/services/borrow_service.py:381-392 | a call rejecting a pending, unexpired request succeeds exactly for a decider: active, permitted, not the requester, and Owner, routed or with nobody else routed |
| Decidability.ApprovalSucceedsIff | app/services/borrow_service.py:333-364 | a call approving it succeeds exactly for a decider while its setup is in service and still owned by the source group |
| Decidability.DecidableIff | app/services/borrow_service.py:30-36 | some call can reject it exactly when it has a decider, and approve it exactly when its setup is lendable as well |
| Decidability.FallbackSufficesIff | app/services/borrow_service.py:30-36 | a request has a decider exactly when an Owner other than its requester holds the permission, or a routed approver does, or nobody is routed and somebody else holds it |
| Decidability.SeededDecidableIff | app/services/borrow_service.py:30-36 | under the seeded role data a pending request can be rejected by some call exactly when an active user other than its requester holds the permission, and approved exactly when its setup is lendable as well |
| Decidability.AcceptedStaysRejectableIff | app/services/borrow_service.py:255-310 | under the seeded role data a request once accepted can, after any run and for as long as it is undecided, be rejected by somebody exactly when somebody else held the permission; one naming another user as source lead always can |
| Decidability.SelfNamedRequestIsStuck | app/services/borrow_service.py:264-284 | a witness under the seeded role data: the only lead names himself as source lead of a setup of his second group; the request is accepted, and after any run, at any time, every rejection and approval is refused |
| Decidability.SwapDecidableIff | app/services/swap_service.py:23-31 | some call can reject a pending swap exactly when it has a decider, and approve it exactly when it is exchangeable as well |
| Decidability.SwapFallbackSufficesIff | app/services/swap_service.py:23-31 | a pending swap has a decider exactly when an Owner or a routed approver holds the permission, or nobody is routed and somebody holds it |
| Decidability.SeededSwapDecidableIff | app/services/swap_service.py:23-31 | under the seeded role data a pending swap can be rejected by some call exactly when some active user holds the permission, and approved exactly when it is exchangeable as well |
| Decidability.LoneLeadWithoutPermissionBlocks | app/services/borrow_service.py:183-190 | a witness under role data edited by hand so that Leads lack the approval permissions: the one routed lead leaves a borrow and a swap that no call can reject or approve |
| Reservations.OverlapMeansSharedInstant | app/repositories/sqlalchemy/reservation_repository.py:71-78 | the overlap filter holds exactly when the two half-open windows share an instant |
| Reservations.ReserveAcceptedIff | app/services/reservation_service.py:71-97 | a reservation is accepted exactly when its window is real, starts late enough, the setup is in service, and no instant of it is held |
| Reservations.ReserveKeepsDisjoint | app/services/reservation_service.py:85-97 | creation keeps the active windows of a setup disjoint |
| Reservations.CancelKeepsDisjoint | app/services/reservation_service.py:174-187 | so does cancellation |
| Reservations.SweepMeaning | app/services/reservation_service.py:197-220 | after a sweep no active window has ended, rows that had not expired are untouched, and windows stay disjoint |
| Reservations.ReserveKeepsBacked | app/services/reservation_service.py:96-97 | creation keeps "a RESERVED setup has an ACTIVE reservation" |
| Reservations.CancelKeepsBacked | app/services/reservation_service.py:185-187 | so does cancellation |
| Reservations.SweepKeepsBacked | app/services/reservation_service.py:206-210 | so does the sweep |
| Reservations.CancelStatusIsRightIff | app/services/reservation_service.py:185-187 | the converse fails: the AVAILABLE a cancellation writes is right exactly when no other active reservation of the setup exists |
| Reservations.SweepStatusIsRightIff | app/services/reservation_service.py:206-210 | the AVAILABLE a sweep writes to a setup with an expired row is right exactly when every active row of it has ended |
| ReservationRules.ReserveAnswer | app/services/reservation_service.py:71-97 | in every reachable state a reservation answers the first broken rule, read off the rows; otherwise it appends the caller's active row for that setup and window and marks the setup RESERVED |
| ReservationRules.CancelAnswer | app/services/reservation_service.py:158-187 | a cancellation is for the row's user or a user who may cancel any, while the row is active; the row is cancelled, its setup marked AVAILABLE, nothing else written |
| ReservationRules.SweepAnswer | app/services/reservation_service.py:197-220 | the sweep completes exactly the active rows whose window is over and frees exactly their setups |
| ReservationRules.ReservationsAreAccounted | app/services/reservation_service.py:71-220 | every reservation of a run was made by its user, permitted, for a setup in service and early enough; a cancelled one was cancelled while active by its user or with the permission to cancel any; a completed one was swept while active after its window |
| ReservationRuns.NextKeepsExactIff | app/services/reservation_service.py:96-210 | any call keeps "RESERVED exactly when there is an active reservation" exactly when it is not a cancellation or sweep that frees a setup still held, nor an edit into or out of RESERVED |
| ReservationRuns.StatusStaysExactIff | app/services/reservation_service.py:71-220 | that status is exact at every point of a run exactly when no call of the run misstates one |
| ReservationRuns.CancelledOneOfTwo | app/services/reservation_service.py:185-187 | a witness run: two accepted reservations of one setup, the first cancelled, leave it AVAILABLE and held |
| ReservationRuns.NeverDoubleBooked | app/services/reservation_service.py:139-156 | after every run of any calls no setup is held by two active reservations at any instant |
| ReservationRuns.ReservedStaysBacked | app/services/reservation_service.py:71-220 | in every run without admin setup edits a RESERVED setup has an ACTIVE reservation |
| ReservationRuns.HandMadeReservedIsUnbacked | app/services/setup_service.py:84-105 | one admin status edit breaks that |
| ColumnNames.ValidateColumnNames | app/schemas/swap_request.py:52-67 | the validator answers the stripped, non-blank names without repeats, or refuses an empty list or a long name |
| ColumnNames.FirstOccurrencesMeaning | app/schemas/swap_request.py:56-64 | the kept names are distinct, are exactly the given ones, and stand in first-occurrence order |
| ColumnNames.ColumnListRoundTrip | app/models/swap_request.py:87-92 | parsing the comma-joined form gives the list back exactly when every name is non-empty, trimmed and comma-free |
| ColumnNames.ExplicitRequestDecoded | app/schemas/swap_request.py:52-88 | a validated explicit list is distinct, keeps its order, is what the request resolves to, and survives storing exactly when no name has a comma |
| Text.StripMeaning | app/models/swap_request.py:92 | stripping removes whitespace only, at the ends only |
| Text.SplitJoin | app/models/swap_request.py:92 | splitting undoes joining for comma-free parts |
| Text.ParsePrintInt | app/services/template_service.py:217-218 | decimal print and parse undo each other for every integer |
| TemplateValues.ValidateAndSerialize | app/services/template_service.py:176-210 | the accumulating loop returns the validated map or the refusal, the bad columns in template order, and the unknown names |
| TemplateValues.SerializeIdempotent | app/services/template_service.py:212-251 | serialising a serialised text gives it back, and it is never empty |
| TemplateValues.SerializedMeaning | app/services/template_service.py:189-201 | the serialised map holds exactly the texts of the columns that have one |
| TemplateValues.RevalidationIsIdentityIff | app/services/template_service.py:176-251 | validating what validation returned succeeds unchanged exactly when every default it filled in is stable |
| TemplateValues.WriteAllMeaning | app/services/template_service.py:277-278 | each serialised column's row takes its text, every other row stays, and only a new row without a baseline gains one |
| TemplateValues.SetValuesMeaning | app/services/template_service.py:274-286 | storing succeeds exactly when every column accepts, and then writes each column's cell and nothing else |
| ValueRules.BooleanStores | app/services/template_service.py:221-229 | a BOOLEAN column stores "True" for true, 1, yes, y and "False" for false, 0, no, n, blanks and case aside; a flag as itself, the numbers 1 and 0 likewise; it refuses everything else |
| ValueRules.IntegerStores | app/services/template_service.py:217-218 | an INTEGER column stores a number printed, a flag as 1 or 0, and a text as the number it reads as, or refuses it |
| ValueRules.ParseIntIff | app/services/template_service.py:217-218 | a text reads as an integer exactly when, blanks and one sign aside, it is digits with single underscores between them, and its value is that of the digits |
| ValueRules.PrintsBack | app/services/template_service.py:217-218 | digits without leading zeros are printed back as written |
| ValueRules.DropdownStores | app/services/template_service.py:244-250 | a DROPDOWN column stores an allowed value as given and refuses every other |
| ValueRules.StringStores | app/services/template_service.py:215-216 | a STRING column stores everything as text |
| ValueRules.FlagThroughNumber | app/services/template_service.py:217-229 | a flag stored by an INTEGER column is read as the same flag by a BOOLEAN one |
| ValueRules.ColumnStores | app/services/template_service.py:189-200 | a given value is stored or refused as its type says; a missing or empty one leaves the default, or is refused when required without one |
| ValueRules.TemplateRefusesIff | app/services/template_service.py:202-210 | a map is refused exactly when a column refuses its value or a name is not in the template |
| ValueRules.BadNamesAre | app/services/template_service.py:189-205 | the reported columns are those that refuse their value, in template order |
| TemplateOrder.AddAppends | app/services/template_service.py:75-88 | adding a column appends it to the listing, keeps order indexes distinct, and leaves other products alone |
| TemplateOrder.DeleteRemoves | app/services/template_service.py:126-128 | deleting removes it from the listing and nothing else |
| TemplateOrder.ReorderLists | app/services/template_service.py:137-149 | an accepted reorder lists the columns by their last mention: the given sequence exactly when no id repeats; order indexes end distinct |
| TemplateOrder.ColumnTable.AddColumn | app/services/template_service.py:67-88 | the row table after adding a column with its title, type, default and allowed values, or the error for a missing product, a mandatory or a taken name |
| TemplateOrder.ColumnTable.DeleteColumn | app/services/template_service.py:126-128 | the row table after deleting, or not found for another product's column |
| TemplateOrder.ColumnTable.ReorderColumns | app/services/template_service.py:137-149 | the row table after the index loop, or the error for a missing product or any other id set |
| TemplateRuns.RunKeepsSound | app/services/template_service.py:67-149 | after any sequence of additions, deletions and reorders, on every product, no two columns share an order index or a name, and none is named like a mandatory column |
| TemplateRuns.NormalizedIsPlainIff | app/services/template_service.py:69-70 | a normalised name survives the stored column list and is no fixed field's exactly when the name as given is not blank, has no comma between its ends, and does not normalise to a fixed field's |
| TemplateRuns.RunKeepsPlainIff | app/services/template_service.py:67-73 | template names stay plain throughout a sequence of calls exactly when no accepted call adds a name that fails that test |
| TemplateRuns.FieldNameIsAccepted | app/services/template_service.py:168-172 | a witness: a column named like a fixed field is accepted, for each of the ten fields |
| TemplateRuns.NormalizedIs | app/services/template_service.py:69 | a name is stored without the blanks around it, in lower case, and with underscores for the blanks in it |
| TemplateRuns.AddAnswer | app/services/template_service.py:67-88 | a column is added exactly when its product exists and its name is neither mandatory nor used on the product; its row has the normalised name, one past the highest order, and the stripped label or name |
| TemplateRuns.ReorderAnswer | app/services/template_service.py:137-149 | a reorder naming exactly the product's columns writes each one's last position and nothing else; any other writes nothing |
| TemplateRuns.ListedInOrder | app/repositories/sqlalchemy/template_repository.py:28-35 | a product's columns are listed by order index and then by id |
| FixedExchange.LoopExchanges | app/services/swap_service.py:381-416 | the loop, for any column list, exchanges the fields listed an odd number of times and records each field's values after the loop |
| FixedExchange.ApprovalIsExchange | app/services/swap_service.py:349-419 | one approval exchanges exactly those fields between its two setups, and nothing else of any setup |
| FixedExchange.DistinctColumnsAreOdd | app/services/swap_service.py:381-386 | with distinct columns these are exactly the listed fields |
| FixedExchange.ListedTwiceIsUndone | app/services/swap_service.py:381-386 | a field listed twice is swapped back |
| FullSwaps.FullSwapOddIff | app/services/swap_service.py:207-226 | the column list of a full swap has a fixed field an odd number of times exactly when no common custom column is named like it |
| FullSwaps.FullSwapExchangesIff | app/services/swap_service.py:349-419 | an approved full swap exchanges each fixed field unless a common custom column is named like it, and so all of them exactly when every field so named was equal on both setups |
| FullSwaps.ShadowedFieldStays | app/services/swap_service.py:260-419 | a witness run: with a template column named like a field, a raised and approved full swap leaves that field where it is and exchanges every other |
| FixedExchange.ExchangeTwiceRestores | app/services/swap_service.py:381-386 | exchanging the same columns of the pair again, in either direction, restores both setups |
| FixedExchange.ApprovingAgainUndoes | app/services/swap_service.py:349-419 | approving a second request for the same pair and columns undoes the first |
| FixedExchange.ExchangeConserves | app/services/swap_service.py:381-386 | an exchange conserves the multiset of each field's values over all setups |
| FixedExchange.ApprovalReplays | app/services/swap_service.py:441-457 | replaying an approval's ledger rows over the values before it gives the values after it, whatever the column list |
| FixedExchange.ApprovalChainsIff | app/services/swap_service.py:441-457 | every row's old value is the value just before it exactly when each field listed more than once was equal on both setups |
| FixedExchange.RowsOwned | app/services/swap_service.py:441-457 | the rows are two per listing of a column, all owned by the approved request |
| CustomExchange.PassMeaning | app/services/swap_service.py:395-411 | one custom pass succeeds exactly when both templates accept it, and what it does to every cell and baseline |
| CustomExchange.LoopEvolves | app/services/swap_service.py:381-416 | the whole loop succeeds exactly when no pass is refused, and each cell evolves by its own column alone |
| CustomExchange.SettlesExactly | app/services/swap_service.py:387-411 | a column ends on the exchanged value exactly when a condition on its default, requirement and incoming text holds, all known before the call |
| CustomExchange.LoopExchangesCustomIff | app/services/swap_service.py:381-416 | the loop exchanges exactly the listed custom columns and keeps every other cell exactly when every column of both templates settles |
| CustomExchange.ApprovalExchangesCustomIff | app/services/swap_service.py:349-419 | the same for a whole approval |
| CustomExchange.OneCanonicalColumnSettles | app/services/swap_service.py:387-411 | one column, canonical on both sides, with no other column required or defaulted, settles |
| CustomExchange.BlankSideKeepsItsText | app/services/template_service.py:189-197 | a value present on one side only is copied, not exchanged |
| CustomExchange.ApprovalCapturesOriginals | app/services/swap_service.py:397-405 | no custom baseline changes; a missing one of a listed column is created, with the pre-swap value exactly when the column comes first, has no default, or already had a row |
| Witnesses.DefaultBecomesOriginal | app/services/swap_service.py:397-411 | a witness: with nothing stored and a second column with a default, the approval records that default as the original although the setup had no value there |
| Effects.ApproveKeepsOriginals | app/services/swap_service.py:374-379 | an approval changes no baseline, and a missing fixed one of either setup is captured with its pre-swap values |
| Effects.NextKeepsWellFormed | app/services/swap_service.py:261-269 | every call keeps "a request names two different existing setups" |
| LedgerRuns.LedgerReplays | app/services/swap_service.py:381-457 | in every run whose only field writers are approvals, replaying the added ledger rows from the initial values gives the current value of every setup and fixed field, whatever the column lists |
| LedgerRuns.RunChainsIff | app/services/swap_service.py:381-457 | in every run whose only field writers are approvals each fixed row's old value is the value just before it exactly when no approved swap lists more than once a field on which its setups differ; backward replay then restores the values the run started from |
| LedgerRuns.NextChainsIff | app/services/swap_service.py:441-457 | the same for one call |
| LedgerRuns.FullSwapDistinctIff | app/services/swap_service.py:207-226 | the columns of a full swap are distinct exactly when no common custom column is named like a fixed field |
| LedgerRuns.RaisedIsPlain | app/services/swap_service.py:285-316 | a raised request lists each column once and only custom columns of both templates |
| LedgerRuns.ReachableApprovalExchanges | app/services/swap_service.py:349-419 | in every reachable state an approval exchanges exactly the listed fixed fields, and the listed custom columns exactly when all columns settle |
| LedgerRuns.RowsStayOwned | app/services/swap_service.py:441-457 | in every run each completed request owns two rows per listed column and every other request none |
| LedgerRuns.ValuesAreConserved | app/services/swap_service.py:381-419 | in such a run the multiset of each fixed field's values over all setups never changes |
| SetupEdits.EditKeepsOriginalsIff | app/repositories/sqlalchemy/hardware_baseline_repository.py:75-83 | an accepted edit keeps every recorded baseline exactly when it alters no field of a setup with a baseline to a value other than the recorded one |
| OriginalRuns.NextKeepsOriginalsIff | app/models/setup_hardware_baseline.py:5-8 | any call keeps every recorded fixed and custom baseline exactly when it is not such an overwriting edit |
| OriginalRuns.OriginalsAreStable | app/models/setup_hardware_baseline.py:5-8 | recorded baselines keep their values from any point of a run to any later one exactly when no call of the run is an overwriting edit |
| OriginalRuns.CorrectionOverwritesOriginal | app/api/v1/setups.py:79-83 | a witness: correcting a field of a setup that is as recorded replaces the recorded value |
| OriginalRuns.RebaselinedCustomKeepsIff | app/repositories/sqlalchemy/hardware_baseline_repository.py:85-100 | re-baselining keeps every custom baseline recorded before exactly when no edited column with one has a value other than the recorded one |
| OriginalRuns.WebEditKeepsOriginalsIff | app/web/routers/setups_view.py:561-582 | an edit that stores fixed and custom values and re-baselines both keeps every recorded baseline exactly when no field and no column it altered had a baseline of another value |
| CellLedger.ViewReplayIsCellwise | app/repositories/sqlalchemy/hardware_change_log_repository.py:22-28 | on fixed fields the replay of whole views is the replay cell by cell |
| CellLedger.ApprovalTracesCustomIff | app/services/swap_service.py:427-457 | an approval goes through with rows that replay every setup's texts before it into those after it exactly when every column of both templates settles |
| CellLedger.ApprovalChainsCustom | app/services/swap_service.py:441-457 | the old value of each of its custom rows is always the text just before it |
| CellRuns.NextTracesIff | app/services/swap_service.py:427-457 | a step that is no other value writer is traced by the ledger in every cell, fixed and custom, exactly when it approves no swap that does not settle |
| CellRuns.RunTracesIff | app/services/swap_service.py:427-457 | in runs whose only value writers are approvals the ledger replays and chains every cell between any two points exactly when every approved swap settles |
| Witnesses.OneSidedSwapIsUntraced | app/services/swap_service.py:427-457 | a witness: one text column with one stored text; the approval succeeds, its rows replay the text away, and the setup still has it |
| Witnesses.NoteStoreIsUntraced | app/services/swap_service.py:427-457 | such a store in full: one Owner, two setups, a column called "note" and one text |
| CellRuns.TracedReverts | app/repositories/sqlalchemy/hardware_change_log_repository.py:22-28 | a traced stretch of the ledger played backwards restores every cell |
| CellRuns.SecondExchangeRestoresIff | app/services/swap_service.py:381-416 | after an exchange of custom columns, exchanging them again in either order restores every text exactly when the second exchange settles |
| CellRuns.CustomSwapUndoneIff | app/services/swap_service.py:349-419 | after an approval that settled, a second one for the pair and columns succeeds and restores every text exactly when it settles as well |
| CellRuns.UnsettledYetRestored | app/services/template_service.py:189-197 | without the first settling that fails: an empty text against no row settles in neither direction, yet nothing changes |
| CustomUndo.TwoExchangesRestoreIff | app/services/swap_service.py:381-416 | whatever the first exchange of the custom columns did, a second one in either order succeeds and restores every text exactly when the closed form of one exchange, applied twice to the texts before, restores each column's text |
| CustomUndo.TwoApprovalsRestoreIff | app/services/swap_service.py:349-419 | the same for two approvals, nothing assumed of the first but that it succeeds |
| SwapRuns.SwapsAreAuthorised | app/services/swap_service.py:160-183 | every request of a run was raised by its requester, permitted and with access to both setups, two different ones in service; a completed or rejected one was decided, while pending, by its recorded decider, permitted and Owner, routed or with nobody routed; a cancelled one by its requester |
| SwapRuns.NextMoves | app/services/swap_service.py:260-512 | each call leaves each request as it was or settles it while pending, under the conditions above |
| SwapRuns.SettledStaysSettled | app/services/swap_service.py:351-352 | a settled request never changes again in any run |
| SwapRules.RaiseAnswer | app/services/swap_service.py:260-317 | raising answers the first broken rule of the design, read off the rows and the payload; otherwise it appends one pending row of the caller with the payload's setups and exactly the requested columns, and writes nothing else |
| SwapRules.FullListIs | app/services/swap_service.py:207-226 | the full column list is the ten fixed fields in table order followed by the custom columns of both templates in strictly increasing order |
| SwapRules.RaisedRow | app/services/swap_service.py:293-316 | the stored column list of a raised row reads back as the explicit list, or the single column, or the full list |
| SwapRules.RaisedThenApproved | app/services/swap_service.py:260-419 | a raised request, approved after any further calls, exchanges between the payload's two setups exactly the fixed fields the payload asked for, and no other fixed value of any setup |
| SwapRules.ApproveAnswer | app/services/swap_service.py:349-457 | approving answers the first broken rule, or that a column cannot take its value; otherwise the row is completed by the caller and besides values, originals and the ledger nothing is written |
| SwapRules.RejectAnswer | app/services/swap_service.py:476-489 | rejecting answers the first broken rule; otherwise the row is rejected by the caller, nothing else written |
| SwapRules.CancelAnswer | app/services/swap_service.py:498-505 | cancelling is for the requester while the row is pending; the row is cancelled, nothing else written |
| SwapRules.LedgerStaysSigned | app/services/swap_service.py:441-457 | in every run each ledger row is of a completed request, one of its setups and columns, and names the user who approved it |
| HardwareState.ChangedFields | app/services/hardware_state_service.py:37-79 | the batched diff has an entry for exactly the listed setups with a change, each naming exactly that setup's own changed fields whatever else is in the batch |
| HardwareState.Compare | app/services/hardware_state_service.py:119-146 | one row per fixed field and given column, in this order, with its name, recorded and current value, flagged exactly when the diff would report it |
| HardwareState.CompareAgreesWithDiff | app/services/hardware_state_service.py:37-146 | the comparison flags what the diff reports, exactly when every changed column is among the columns it is given |
| HardwareState.RebaseliningLaw | app/services/hardware_state_service.py:89-117 | after an edit and re-baselining the changed keys are the former ones minus those the edit altered, with or without baseline rows, and no other setup is affected |
| ValueRules.ChangedIff | app/services/hardware_state_service.py:37-79 | a field is reported changed exactly when an original is recorded, for a column also its name known, and original and current differ once blanks around them are dropped and a missing value counts as empty |
| AdminRules.EditAnswer | app/services/setup_service.py:65-105 | where keys are unique an edit answers the first broken rule; otherwise it writes every given attribute to that row and, to its originals, exactly the fields it made show differently |
| AdminRules.StoreAnswer | app/services/template_service.py:274-286 | storing custom values answers the first broken rule; otherwise it writes each column's cell of that setup and nothing else |
| AdminRules.AddEdgeAnswer | app/services/group_hierarchy_service.py:40-48 | an edge is appended exactly when both groups exist and differ and it is not there yet |
| AdminRules.RemoveEdgeAnswer | app/services/group_hierarchy_service.py:58-61 | removing an edge takes out its first row, or answers not found |
| SetupRuns.RunKeepsKeys | app/services/setup_service.py:70-79 | in every run no two setups share an address or a host name |
| SetupRuns.NextKeepsRetiredIff | app/services/setup_service.py:14-19 | a call leaves a retired setup retired exactly when it frees no active reservation of it |
| SetupRuns.RetiredStaysIff | app/services/setup_service.py:14-19 | a retired setup stays retired throughout a run exactly when no call of the run frees a reservation of it |
| SetupRuns.CancellingRevives | app/services/reservation_service.py:185-187 | a witness: a reserved setup put under maintenance and retired becomes AVAILABLE when its reservation is cancelled |
| SetupEdits.KeysTakenIff | app/services/setup_service.py:70-79 | where keys are unique, an edit of address or host name is refused exactly when another setup has one of them |
| SetupEdits.EditClearsWhatItAlters | app/api/v1/setups.py:79-83 | an accepted setup edit clears exactly the marks of the fixed fields it altered |
| Imports.ErrorFreeBatch | app/services/import_service.py:59-70 | a batch reports no error exactly when no row has one |
| AdminRules.ImportAnswer | app/services/import_service.py:48-170 | an import with a row whose product, named group or named owner is unknown, or that the schema faults, writes nothing; otherwise it writes what upserting the rows in order leaves |
| AdminRules.ErrorsAre | app/services/import_service.py:172-200 | a row counts one error per unknown product, group or owner name, besides those of the schema |
| AdminRules.UpdateAnswer | app/services/import_service.py:93-138 | a row whose address or host name a setup has turns the first such setup into what the row describes, its status kept, unless keys would clash |
| AdminRules.CreateAnswer | app/services/import_service.py:93-138 | a row no setup meets appends an AVAILABLE setup as described and records its original |
| Imports.BatchHolds | app/services/import_service.py:93-138 | after the upserts keys are unique, counts add up, and with distinct row keys every row is held |
| Imports.ReimportIsIdentity | app/services/import_service.py:124-138 | upserting rows that are already held changes nothing |
| Imports.ImportLaws | app/services/import_service.py:48-170 | a row error leaves the store as it was; created + updated = rows; importing rows with distinct keys again creates nothing and changes no setup |
| Store.Database.Rollback | app/db/session.py:66-74 | a failed request leaves every table as it was |
| Store.Database.UpdateStatus | app/repositories/sqlalchemy/setup_repository.py:108-113 | writes the status of an existing setup, ignores a missing one |
| Store.Database.EnsureFixedBaseline | app/repositories/sqlalchemy/hardware_baseline_repository.py:27-34 | creates a missing fixed baseline from current values, never overwrites one |
| Store.Database.RecordOriginal | app/repositories/sqlalchemy/hardware_baseline_repository.py:61-73 | creates a missing custom baseline, never overwrites one |
| Store.Database.UpsertValue | app/repositories/sqlalchemy/template_repository.py:77-97 | writes a custom value; a new row also records its baseline unless there is one (app/models/baseline_capture.py) |
| SwapServices.TemplateService.SetSetupValues | app/services/template_service.py:274-286 | the upsert loop stores what the specification stores, or changes nothing |
| SwapServices.SwapService.HasSetupAccess | app/services/swap_service.py:160-183 | the access rule |
| SwapServices.SwapService.CanApprove | app/services/swap_service.py:234-254 | the routed approval rule, computed by the walk |
| SwapServices.SwapService.ResolveColumns | app/services/swap_service.py:285-301 | the columns of a request, or the refusal |
| SwapServices.SwapService.Create | app/services/swap_service.py:260-317 | the new request, or the first failing check's error with the tables unchanged by the specification |
| SwapServices.SwapService.EnsureBaselines | app/services/swap_service.py:374-379 | both baselines ensured exactly when a fixed column is listed |
| SwapServices.SwapService.ExchangeColumns | app/services/swap_service.py:381-416 | the in-place loop with its lazily cached lookups computes the specified exchange and records, or its error |
| SwapServices.LedgerRows | app/services/swap_service.py:441-457 | the ledger loop builds the specified rows |
| SwapServices.SwapService.Approve | app/services/swap_service.py:349-457 | the whole approval in place equals its specification |
| SwapServices.SwapService.Reject | app/services/swap_service.py:476-489 | rejection equals its specification |
| SwapServices.SwapService.Cancel | app/services/swap_service.py:498-505 | cancellation equals its specification |
| BorrowServices.BorrowService.ExpireStalePending | app/services/borrow_service.py:122-132 | exactly the stale pending requests become EXPIRED; the count is their number |
| BorrowServices.BorrowService.CanDecide | app/services/borrow_service.py:178-190 | the decision rule |
| BorrowServices.BorrowService.CanReturn | app/services/borrow_service.py:212-224 | the return rule |
| BorrowServices.BorrowService.CheckParties | app/services/borrow_service.py:256-290 | the checks of create, in order |
| BorrowServices.BorrowService.Create | app/services/borrow_service.py:255-310 | the new request, or the error |
| BorrowServices.BorrowService.Approve | app/services/borrow_service.py:333-364 | expiry, guards, baseline, grant and status in place equal the specification |
| BorrowServices.BorrowService.Reject | app/services/borrow_service.py:381-392 | rejection equals its specification |
| BorrowServices.BorrowService.Cancel | app/services/borrow_service.py:409-416 | cancellation equals its specification |
| BorrowServices.BorrowService.Return | app/services/borrow_service.py:426-446 | return equals its specification |
| ReservationServices.ReservationService.Create | app/services/reservation_service.py:71-97 | creation equals its specification |
| ReservationServices.ReservationService.Cancel | app/services/reservation_service.py:158-187 | cancellation equals its specification |
| ReservationServices.ReservationService.SweepExpired | app/services/reservation_service.py:197-220 | the sweep loop completes exactly the expired rows and frees their setups; the count is the number of rows moved |
| AdminServices.HardwareStateService.SetFixedBaselineFields | app/repositories/sqlalchemy/hardware_baseline_repository.py:75-83 | the named baseline fields take current values, in a row created if missing |
| AdminServices.HardwareStateService.RebaselineEditedFields | app/services/hardware_state_service.py:89-117 | both loops in place re-baseline exactly what the edit changed |
| AdminServices.SetupService.Update | app/services/setup_service.py:65-105 | an edit of any field, its key lookup, its status transition and its re-baselining equal the specification |
| AdminServices.GroupHierarchyService.AddEdge | app/services/group_hierarchy_service.py:40-48 | an edge between existing different groups is appended unless it exists |
| AdminServices.GroupHierarchyService.RemoveEdge | app/services/group_hierarchy_service.py:58-61 | an existing edge is removed |
| AdminServices.ImportService.CountErrors | app/services/import_service.py:59-70 | the validation pass counts every row's errors |
| AdminServices.ImportService.ImportRows | app/services/import_service.py:48-170 | the two passes in place equal the specified import and its report |
| Api.Application.Handle | app/api/deps.py:303-345 | a request is authenticated, permission-checked and run; it commits the specified step or leaves every table as it was |
| Api.Application.HandleAll | app/db/session.py:56-74 | a sequence of requests takes the database through exactly the runs the run theorems speak of |

## Left out

- Emails, wall announcements, notification texts, audit-log rows and Excel transaction logs: no modelled property reads them.
- Authentication tokens and passwords: a call carries its user id; only "exists, is active, has the permission" is checked.
- HTTP routers, web views and the web routes that catch application errors without rolling back: steps are API calls.
- Concurrent database writers: each call is one atomic step.
- User, group, product and announcement CRUD, and deletion of setups: these tables stay fixed in a run, except that setups can be added and edited.
- Template edits inside a run: a run keeps its templates; TemplateOrder and TemplateRuns model the column table on its own.
- BorrowRuns.AlwaysDecidable: the routing rule without activity and permission; Decidability.DecidableIff and SeededDecidableIff add both.
- LedgerRuns.LedgerReplays: fixed fields; CellRuns.RunTracesIff covers every cell.
- LedgerRuns.RunChainsIff: fixed fields; CellRuns.TracedReverts covers every cell.
- CellRuns.CustomSwapUndoneIff: assumes the first approval settled; CustomUndo.TwoApprovalsRestoreIff does not.
- OriginalRuns.WebEditKeepsOriginalsIff: one edit; the web form's edit is not a step of a run, so OriginalsAreStable speaks of edits through the API, which touch no custom value.
- FLOAT, DATE and DATETIME columns: they depend on Python's float printing and date parsing, and a datetime given to a DATE column is stored with its time part.
- Text.ParsePrintInt: integer texts use ASCII digits; other Unicode digits and the interpreter's limit on very long digit strings are not modelled.
- TemplateValues.ValidateAndSerialize: raw values are missing, text, integer or boolean; lower-casing is ASCII only; error messages are reduced to column names.
- SwapServices.SwapService.ExchangeColumns: column names are resolved to fixed fields or custom names before the loop instead of in each pass; duplicate names inside one template read the first column, which the database's unique constraint excludes.
- SwapServices.SwapService.Create: reason, window, announcement fields, routed e-mail addresses and the stored width of the column list are not part of a request.
- SwapServices.SwapService.Approve: the previous-value snapshots on the request and the optional decision reason are not modelled; every optional collaborator of the service is present.
- BorrowServices.BorrowService.Create: reason, announcement fields and the stored start time are not part of a request; a blank field name is already absent.
- ReservationServices.ReservationService.Create: remarks and announcement fields are not modelled; times are points on one clock, so there are no time zones.
- AdminServices.SetupService.Update: the format of addresses and host names, foreign keys, and an explicit null for a required column are not checked.
- AdminServices.ImportService.ImportRows: starts from parsed rows; the schema check is an arbitrary count of errors per row; the template-aware import is left out; a unique-constraint failure, which the source lets escape as a database error, is an error result here.
- Borrows.OfferedExactlyWhenAccepted: the page limits of the two listings are not modelled.
- ApprovalRouting.ResolveSwapApprovers: approvers are a set; their ordering by e-mail is left out.
- HardwareState.ChangedFields: an entry is specified by the names in it; their order and multiplicity are left open, as the query has no order and the highlighting reads membership only.
- `.first()` without an ordering is modelled as table order.
- An id of 0 is an ordinary id here; the source treats a primary group id of 0 as absent, which a database key never is.
- Legacy swap columns (reservation, batch and setup ids) and the swap and borrow listing filters.
