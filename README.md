# Membership lifecycle of laravel-membership

This project models the core of the Laravel package `jobmetric/laravel-membership`. The package lets a
*person* model (any class using the `CanMember` trait) join a *memberable* model (any class using
`HasMember` and implementing `MemberContract`) in a named *collection*. Each memberable declares its
collections through `allowMemberCollection()`, and each collection is either `single` or `multiple`.
Store admits a new membership only under the collection's rule:

- in a `single` collection, only when no person actively holds the collection of that memberable;
- in a `multiple` collection, only when this person does not already actively hold it.

Renew and update-expiry do not consult the mode. They can reactivate a lapsed row after another row
took its place, so the rule can be broken after a store (`Lifecycle.RenewMayBreakExclusive`,
`Lifecycle.RenewMayDuplicateMultiple`).

A membership is a row of the `members` table. The row holds a person reference, a memberable reference,
the collection and an optional expiry. A row is *active* when it has no expiry or when its expiry lies
after now. The `Membership` service can sweep away the rows whose expiry has passed.

The model keeps the table as a sequence of rows, in insertion order, and keeps the dispatched events as
a log. It has these parts:

- `Outcomes`: the exceptions, the response arrays (`ok` and `status`) and an option type.
- `MemberModel`: a table row, its identity tuple (person, memberable, collection), the generic `where`
  filter, and the `ofCollection`, `expired` and `notExpired` query scopes of the `Member` model.
- `Entities`: persons and memberables. The trait and contract checks become role flags, and
  `bootHasMember` refuses a class without the contract.
- `Lifecycle`: the semantics that both traits share, written as pure functions from the old table to a
  `Step` (outcome, new table, events emitted). It covers store, forget, renew and update-expiry, the
  active/expired predicates, and the per-memberable exclusivity invariant that the admission rule of
  store maintains. A `MemberTable` class holds the mutable table and event log.
- `CanMemberTrait` and `HasMemberTrait`: the two mirror-image front ends.
  - Store, forget, renew and update-expiry are methods that update a `MemberTable` in place. Each one
    is proved equal to the matching `Lifecycle` step on the old table.
  - The `has` and `get` queries are functions.
  - Each trait first checks the role of the other model.
- `Membership`: `removeExpiredMember`, a method whose loop deletes by identity tuple one scanned row at a
  time. It is proved against `Survivors`, a function of the old table, and the sweep's properties
  (nothing expired remains, idempotence, exclusivity kept) are lemmas about that function.

The operations above are built from helper predicates and functions that carry no contract of their
own: `Lifecycle.IsPast` is the `isPast()` test (src/CanMember.php:72), `Lifecycle.Active` the
active test of the where-closures (src/CanMember.php:88), `Lifecycle.HeldInCollection`,
`Lifecycle.HeldBy` and `Lifecycle.Recorded` the `exists()` queries (src/CanMember.php:83-89, 102-110
and 263-267), `Lifecycle.Given` the PHP truthiness of `$collection` (src/CanMember.php:346, 357),
`Lifecycle.MatchesFilter` the closure's equality filters (src/CanMember.php:352-359),
`Lifecycle.ListedAsWritten` the listing closure (src/CanMember.php:351-366),
`Lifecycle.ListedIntended` the corrected form of that closure behind the intended listings,
`MemberModel.IsExpired` the `< now()` test of the expired scope and of the sweep's scan
(src/Models/Member.php:100, src/Membership.php:107), `MemberModel.IsNotExpired` the `>= now()` test of
the not-expired scope (src/Models/Member.php:112) and
`Membership.Survivors` the table left by the `each` loop (src/Membership.php:110-123), which
`Membership.SurvivorsExactly` characterises.

Time is an integer `now`, passed as a parameter. Carbon's `isPast()` is `expiry < now`. The active test
in the traits is `expiry > now OR expiry IS NULL`.

Points where the code's behaviour is easy to misread:

- Store and renew refuse an expiry only when it is strictly before now. An expiry equal to now is
  therefore accepted, even though the stored row is inactive at once (`Lifecycle.Store`,
  `Lifecycle.Renew`).
- Renew and update-expiry rewrite the expiry of one row with the identity tuple only: Laravel's
  `updateOrInsert` issues `limit(1)->update`, with no ordering. The model picks the first such row in
  insertion order (see "## Left out").
- The `notExpired` scope uses `>= now`. The traits' active test uses `> now`.
- The `MembershipStoredEvent` constructor takes person, memberable and collection. The traits pass the
  expiry as a fourth argument, which PHP drops, so the `Stored` event carries no expiry.

## Model

| member | source | states |
|---|---|---|
| MemberModel.Where | src/Models/Member.php:86-89 | a `where` keeps exactly the rows meeting the condition, each as often as the table holds it |
| MemberModel.OfCollection | src/Models/Member.php:86-89 | the scope keeps each row of the collection with its multiplicity and nothing else |
| MemberModel.Expired | src/Models/Member.php:98-101 | the scope keeps exactly the rows whose expiry is set and before now |
| MemberModel.NotExpired | src/Models/Member.php:110-113 | the scope keeps exactly the rows whose expiry is set and not before now |
| MemberModel.ExpiryScopesPartition | src/Models/Member.php:98-113 | the two scopes never share a row, and together they hold every row with a non-NULL expiry, each as often as the table does |
| Entities.BootHasMember | src/HasMember.php:43-48 | booting throws ModelMemberContractNotFound exactly for a HasMember class that lacks MemberContract |
| Lifecycle.Store | src/CanMember.php:66-143 | a store that does not create a row leaves the table and the event log alone; a created row is appended together with one Stored event |
| Lifecycle.StoreCheckOrder | src/CanMember.php:72-124 | a past expiry is raised first, then an undeclared collection, then a mode that is neither single nor multiple, each exactly in its case and without touching the table |
| Lifecycle.SingleModeAdmission | src/CanMember.php:82-100 | in a single collection, store succeeds exactly when no row of that memberable and collection is active, whoever owns it |
| Lifecycle.MultipleModeAdmission | src/CanMember.php:101-121 | in a multiple collection, store succeeds exactly when this person has no active row there; other persons' rows do not matter |
| Lifecycle.StoreThenHeld | src/CanMember.php:126-142 | after a successful store with a future expiry the membership is held, and a second store answers 400 |
| Lifecycle.WithoutIdentity | src/CanMember.php:189-195 | the delete removes every row with the identity tuple and keeps every other row with its multiplicity |
| Lifecycle.Forget | src/CanMember.php:154-205 | an undeclared collection throws; 404 exactly when no row has the identity, whatever its expiry; on 200 the rows of other identities all stay, each as often as before, and one Forgotten event is emitted |
| Lifecycle.ForgetThenGone | src/CanMember.php:189-204 | after a forget the membership is not held, and a second forget answers 404 with nothing changed |
| Lifecycle.FirstWith | src/CanMember.php:271-277 | the model's choice of the one row the unordered `limit(1)` update reaches: the first row with the identity tuple |
| Lifecycle.SetFirstExpiry | src/CanMember.php:271-277 | only the expiry of the chosen row (the first with the identity) changes; lengths, identities and all other rows stay the same |
| Lifecycle.Reschedule | src/CanMember.php:257-281 | an undeclared collection throws; false with nothing changed when no row has the identity, and true exactly when one has; on true exactly the given event is emitted |
| Lifecycle.Renew | src/CanMember.php:247-282 | a past expiry is refused first; anything but true leaves the table and the log alone |
| Lifecycle.UpdateExpiredAt | src/CanMember.php:294-325 | update-expiry never raises the past-expiry error |
| Lifecycle.RescheduleChangesOnlyExpiry | src/CanMember.php:271-277 | a successful renew or update rewrites the expiry of exactly one row that has the identity and changes nothing else |
| Lifecycle.RenewThenHeld | src/CanMember.php:247-282 | a renew to a future expiry leaves the membership held |
| Lifecycle.UpdatePastRetires | src/CanMember.php:294-325 | update-expiry accepts a past expiry and makes the updated row inactive; with one row per identity the membership is no longer held |
| Lifecycle.RescheduleIgnoresMode | src/CanMember.php:247-325 | renew and update-expiry give the same outcome and the same table whatever mode the collection declares |
| Lifecycle.ExclusiveWhere | src/CanMember.php:189-195 | deleting rows by any condition keeps a memberable's table free of conflicting active rows |
| Lifecycle.StorePreservesExclusive | src/CanMember.php:82-135 | a store never creates two conflicting active rows: the admission rule is the exclusivity rule |
| Lifecycle.ForgetPreservesExclusive | src/CanMember.php:189-195 | forget keeps the table exclusive |
| Lifecycle.ExclusiveLater | src/CanMember.php:87-89 | an exclusive table stays exclusive as time passes, because rows only become inactive |
| Lifecycle.RenewMayBreakExclusive | src/CanMember.php:247-282 | a reachable history where renewal reactivates a lapsed single-mode owner after a take-over, leaving two active owners |
| Lifecycle.RenewMayDuplicateMultiple | src/CanMember.php:247-282 | a possible history in a multiple collection where renewal, reaching the lapsed row, leaves one person with two active rows |
| Lifecycle.OwnerHandover | src/CanMember.php:82-205 | a single owner blocks every other person until forgotten; after that another person is admitted |
| CanMemberTrait.StorePerson | src/CanMember.php:66-143 | a memberable without HasMember throws and changes nothing; otherwise outcome, table and events are those of Lifecycle.Store |
| CanMemberTrait.ForgetPerson | src/CanMember.php:154-205 | the role error, otherwise exactly the forget step |
| CanMemberTrait.HasPerson | src/CanMember.php:216-235 | the role error, then the collection error; true exactly when an active row has the identity, false exactly when none has |
| CanMemberTrait.RenewPerson | src/CanMember.php:247-282 | the role error, otherwise exactly the renew step |
| CanMemberTrait.UpdateExpiredAtPerson | src/CanMember.php:294-325 | the role error, otherwise exactly the update-expiry step |
| CanMemberTrait.GetMember | src/CanMember.php:337-369 | the role and collection errors, and a listing in every other case; the expired listing is exactly this person's matching expired rows; the active listing has every matching active row, and also every row of the person that has no expiry; each listed row appears as often as in the table |
| CanMemberTrait.GetMemberIntended | src/CanMember.php:337-369 | same errors; the listing is exactly this person's rows matching the memberable and collection filters, expired or active as asked, each as often as in the table |
| CanMemberTrait.GetMemberListsUnrelatedRows | src/CanMember.php:351-366 | a concrete table where the active listing for one order and collection returns a row of another order and collection |
| HasMemberTrait.StoreMember | src/HasMember.php:80-153 | a person without CanMember throws and changes nothing; otherwise exactly Lifecycle.Store |
| HasMemberTrait.ForgetMember | src/HasMember.php:164-215 | the role error, otherwise exactly the forget step |
| HasMemberTrait.HasMember | src/HasMember.php:226-245 | the role error, then the collection error; true exactly when an active row has the identity |
| HasMemberTrait.RenewMember | src/HasMember.php:257-292 | the role error, otherwise exactly the renew step |
| HasMemberTrait.UpdateExpiredAtMember | src/HasMember.php:304-335 | the role error, otherwise exactly the update-expiry step |
| HasMemberTrait.GetPerson | src/HasMember.php:346-367 | an undeclared collection throws; only this memberable's rows are listed; the expired listing is exact; the active listing has every matching active row and also every row of this memberable that has no expiry; each listed row appears as often as in the table |
| HasMemberTrait.GetPersonIntended | src/HasMember.php:346-367 | the listing is exactly this memberable's rows in the collection, expired or active as asked, each as often as in the table |
| HasMemberTrait.GetPersonListsOtherCollections | src/HasMember.php:354-364 | a concrete table where the active 'owner' listing also returns a never-expiring 'members' row |
| HasMemberTrait.HasIsMirrored | src/HasMember.php:226-245 | with both roles present, hasPerson and hasMember give the same answer |
| Membership.Announce | src/Membership.php:110-123 | the sweep emits one RemovedExpired event per scanned row, in scan order |
| Membership.DeleteTuple | src/Membership.php:114-122 | one callback deletes every row with the scanned row's identity and then logs its event |
| Membership.DeleteScanned | src/Membership.php:110-123 | the loop leaves exactly `Survivors` of the old table and appends the events of the scan |
| Membership.RemoveExpiredMember | src/Membership.php:105-130 | false and nothing changed exactly when no row is expired; otherwise the identity-tuple deletes of every expired row and their events |
| Membership.SurvivorsExactly | src/Membership.php:110-123 | a row survives exactly when no scanned row shares its identity tuple, and then it keeps every copy |
| Membership.SweepLeavesNoExpired | src/Membership.php:105-130 | after a sweep no expired row remains |
| Membership.SweepIdempotent | src/Membership.php:105-130 | a second sweep at the same time returns false and changes neither the table nor the log |
| Membership.SweepKeepsUnrelated | src/Membership.php:114-120 | a row whose identity no expired row shares keeps all its copies |
| Membership.SurvivorsPreserveExclusive | src/Membership.php:105-130 | the sweep keeps every memberable's table exclusive |
| Membership.SweepRemovesReadmitted | src/Membership.php:114-120 | a reachable history where the sweep deletes an active re-admitted row because an expired row shares its tuple |
| Membership.SweepByRow | src/Membership.php:105-130 | the sweep deleting exactly the expired rows: every active row is kept, nothing expired remains |
| Membership.SweepAgreesWhenTuplesUnique | src/Membership.php:105-130 | when no row shares its tuple with an expired row, the sweep as written keeps the same rows as the by-row sweep, each as often |

## Left out

- Morph types: a reference is one `kind` string and an integer id. The model does not capture morph-map aliases or the difference between `self::class`, `get_class` and a subclass.
- Collection checks use PHP's loose `in_array` over `array_keys`. The model uses exact map-key membership, so loose matches such as a numeric string against an integer key are not modelled.
- Only `ok` and `status` of the response arrays are kept. The translated `message`/`errors` texts and the `data` resource are left out.
- Each exception is modelled by its kind. The class name and collection it carries are left out.
- Events are entries in a log. Their listeners and serialisation are left out. The `Stored` event has no expiry because the event's constructor takes none.
- `Lifecycle.Renew`: `MembershipRenewEvent` takes a non-null Carbon expiry (src/Events/MembershipRenewEvent.php:18). In PHP, `renewPerson`/`renewMember` without an expiry write NULL and then throw a TypeError when the event is built; the model returns true with the NULL expiry written and a `Renewed` event.
- `Lifecycle.FirstWith`: the `limit(1)` update of renew and update-expiry has no `orderBy`, so the database may update any row with the identity tuple. The model fixes the first row in insertion order. `Lifecycle.RescheduleChangesOnlyExpiry` states the property that holds whichever row is picked; `Lifecycle.RenewMayDuplicateMultiple` shows a possible outcome, not a certain one (had the database updated the second row, one row would be active).
- The clock is the parameter `now`, and Carbon instants are integers, with no time zones or sub-second precision.
- Store checks and then inserts without a lock. Two concurrent stores can both pass the check; concurrency is not modelled.
- The `expires_at` / `expired_at` split is not modelled. `Member`'s fillable list, casts and scopes name `expires_at`, while the traits and the sweep write and read `expired_at`. The model has one expiry column, so it does not capture that a mass-assigned `expired_at` would be dropped on create.
- The `Membership` service's `query`, `all` and `paginate` operations, the HTTP resources, the facade, the service provider, the `member:remove` console command and its schedule, the migration, the factory and the language files are not part of this model.
- The relation accessors `person()`, `persons()`, `member()` and `members()` appear only as the row filters they add to queries.
- `Lifecycle.Renew`: states only the past-expiry refusal and the no-change cases in its own contract. Its effect on success is stated by `Lifecycle.RescheduleChangesOnlyExpiry` and `Lifecycle.RenewThenHeld`.
- `Lifecycle.UpdateExpiredAt`: states only that no past-expiry error is raised. Its effect is stated by `Lifecycle.Reschedule`, `Lifecycle.RescheduleChangesOnlyExpiry` and `Lifecycle.UpdatePastRetires`.

## Findings

| source | as written | input that shows it | evidently intended | confidence | as-written member | corrected member |
|---|---|---|---|---|---|---|
| src/CanMember.php:351-366 | in the active listing, `orWhereNull('expired_at')` is OR-ed with the memberable and collection filters inside the closure | a user with never-expiring rows in 'owner' of order 1 and 'members' of order 2, who asks for order 1 and 'owner': the order 2 row is listed | a row without expiry counts as active only within the requested memberable and collection | high (not executed) | CanMemberTrait.GetMemberListsUnrelatedRows | CanMemberTrait.GetMemberIntended |
| src/HasMember.php:354-364 | the same OR grouping in getPerson | an order with never-expiring rows in 'owner' and 'members', asked for active 'owner' rows: the 'members' row is listed | only rows of the requested collection are listed | high (not executed) | HasMemberTrait.GetPersonListsOtherCollections | HasMemberTrait.GetPersonIntended |
| src/Membership.php:114-120 | each expired row is deleted by its identity tuple rather than by its key | a 'members' row lapses at 5; at 6 the same person is admitted again until 100; a sweep at 10 deletes both rows | only the expired rows are deleted | medium (not executed) | Membership.SweepRemovesReadmitted | Membership.SweepByRow |
