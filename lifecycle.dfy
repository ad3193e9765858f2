/**
 * The membership lifecycle shared by the two traits: the members table with its event log,
 * the active/expired predicates the traits query with, and each operation's effect on the
 * table once the trait has checked the other party's role. CanMember and HasMember are
 * mirror-image front ends to these functions.
 */
module Lifecycle {
  import opened Outcomes
  import opened MemberModel
  import opened Entities

  const Single := "single"
  const Multiple := "multiple"

  /** The events the operations dispatch, as tags with their payload. */
  datatype Event =
    | Stored(person: Ref, memberable: Ref, collection: string)
    | Forgotten(person: Ref, memberable: Ref, collection: string)
    | Renewed(person: Ref, memberable: Ref, collection: string, expiredAt: Option<int>)
    | ExpiredAtUpdated(person: Ref, memberable: Ref, collection: string, expiredAt: Option<int>)
    | RemovedExpired(member: Member)

  /** The shared `members` table, in insertion order, and the events dispatched so far. */
  class MemberTable {
    var rows: seq<Member>
    var events: seq<Event>

    constructor ()
      ensures rows == [] && events == []
    {
      rows := [];
      events := [];
    }
  }

  /** What an operation returns, the table it leaves and the events it dispatches. */
  datatype Step<+T> = Step(result: Outcome<T>, rows: seq<Member>, emitted: seq<Event>)

  /** The traits' `expired_at > now OR expired_at IS NULL`. */
  predicate Active(m: Member, now: int) {
    m.expiredAt.None? || m.expiredAt.value > now
  }

  /** Carbon's isPast on an optional expiry: set and strictly before now. */
  predicate IsPast(expiredAt: Option<int>, now: int) {
    expiredAt.Some? && expiredAt.value < now
  }

  /** Single-mode query: some person actively holds `collection` of `memberable`. */
  predicate HeldInCollection(rows: seq<Member>, memberable: Ref, collection: string, now: int) {
    exists i | 0 <= i < |rows| :: rows[i].memberable == memberable && rows[i].collection == collection
                                  && Active(rows[i], now)
  }

  /** Multiple-mode and has query: an active record with exactly this identity. */
  predicate HeldBy(rows: seq<Member>, id: Identity, now: int) {
    exists i | 0 <= i < |rows| :: rows[i].Id() == id && Active(rows[i], now)
  }

  /** Forget, renew and update query: a record with this identity, active or not. */
  predicate Recorded(rows: seq<Member>, id: Identity) {
    exists i | 0 <= i < |rows| :: rows[i].Id() == id
  }

  // ---------------------------------------------------------------- store

  /** store (after the role check): validate, enforce the collection's mode, insert. */
  function Store(rows: seq<Member>, person: Ref, target: Target, collection: string,
                 expiredAt: Option<int>, now: int): (s: Step<Response>)
    ensures s.result.Returned? ==> s.result.value == Created || s.result.value == AlreadyMember
    ensures s.result != Returned(Created) ==> s.rows == rows && s.emitted == []
    ensures s.result == Returned(Created) ==>
              && s.rows == rows + [Member(person, target.ref, collection, expiredAt)]
              && s.emitted == [Stored(person, target.ref, collection)]
  {
    var admitted := Step(Returned(Created), rows + [Member(person, target.ref, collection, expiredAt)],
                         [Stored(person, target.ref, collection)]);
    var refused := Step(Returned(AlreadyMember), rows, []);
    if IsPast(expiredAt, now) then Step(Thrown(MemberExpiredAtIsPast), rows, [])
    else if collection !in target.collections then Step(Thrown(MemberCollectionNotAllowed), rows, [])
    else if target.collections[collection] == Single then
      if HeldInCollection(rows, target.ref, collection, now) then refused else admitted
    else if target.collections[collection] == Multiple then
      if HeldBy(rows, Identity(person, target.ref, collection), now) then refused else admitted
    else Step(Thrown(MemberCollectionTypeNotMatch), rows, [])
  }

  /** The validation order: a past expiry first, then an undeclared collection, then a bad mode;
      each is raised exactly in its case and none of them touches the table. */
  lemma StoreCheckOrder(rows: seq<Member>, person: Ref, target: Target, collection: string,
                        expiredAt: Option<int>, now: int)
    ensures var s := Store(rows, person, target, collection, expiredAt, now);
      && (s.result == Thrown(MemberExpiredAtIsPast) <==> IsPast(expiredAt, now))
      && (s.result == Thrown(MemberCollectionNotAllowed) <==>
            !IsPast(expiredAt, now) && collection !in target.collections)
      && (s.result == Thrown(MemberCollectionTypeNotMatch) <==>
            && !IsPast(expiredAt, now) && collection in target.collections
            && target.collections[collection] != Single && target.collections[collection] != Multiple)
      && (s.result.Thrown? ==> s.rows == rows && s.emitted == [])
  {
  }

  /** Single mode: admitted exactly when no person holds the collection of this memberable actively. */
  lemma SingleModeAdmission(rows: seq<Member>, person: Ref, target: Target, collection: string,
                            expiredAt: Option<int>, now: int)
    requires !IsPast(expiredAt, now) && collection in target.collections
    requires target.collections[collection] == Single
    ensures var s := Store(rows, person, target, collection, expiredAt, now);
      && s.result.Returned?
      && (s.result == Returned(Created) <==>
            forall x | x in rows :: !(x.memberable == target.ref && x.collection == collection && Active(x, now)))
  {
  }

  /** Multiple mode: admitted exactly when this very person has no active record in the collection;
      active records of other persons do not matter. */
  lemma MultipleModeAdmission(rows: seq<Member>, person: Ref, target: Target, collection: string,
                              expiredAt: Option<int>, now: int)
    requires !IsPast(expiredAt, now) && collection in target.collections
    requires target.collections[collection] == Multiple
    ensures var s := Store(rows, person, target, collection, expiredAt, now);
      && s.result.Returned?
      && (s.result == Returned(Created) <==>
            forall x | x in rows && x.person == person && x.memberable == target.ref
                                 && x.collection == collection :: !Active(x, now))
  {
  }

  /** After a successful store whose expiry lies ahead, the membership is held, and storing the
      same person into the same collection again is refused with 400. */
  lemma StoreThenHeld(rows: seq<Member>, person: Ref, target: Target, collection: string,
                      expiredAt: Option<int>, now: int)
    requires Store(rows, person, target, collection, expiredAt, now).result == Returned(Created)
    requires expiredAt.None? || expiredAt.value > now
    ensures var after := Store(rows, person, target, collection, expiredAt, now).rows;
      && HeldBy(after, Identity(person, target.ref, collection), now)
      && Store(after, person, target, collection, expiredAt, now).result == Returned(AlreadyMember)
  {
    var after := Store(rows, person, target, collection, expiredAt, now).rows;
    assert after[|rows|] == Member(person, target.ref, collection, expiredAt);
  }

  // ---------------------------------------------------------------- forget

  /** The delete query of forget: every row with this identity goes. */
  function WithoutIdentity(rows: seq<Member>, id: Identity): (r: seq<Member>)
    ensures forall m :: m in r <==> m in rows && m.Id() != id
    ensures forall m :: multiset(r)[m] == if m.Id() == id then 0 else multiset(rows)[m]
    ensures !Recorded(rows, id) ==> r == rows
  {
    Where(rows, (m: Member) => m.Id() != id)
  }

  /** forget (after the role check): 404 when no row has the identity, whatever its expiry;
      otherwise every row with the identity is deleted and 200 is returned. */
  function Forget(rows: seq<Member>, person: Ref, target: Target, collection: string): (s: Step<Response>)
    ensures s.result == Thrown(MemberCollectionNotAllowed) <==> collection !in target.collections
    ensures s.result != Returned(Deleted) ==> s.rows == rows && s.emitted == []
    ensures collection in target.collections ==>
              (s.result == Returned(Deleted) <==> Recorded(rows, Identity(person, target.ref, collection)))
    ensures collection in target.collections && !Recorded(rows, Identity(person, target.ref, collection)) ==>
              s.result == Returned(NotFound)
    ensures s.result == Returned(Deleted) ==>
              && (forall m :: m in s.rows <==> m in rows && m.Id() != Identity(person, target.ref, collection))
              && (forall m :: multiset(s.rows)[m] ==
                    if m.Id() == Identity(person, target.ref, collection) then 0 else multiset(rows)[m])
              && s.emitted == [Forgotten(person, target.ref, collection)]
  {
    var id := Identity(person, target.ref, collection);
    if collection !in target.collections then Step(Thrown(MemberCollectionNotAllowed), rows, [])
    else if !Recorded(rows, id) then Step(Returned(NotFound), rows, [])
    else Step(Returned(Deleted), WithoutIdentity(rows, id), [Forgotten(person, target.ref, collection)])
  }

  /** After a forget the membership is not held, and a second forget answers 404. */
  lemma ForgetThenGone(rows: seq<Member>, person: Ref, target: Target, collection: string, now: int)
    requires Forget(rows, person, target, collection).result == Returned(Deleted)
    ensures var after := Forget(rows, person, target, collection).rows;
      && !HeldBy(after, Identity(person, target.ref, collection), now)
      && Forget(after, person, target, collection) == Step(Returned(NotFound), after, [])
  {
    var id := Identity(person, target.ref, collection);
    var after := Forget(rows, person, target, collection).rows;
    assert forall i | 0 <= i < |after| :: after[i] in after;
  }

  // ---------------------------------------------------------------- renew / update expiry

  /** Past a first row of another identity, the identity is recorded exactly when it is in the rest. */
  lemma RecordedTail(rows: seq<Member>, id: Identity)
    requires rows != [] && rows[0].Id() != id
    ensures Recorded(rows, id) <==> Recorded(rows[1..], id)
  {
    if Recorded(rows, id) {
      var i :| 0 <= i < |rows| && rows[i].Id() == id;
      assert rows[1..][i - 1].Id() == id;
    }
    if Recorded(rows[1..], id) {
      var i :| 0 <= i < |rows[1..]| && rows[1..][i].Id() == id;
      assert rows[i + 1].Id() == id;
    }
  }

  /** The first row (in table order) that has this identity. */
  function FirstWith(rows: seq<Member>, id: Identity): (k: nat)
    requires Recorded(rows, id)
    ensures k < |rows| && rows[k].Id() == id
    ensures forall j | 0 <= j < k :: rows[j].Id() != id
  {
    if rows[0].Id() == id then 0
    else
      RecordedTail(rows, id);
      1 + FirstWith(rows[1..], id)
  }

  /** updateOrInsert once the row is known to exist: `limit(1)->update(['expired_at' => ...])`
      sets the expiry of the first row with the identity and of no other row. */
  function SetFirstExpiry(rows: seq<Member>, id: Identity, expiredAt: Option<int>): (r: seq<Member>)
    ensures |r| == |rows|
    ensures forall i | 0 <= i < |rows| :: r[i].Id() == rows[i].Id()
    ensures !Recorded(rows, id) ==> r == rows
    ensures Recorded(rows, id) ==>
              && r[FirstWith(rows, id)].expiredAt == expiredAt
              && forall i | 0 <= i < |rows| && i != FirstWith(rows, id) :: r[i] == rows[i]
  {
    if rows == [] then []
    else if rows[0].Id() == id then [rows[0].(expiredAt := expiredAt)] + rows[1..]
    else
      RecordedTail(rows, id);
      [rows[0]] + SetFirstExpiry(rows[1..], id, expiredAt)
  }

  /** The part renew and update-expiry share: validate the collection, answer false when no row has
      the identity, otherwise set the expiry of that row and dispatch `announce`. The collection's
      mode is never consulted. */
  function Reschedule(rows: seq<Member>, person: Ref, target: Target, collection: string,
                      expiredAt: Option<int>, announce: Event): (s: Step<bool>)
    ensures s.result == Thrown(MemberCollectionNotAllowed) <==> collection !in target.collections
    ensures s.result != Returned(true) ==> s.rows == rows && s.emitted == []
    ensures collection in target.collections ==>
              (s.result == Returned(true) <==> Recorded(rows, Identity(person, target.ref, collection)))
    ensures collection in target.collections && !Recorded(rows, Identity(person, target.ref, collection)) ==>
              s.result == Returned(false)
    ensures s.result == Returned(true) ==> s.emitted == [announce]
  {
    var id := Identity(person, target.ref, collection);
    if collection !in target.collections then Step(Thrown(MemberCollectionNotAllowed), rows, [])
    else if !Recorded(rows, id) then Step(Returned(false), rows, [])
    else Step(Returned(true), SetFirstExpiry(rows, id, expiredAt), [announce])
  }

  /** renew (after the role check): a past expiry is refused before anything else. */
  function Renew(rows: seq<Member>, person: Ref, target: Target, collection: string,
                 expiredAt: Option<int>, now: int): (s: Step<bool>)
    ensures s.result == Thrown(MemberExpiredAtIsPast) <==> IsPast(expiredAt, now)
    ensures s.result != Returned(true) ==> s.rows == rows && s.emitted == []
  {
    if IsPast(expiredAt, now) then Step(Thrown(MemberExpiredAtIsPast), rows, [])
    else Reschedule(rows, person, target, collection, expiredAt,
                    Renewed(person, target.ref, collection, expiredAt))
  }

  /** updateExpiredAt (after the role check): like renew, but any expiry is accepted. */
  function UpdateExpiredAt(rows: seq<Member>, person: Ref, target: Target, collection: string,
                           expiredAt: Option<int>): (s: Step<bool>)
    ensures s.result != Thrown(MemberExpiredAtIsPast)
  {
    Reschedule(rows, person, target, collection, expiredAt,
               ExpiredAtUpdated(person, target.ref, collection, expiredAt))
  }

  /** A successful reschedule changes the expiry of exactly one row, the first with the identity,
      and no identity field of any row. */
  lemma RescheduleChangesOnlyExpiry(rows: seq<Member>, person: Ref, target: Target, collection: string,
                                    expiredAt: Option<int>, announce: Event)
    requires Reschedule(rows, person, target, collection, expiredAt, announce).result == Returned(true)
    ensures var after := Reschedule(rows, person, target, collection, expiredAt, announce).rows;
      && |after| == |rows|
      && (forall i | 0 <= i < |rows| :: after[i].Id() == rows[i].Id())
      && (exists k | 0 <= k < |rows| ::
            && rows[k].Id() == Identity(person, target.ref, collection)
            && after[k] == rows[k].(expiredAt := expiredAt)
            && forall i | 0 <= i < |rows| && i != k :: after[i] == rows[i])
  {
    var id := Identity(person, target.ref, collection);
    var k := FirstWith(rows, id);
    var after := Reschedule(rows, person, target, collection, expiredAt, announce).rows;
    assert after[k] == rows[k].(expiredAt := expiredAt);
  }

  /** Renew with an expiry ahead of now leaves the membership held. */
  lemma RenewThenHeld(rows: seq<Member>, person: Ref, target: Target, collection: string,
                      expiredAt: Option<int>, now: int)
    requires Renew(rows, person, target, collection, expiredAt, now).result == Returned(true)
    requires expiredAt.None? || expiredAt.value > now
    ensures HeldBy(Renew(rows, person, target, collection, expiredAt, now).rows,
                   Identity(person, target.ref, collection), now)
  {
    var id := Identity(person, target.ref, collection);
    var after := Renew(rows, person, target, collection, expiredAt, now).rows;
    var k := FirstWith(rows, id);
    assert after[k].Id() == id && Active(after[k], now);
  }

  /** Updating to a past expiry is accepted and retires the updated row at once; when it was the
      only row with the identity, the membership is no longer held. */
  lemma UpdatePastRetires(rows: seq<Member>, person: Ref, target: Target, collection: string,
                          expiredAt: Option<int>, now: int)
    requires collection in target.collections
    requires Recorded(rows, Identity(person, target.ref, collection))
    requires expiredAt.Some? && expiredAt.value <= now
    ensures var s := UpdateExpiredAt(rows, person, target, collection, expiredAt);
      && s.result == Returned(true)
      && !Active(s.rows[FirstWith(rows, Identity(person, target.ref, collection))], now)
    ensures (forall i, j | 0 <= i < j < |rows| && rows[i].Id() == Identity(person, target.ref, collection)
                         :: rows[j].Id() != Identity(person, target.ref, collection))
            ==> !HeldBy(UpdateExpiredAt(rows, person, target, collection, expiredAt).rows,
                        Identity(person, target.ref, collection), now)
  {
    var id := Identity(person, target.ref, collection);
    var after := UpdateExpiredAt(rows, person, target, collection, expiredAt).rows;
    var k := FirstWith(rows, id);
    if (forall i, j | 0 <= i < j < |rows| && rows[i].Id() == id :: rows[j].Id() != id) {
      assert forall i | 0 <= i < |after| && i != k :: after[i].Id() != id;
    }
  }

  /** Neither renew nor update-expiry looks at the collection's mode: two memberables that declare
      the same collections, in whatever modes, get the same outcome and the same table. */
  lemma RescheduleIgnoresMode(rows: seq<Member>, person: Ref, t: Target, u: Target, collection: string,
                              expiredAt: Option<int>, now: int)
    requires t.ref == u.ref && t.collections.Keys == u.collections.Keys
    ensures Renew(rows, person, t, collection, expiredAt, now) == Renew(rows, person, u, collection, expiredAt, now)
    ensures UpdateExpiredAt(rows, person, t, collection, expiredAt)
         == UpdateExpiredAt(rows, person, u, collection, expiredAt)
  {
  }

  // ---------------------------------------------------------------- listing

  /** PHP truthiness of the optional collection argument: null, "" and "0" count as absent. */
  predicate Given(collection: Option<string>) {
    collection.Some? && collection.value != "" && collection.value != "0"
  }

  /** The equality constraints of getMember / getPerson. */
  predicate MatchesFilter(m: Member, memberable: Option<Ref>, collection: Option<string>) {
    && (memberable.None? || m.memberable == memberable.value)
    && (!Given(collection) || m.collection == collection.value)
  }

  /** The grouped where-closure as written: in the non-expired branch the trailing
      `orWhereNull('expired_at')` is OR-ed with all of the closure's other conditions. */
  predicate ListedAsWritten(m: Member, memberable: Option<Ref>, collection: Option<string>,
                            isExpired: bool, now: int) {
    if isExpired then MatchesFilter(m, memberable, collection) && IsExpired(m, now)
    else (MatchesFilter(m, memberable, collection) && m.expiredAt.Some? && m.expiredAt.value > now)
         || m.expiredAt.None?
  }

  /** The listing the filters evidently ask for: matching rows, active or expired as asked. */
  predicate ListedIntended(m: Member, memberable: Option<Ref>, collection: Option<string>,
                           isExpired: bool, now: int) {
    MatchesFilter(m, memberable, collection) && (if isExpired then IsExpired(m, now) else Active(m, now))
  }

  // ---------------------------------------------------------------- exclusivity

  /** Two rows that the admission rule of `t` forbids from being active together: same memberable
      and collection, both active, and the mode is single, or multiple with the same person. */
  predicate Conflict(a: Member, b: Member, t: Target, now: int) {
    && a.memberable == t.ref && b.memberable == t.ref
    && a.collection == b.collection && a.collection in t.collections
    && Active(a, now) && Active(b, now)
    && (t.collections[a.collection] == Single
        || (t.collections[a.collection] == Multiple && a.person == b.person))
  }

  /** No two rows (at distinct positions) of the table conflict for memberable `t`. */
  predicate Exclusive(rows: seq<Member>, t: Target, now: int)
    decreases |rows|
  {
    rows == [] || ((forall x | x in rows[1..] :: !Conflict(rows[0], x, t, now)) && Exclusive(rows[1..], t, now))
  }

  lemma {:induction false} ExclusiveAppend(rows: seq<Member>, m: Member, t: Target, now: int)
    ensures Exclusive(rows + [m], t, now) <==>
              Exclusive(rows, t, now) && forall x | x in rows :: !Conflict(x, m, t, now)
    decreases |rows|
  {
    if rows != [] {
      assert (rows + [m])[0] == rows[0];
      assert (rows + [m])[1..] == rows[1..] + [m];
      ExclusiveAppend(rows[1..], m, t, now);
      assert forall x :: x in rows <==> x == rows[0] || x in rows[1..] by {
        assert rows == [rows[0]] + rows[1..];
      }
    }
  }

  /** Any `where` filter keeps the table exclusive: forget and the sweep only delete. */
  lemma {:induction false} ExclusiveWhere(rows: seq<Member>, keep: Member -> bool, t: Target, now: int)
    requires Exclusive(rows, t, now)
    ensures Exclusive(Where(rows, keep), t, now)
    decreases |rows|
  {
    if rows != [] {
      ExclusiveWhere(rows[1..], keep, t, now);
      var tail := Where(rows[1..], keep);
      if keep(rows[0]) {
        var r := [rows[0]] + tail;
        assert Where(rows, keep) == r;
        assert r[1..] == tail;
      } else {
        assert Where(rows, keep) == tail;
      }
    }
  }

  /** A successful store never creates a conflict: the admission rule is the exclusivity rule. */
  lemma StorePreservesExclusive(rows: seq<Member>, person: Ref, u: Target, collection: string,
                                expiredAt: Option<int>, now: int, t: Target)
    requires Exclusive(rows, t, now)
    requires u.ref == t.ref ==> u.collections == t.collections
    ensures Exclusive(Store(rows, person, u, collection, expiredAt, now).rows, t, now)
  {
    var s := Store(rows, person, u, collection, expiredAt, now);
    if s.result == Returned(Created) {
      var m := Member(person, u.ref, collection, expiredAt);
      forall x | x in rows
        ensures !Conflict(x, m, t, now)
      {
        var i :| 0 <= i < |rows| && rows[i] == x;
      }
      ExclusiveAppend(rows, m, t, now);
    }
  }

  /** Forget keeps the table exclusive. */
  lemma ForgetPreservesExclusive(rows: seq<Member>, person: Ref, u: Target, collection: string,
                                 now: int, t: Target)
    requires Exclusive(rows, t, now)
    ensures Exclusive(Forget(rows, person, u, collection).rows, t, now)
  {
    ExclusiveWhere(rows, (m: Member) => m.Id() != Identity(person, u.ref, collection), t, now);
  }

  /** The passing of time keeps the table exclusive: rows only ever stop being active. */
  lemma {:induction false} ExclusiveLater(rows: seq<Member>, t: Target, now: int, later: int)
    requires Exclusive(rows, t, now) && now <= later
    ensures Exclusive(rows, t, later)
    decreases |rows|
  {
    if rows != [] {
      ExclusiveLater(rows[1..], t, now, later);
      assert forall x | x in rows[1..] :: Conflict(rows[0], x, t, later) ==> Conflict(rows[0], x, t, now);
    }
  }

  /** Renew re-activates an expired row that the sweep has not yet removed, without re-checking the
      mode: an owner whose single-mode ownership lapsed at 5 and was taken over at 6 by another person
      can renew, leaving two active owners. The same holds for update-expiry. */
  lemma RenewMayBreakExclusive()
    ensures
      var a := Ref("User", 1);
      var b := Ref("User", 2);
      var order := Target(Ref("Order", 7), true, true, map["owner" := Single]);
      var first := Store([], a, order, "owner", Some(5), 0);
      var second := Store(first.rows, b, order, "owner", None, 6);
      var renewed := Renew(second.rows, a, order, "owner", Some(100), 6);
      && first.result == Returned(Created) && second.result == Returned(Created)
      && renewed.result == Returned(true)
      && Exclusive(second.rows, order, 6) && !Exclusive(renewed.rows, order, 6)
  {
    var a := Ref("User", 1);
    var b := Ref("User", 2);
    var order := Target(Ref("Order", 7), true, true, map["owner" := Single]);
    var first := Store([], a, order, "owner", Some(5), 0);
    var second := Store(first.rows, b, order, "owner", None, 6);
    assert first.rows == [Member(a, order.ref, "owner", Some(5))];
    assert !HeldInCollection(first.rows, order.ref, "owner", 6);
    assert second.rows == [Member(a, order.ref, "owner", Some(5)), Member(b, order.ref, "owner", None)];
    var renewed := Renew(second.rows, a, order, "owner", Some(100), 6);
    assert second.rows[0].Id() == Identity(a, order.ref, "owner");
    assert renewed.rows == [Member(a, order.ref, "owner", Some(100)), Member(b, order.ref, "owner", None)];
    assert Conflict(renewed.rows[0], renewed.rows[1], order, 6);
    assert renewed.rows[1] in renewed.rows[1..];
  }

  /** The same in a multiple collection: a person whose row lapsed at 5 is stored again at 6; renewing
      at 6 rewrites the first, lapsed row, and the one person then holds two active rows. */
  lemma RenewMayDuplicateMultiple()
    ensures
      var a := Ref("User", 1);
      var team := Target(Ref("Team", 3), true, true, map["members" := Multiple]);
      var first := Store([], a, team, "members", Some(5), 0);
      var second := Store(first.rows, a, team, "members", None, 6);
      var renewed := Renew(second.rows, a, team, "members", Some(100), 6);
      && first.result == Returned(Created) && second.result == Returned(Created)
      && renewed.result == Returned(true)
      && Exclusive(second.rows, team, 6) && !Exclusive(renewed.rows, team, 6)
  {
    var a := Ref("User", 1);
    var team := Target(Ref("Team", 3), true, true, map["members" := Multiple]);
    var first := Store([], a, team, "members", Some(5), 0);
    assert first.rows == [Member(a, team.ref, "members", Some(5))];
    assert !HeldBy(first.rows, Identity(a, team.ref, "members"), 6);
    var second := Store(first.rows, a, team, "members", None, 6);
    assert second.rows == [Member(a, team.ref, "members", Some(5)), Member(a, team.ref, "members", None)];
    var renewed := Renew(second.rows, a, team, "members", Some(100), 6);
    assert second.rows[0].Id() == Identity(a, team.ref, "members");
    assert renewed.rows == [Member(a, team.ref, "members", Some(100)), Member(a, team.ref, "members", None)];
    assert Conflict(renewed.rows[0], renewed.rows[1], team, 6);
    assert renewed.rows[1] in renewed.rows[1..];
  }

  /** A single-mode owner blocks everyone else until forgotten; then another person can take over. */
  lemma OwnerHandover(rows: seq<Member>, a: Ref, b: Ref, target: Target, now: int)
    requires a != b && "owner" in target.collections && target.collections["owner"] == Single
    requires !HeldInCollection(rows, target.ref, "owner", now)
    ensures
      var first := Store(rows, a, target, "owner", None, now);
      var rejected := Store(first.rows, b, target, "owner", None, now);
      var forgotten := Forget(first.rows, a, target, "owner");
      && first.result == Returned(Created)
      && rejected.result == Returned(AlreadyMember)
      && forgotten.result == Returned(Deleted)
      && Store(forgotten.rows, b, target, "owner", None, now).result == Returned(Created)
  {
    var first := Store(rows, a, target, "owner", None, now);
    var m := Member(a, target.ref, "owner", None);
    assert first.rows[|rows|] == m;
    assert Recorded(first.rows, m.Id());
    var forgotten := Forget(first.rows, a, target, "owner");
    forall i | 0 <= i < |forgotten.rows|
      ensures !(forgotten.rows[i].memberable == target.ref && forgotten.rows[i].collection == "owner"
                && Active(forgotten.rows[i], now))
    {
      var x := forgotten.rows[i];
      assert x in first.rows;
      var j :| 0 <= j < |first.rows| && first.rows[j] == x;
      if j < |rows| {
        assert rows[j] == x;
      }
    }
  }
}
