/**
 * The HasMember trait: the target-side front end. Each operation first checks that the person
 * argument uses CanMember, then behaves as the shared lifecycle step for the identity
 * (person, this memberable, collection). The memberable itself uses HasMember and has booted.
 */
module HasMemberTrait {
  import opened Outcomes
  import opened MemberModel
  import opened Entities
  import opened Lifecycle
  import CanMemberTrait

  /** The memberable an operation of this trait runs on: its class uses HasMember and booted. */
  predicate OnMemberable(memberable: Target) {
    memberable.usesHasMember && Instantiable(memberable)
  }

  /** storeMember */
  method StoreMember(db: MemberTable, memberable: Target, person: Person, collection: string,
                     expiredAt: Option<int>, now: int) returns (r: Outcome<Response>)
    requires OnMemberable(memberable)
    modifies db
    ensures !person.usesCanMember ==>
              r == Thrown(TraitCanMemberNotFound) && db.rows == old(db.rows) && db.events == old(db.events)
    ensures person.usesCanMember ==>
              var s := Store(old(db.rows), person.ref, memberable, collection, expiredAt, now);
              r == s.result && db.rows == s.rows && db.events == old(db.events) + s.emitted
  {
    if !person.usesCanMember {
      return Thrown(TraitCanMemberNotFound);
    }
    if expiredAt.Some? && expiredAt.value < now {
      return Thrown(MemberExpiredAtIsPast);
    }
    var allowed := memberable.collections;
    if collection !in allowed {
      return Thrown(MemberCollectionNotAllowed);
    }
    if allowed[collection] == Single {
      if HeldInCollection(db.rows, memberable.ref, collection, now) {
        return Returned(AlreadyMember);
      }
    } else if allowed[collection] == Multiple {
      if HeldBy(db.rows, Identity(person.ref, memberable.ref, collection), now) {
        return Returned(AlreadyMember);
      }
    } else {
      return Thrown(MemberCollectionTypeNotMatch);
    }
    db.rows := db.rows + [Member(person.ref, memberable.ref, collection, expiredAt)];
    db.events := db.events + [Stored(person.ref, memberable.ref, collection)];
    return Returned(Created);
  }

  /** forgetMember */
  method ForgetMember(db: MemberTable, memberable: Target, person: Person, collection: string)
    returns (r: Outcome<Response>)
    requires OnMemberable(memberable)
    modifies db
    ensures !person.usesCanMember ==>
              r == Thrown(TraitCanMemberNotFound) && db.rows == old(db.rows) && db.events == old(db.events)
    ensures person.usesCanMember ==>
              var s := Forget(old(db.rows), person.ref, memberable, collection);
              r == s.result && db.rows == s.rows && db.events == old(db.events) + s.emitted
  {
    if !person.usesCanMember {
      return Thrown(TraitCanMemberNotFound);
    }
    if collection !in memberable.collections {
      return Thrown(MemberCollectionNotAllowed);
    }
    var id := Identity(person.ref, memberable.ref, collection);
    if !Recorded(db.rows, id) {
      return Returned(NotFound);
    }
    db.rows := WithoutIdentity(db.rows, id);
    db.events := db.events + [Forgotten(person.ref, memberable.ref, collection)];
    return Returned(Deleted);
  }

  /** hasMember: whether the person actively holds the collection of this memberable. */
  function HasMember(rows: seq<Member>, memberable: Target, person: Person, collection: string,
                     now: int): (r: Outcome<bool>)
    requires OnMemberable(memberable)
    ensures !person.usesCanMember ==> r == Thrown(TraitCanMemberNotFound)
    ensures person.usesCanMember && collection !in memberable.collections ==>
              r == Thrown(MemberCollectionNotAllowed)
    ensures r == Returned(true) <==>
              && person.usesCanMember && collection in memberable.collections
              && exists x | x in rows :: x.Id() == Identity(person.ref, memberable.ref, collection) && Active(x, now)
    ensures r == Returned(false) <==>
              && person.usesCanMember && collection in memberable.collections
              && forall x | x in rows && x.Id() == Identity(person.ref, memberable.ref, collection) :: !Active(x, now)
  {
    if !person.usesCanMember then Thrown(TraitCanMemberNotFound)
    else if collection !in memberable.collections then Thrown(MemberCollectionNotAllowed)
    else Returned(HeldBy(rows, Identity(person.ref, memberable.ref, collection), now))
  }

  /** renewMember */
  method RenewMember(db: MemberTable, memberable: Target, person: Person, collection: string,
                     expiredAt: Option<int>, now: int) returns (r: Outcome<bool>)
    requires OnMemberable(memberable)
    modifies db
    ensures !person.usesCanMember ==>
              r == Thrown(TraitCanMemberNotFound) && db.rows == old(db.rows) && db.events == old(db.events)
    ensures person.usesCanMember ==>
              var s := Renew(old(db.rows), person.ref, memberable, collection, expiredAt, now);
              r == s.result && db.rows == s.rows && db.events == old(db.events) + s.emitted
  {
    if !person.usesCanMember {
      return Thrown(TraitCanMemberNotFound);
    }
    if expiredAt.Some? && expiredAt.value < now {
      return Thrown(MemberExpiredAtIsPast);
    }
    if collection !in memberable.collections {
      return Thrown(MemberCollectionNotAllowed);
    }
    var id := Identity(person.ref, memberable.ref, collection);
    if !Recorded(db.rows, id) {
      return Returned(false);
    }
    db.rows := SetFirstExpiry(db.rows, id, expiredAt);
    db.events := db.events + [Renewed(person.ref, memberable.ref, collection, expiredAt)];
    return Returned(true);
  }

  /** updateExpiredAtMember */
  method UpdateExpiredAtMember(db: MemberTable, memberable: Target, person: Person, collection: string,
                               expiredAt: Option<int>) returns (r: Outcome<bool>)
    requires OnMemberable(memberable)
    modifies db
    ensures !person.usesCanMember ==>
              r == Thrown(TraitCanMemberNotFound) && db.rows == old(db.rows) && db.events == old(db.events)
    ensures person.usesCanMember ==>
              var s := UpdateExpiredAt(old(db.rows), person.ref, memberable, collection, expiredAt);
              r == s.result && db.rows == s.rows && db.events == old(db.events) + s.emitted
  {
    if !person.usesCanMember {
      return Thrown(TraitCanMemberNotFound);
    }
    if collection !in memberable.collections {
      return Thrown(MemberCollectionNotAllowed);
    }
    var id := Identity(person.ref, memberable.ref, collection);
    if !Recorded(db.rows, id) {
      return Returned(false);
    }
    db.rows := SetFirstExpiry(db.rows, id, expiredAt);
    db.events := db.events + [ExpiredAtUpdated(person.ref, memberable.ref, collection, expiredAt)];
    return Returned(true);
  }

  /** getPerson, as written: this memberable's rows under the grouped where-closure. In the
      non-expired listing a row without expiry is returned whatever its collection. */
  function GetPerson(rows: seq<Member>, memberable: Target, collection: Option<string>,
                     isExpired: bool, now: int): (r: Outcome<seq<Member>>)
    requires OnMemberable(memberable)
    ensures r.Thrown? <==> Given(collection) && collection.value !in memberable.collections
    ensures r.Thrown? ==> r.failure == MemberCollectionNotAllowed
    ensures r.Returned? ==> forall m | m in r.value :: m in rows && m.memberable == memberable.ref
    ensures r.Returned? && isExpired ==>
              forall m :: m in r.value <==>
                m in rows && m.memberable == memberable.ref && MatchesFilter(m, None, collection)
                && IsExpired(m, now)
    ensures r.Returned? && !isExpired ==>
              && (forall m | m in rows && m.memberable == memberable.ref && MatchesFilter(m, None, collection)
                             && Active(m, now) :: m in r.value)
              && (forall m | m in r.value && m.expiredAt.Some? :: MatchesFilter(m, None, collection) && Active(m, now))
              && (forall m | m in rows && m.memberable == memberable.ref && m.expiredAt.None? :: m in r.value)
    ensures r.Returned? && isExpired ==>
              forall m :: multiset(r.value)[m] ==
                if m.memberable == memberable.ref && MatchesFilter(m, None, collection) && IsExpired(m, now)
                then multiset(rows)[m] else 0
    ensures r.Returned? && !isExpired ==>
              forall m :: multiset(r.value)[m] ==
                if m.memberable == memberable.ref
                   && ((MatchesFilter(m, None, collection) && Active(m, now)) || m.expiredAt.None?)
                then multiset(rows)[m] else 0
  {
    if Given(collection) && collection.value !in memberable.collections then Thrown(MemberCollectionNotAllowed)
    else
      Returned(Where(rows, (m: Member) =>
        m.memberable == memberable.ref && ListedAsWritten(m, None, collection, isExpired, now)))
  }

  /** getPerson as its filter evidently intends: exactly this memberable's rows in the collection,
      active or expired as asked. */
  function GetPersonIntended(rows: seq<Member>, memberable: Target, collection: Option<string>,
                             isExpired: bool, now: int): (r: Outcome<seq<Member>>)
    requires OnMemberable(memberable)
    ensures r.Thrown? <==> GetPerson(rows, memberable, collection, isExpired, now).Thrown?
    ensures r.Thrown? ==> r == GetPerson(rows, memberable, collection, isExpired, now)
    ensures r.Returned? ==>
              forall m :: m in r.value <==>
                && m in rows && m.memberable == memberable.ref && MatchesFilter(m, None, collection)
                && (if isExpired then IsExpired(m, now) else Active(m, now))
    ensures r.Returned? ==>
              forall m :: multiset(r.value)[m] ==
                if m.memberable == memberable.ref && MatchesFilter(m, None, collection)
                   && (if isExpired then IsExpired(m, now) else Active(m, now))
                then multiset(rows)[m] else 0
  {
    if Given(collection) && collection.value !in memberable.collections then Thrown(MemberCollectionNotAllowed)
    else
      Returned(Where(rows, (m: Member) =>
        m.memberable == memberable.ref && ListedIntended(m, None, collection, isExpired, now)))
  }

  /** Asking an order for its active 'owner' rows also lists a never-expiring 'members' row. */
  lemma GetPersonListsOtherCollections()
    ensures
      var order := Target(Ref("Order", 1), true, true, map["owner" := Single, "members" := Multiple]);
      var rows := [Member(Ref("User", 1), order.ref, "owner", None),
                   Member(Ref("User", 2), order.ref, "members", None)];
      var asWritten := GetPerson(rows, order, Some("owner"), false, 10);
      var intended := GetPersonIntended(rows, order, Some("owner"), false, 10);
      && asWritten.Returned? && intended.Returned?
      && rows[1] in asWritten.value && rows[1] !in intended.value && rows[0] in intended.value
  {
    assert Given(Some("owner"));
  }

  /** The two traits are mirror images: with both roles present, the person side and the
      memberable side answer `has` identically, and each side raises its own role error. */
  lemma HasIsMirrored(rows: seq<Member>, person: Person, memberable: Target, collection: string, now: int)
    requires OnMemberable(memberable)
    ensures person.usesCanMember ==>
              CanMemberTrait.HasPerson(rows, person, memberable, collection, now)
              == HasMember(rows, memberable, person, collection, now)
    ensures !person.usesCanMember ==>
              HasMember(rows, memberable, person, collection, now) == Thrown(TraitCanMemberNotFound)
  {
  }
}
