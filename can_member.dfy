/**
 * The CanMember trait: the person-side front end. Each operation first checks that the memberable
 * argument uses HasMember, then behaves as the shared lifecycle step for the identity
 * (this person, memberable, collection).
 */
module CanMemberTrait {
  import opened Outcomes
  import opened MemberModel
  import opened Entities
  import opened Lifecycle

  /** storePerson */
  method StorePerson(db: MemberTable, person: Person, memberable: Target, collection: string,
                     expiredAt: Option<int>, now: int) returns (r: Outcome<Response>)
    requires person.usesCanMember && Instantiable(memberable)
    modifies db
    ensures !memberable.usesHasMember ==>
              r == Thrown(TraitHasMemberNotFound) && db.rows == old(db.rows) && db.events == old(db.events)
    ensures memberable.usesHasMember ==>
              var s := Store(old(db.rows), person.ref, memberable, collection, expiredAt, now);
              r == s.result && db.rows == s.rows && db.events == old(db.events) + s.emitted
  {
    if !memberable.usesHasMember {
      return Thrown(TraitHasMemberNotFound);
    }
    if expiredAt.Some? && expiredAt.value < now {
      return Thrown(MemberExpiredAtIsPast);
    }
    var allowed := memberable.collections;
    if collection !in allowed {
      return Thrown(MemberCollectionNotAllowed);
    }
    if allowed[collection] == Single {
      if HeldInCollection(db.rows, memberable.ref, collection, now) {
        return Returned(AlreadyMember);
      }
    } else if allowed[collection] == Multiple {
      if HeldBy(db.rows, Identity(person.ref, memberable.ref, collection), now) {
        return Returned(AlreadyMember);
      }
    } else {
      return Thrown(MemberCollectionTypeNotMatch);
    }
    db.rows := db.rows + [Member(person.ref, memberable.ref, collection, expiredAt)];
    db.events := db.events + [Stored(person.ref, memberable.ref, collection)];
    return Returned(Created);
  }

  /** forgetPerson */
  method ForgetPerson(db: MemberTable, person: Person, memberable: Target, collection: string)
    returns (r: Outcome<Response>)
    requires person.usesCanMember && Instantiable(memberable)
    modifies db
    ensures !memberable.usesHasMember ==>
              r == Thrown(TraitHasMemberNotFound) && db.rows == old(db.rows) && db.events == old(db.events)
    ensures memberable.usesHasMember ==>
              var s := Forget(old(db.rows), person.ref, memberable, collection);
              r == s.result && db.rows == s.rows && db.events == old(db.events) + s.emitted
  {
    if !memberable.usesHasMember {
      return Thrown(TraitHasMemberNotFound);
    }
    if collection !in memberable.collections {
      return Thrown(MemberCollectionNotAllowed);
    }
    var id := Identity(person.ref, memberable.ref, collection);
    if !Recorded(db.rows, id) {
      return Returned(NotFound);
    }
    db.rows := WithoutIdentity(db.rows, id);
    db.events := db.events + [Forgotten(person.ref, memberable.ref, collection)];
    return Returned(Deleted);
  }

  /** hasPerson: whether this person actively holds the collection of the memberable. */
  function HasPerson(rows: seq<Member>, person: Person, memberable: Target, collection: string,
                     now: int): (r: Outcome<bool>)
    requires person.usesCanMember && Instantiable(memberable)
    ensures !memberable.usesHasMember ==> r == Thrown(TraitHasMemberNotFound)
    ensures memberable.usesHasMember && collection !in memberable.collections ==>
              r == Thrown(MemberCollectionNotAllowed)
    ensures r == Returned(true) <==>
              && memberable.usesHasMember && collection in memberable.collections
              && exists x | x in rows :: x.Id() == Identity(person.ref, memberable.ref, collection) && Active(x, now)
    ensures r == Returned(false) <==>
              && memberable.usesHasMember && collection in memberable.collections
              && forall x | x in rows && x.Id() == Identity(person.ref, memberable.ref, collection) :: !Active(x, now)
  {
    if !memberable.usesHasMember then Thrown(TraitHasMemberNotFound)
    else if collection !in memberable.collections then Thrown(MemberCollectionNotAllowed)
    else Returned(HeldBy(rows, Identity(person.ref, memberable.ref, collection), now))
  }

  /** renewPerson */
  method RenewPerson(db: MemberTable, person: Person, memberable: Target, collection: string,
                     expiredAt: Option<int>, now: int) returns (r: Outcome<bool>)
    requires person.usesCanMember && Instantiable(memberable)
    modifies db
    ensures !memberable.usesHasMember ==>
              r == Thrown(TraitHasMemberNotFound) && db.rows == old(db.rows) && db.events == old(db.events)
    ensures memberable.usesHasMember ==>
              var s := Renew(old(db.rows), person.ref, memberable, collection, expiredAt, now);
              r == s.result && db.rows == s.rows && db.events == old(db.events) + s.emitted
  {
    if !memberable.usesHasMember {
      return Thrown(TraitHasMemberNotFound);
    }
    if expiredAt.Some? && expiredAt.value < now {
      return Thrown(MemberExpiredAtIsPast);
    }
    if collection !in memberable.collections {
      return Thrown(MemberCollectionNotAllowed);
    }
    var id := Identity(person.ref, memberable.ref, collection);
    if !Recorded(db.rows, id) {
      return Returned(false);
    }
    db.rows := SetFirstExpiry(db.rows, id, expiredAt);
    db.events := db.events + [Renewed(person.ref, memberable.ref, collection, expiredAt)];
    return Returned(true);
  }

  /** updateExpiredAtPerson */
  method UpdateExpiredAtPerson(db: MemberTable, person: Person, memberable: Target, collection: string,
                               expiredAt: Option<int>) returns (r: Outcome<bool>)
    requires person.usesCanMember && Instantiable(memberable)
    modifies db
    ensures !memberable.usesHasMember ==>
              r == Thrown(TraitHasMemberNotFound) && db.rows == old(db.rows) && db.events == old(db.events)
    ensures memberable.usesHasMember ==>
              var s := UpdateExpiredAt(old(db.rows), person.ref, memberable, collection, expiredAt);
              r == s.result && db.rows == s.rows && db.events == old(db.events) + s.emitted
  {
    if !memberable.usesHasMember {
      return Thrown(TraitHasMemberNotFound);
    }
    if collection !in memberable.collections {
      return Thrown(MemberCollectionNotAllowed);
    }
    var id := Identity(person.ref, memberable.ref, collection);
    if !Recorded(db.rows, id) {
      return Returned(false);
    }
    db.rows := SetFirstExpiry(db.rows, id, expiredAt);
    db.events := db.events + [ExpiredAtUpdated(person.ref, memberable.ref, collection, expiredAt)];
    return Returned(true);
  }

  function RefOf(memberable: Option<Target>): Option<Ref> {
    if memberable.Some? then Some(memberable.value.ref) else None
  }

  /** getMember, as written: this person's rows under the grouped where-closure. In the non-expired
      listing a row without expiry is returned whatever its memberable and collection. */
  function GetMember(rows: seq<Member>, person: Person, memberable: Option<Target>,
                     collection: Option<string>, isExpired: bool, now: int): (r: Outcome<seq<Member>>)
    requires person.usesCanMember && (memberable.Some? ==> Instantiable(memberable.value))
    ensures r == Thrown(TraitHasMemberNotFound) <==> memberable.Some? && !memberable.value.usesHasMember
    ensures r == Thrown(MemberCollectionNotAllowed) <==>
              && memberable.Some? && memberable.value.usesHasMember
              && Given(collection) && collection.value !in memberable.value.collections
    ensures r.Thrown? <==>
              memberable.Some?
              && (!memberable.value.usesHasMember
                  || (Given(collection) && collection.value !in memberable.value.collections))
    ensures r.Returned? ==> forall m | m in r.value :: m in rows && m.person == person.ref
    ensures r.Returned? && isExpired ==>
              forall m :: m in r.value <==>
                m in rows && m.person == person.ref && MatchesFilter(m, RefOf(memberable), collection)
                && IsExpired(m, now)
    ensures r.Returned? && !isExpired ==>
              && (forall m | m in rows && m.person == person.ref && MatchesFilter(m, RefOf(memberable), collection)
                             && Active(m, now) :: m in r.value)
              && (forall m | m in r.value && m.expiredAt.Some? ::
                    MatchesFilter(m, RefOf(memberable), collection) && Active(m, now))
              && (forall m | m in rows && m.person == person.ref && m.expiredAt.None? :: m in r.value)
    ensures r.Returned? && isExpired ==>
              forall m :: multiset(r.value)[m] ==
                if m.person == person.ref && MatchesFilter(m, RefOf(memberable), collection) && IsExpired(m, now)
                then multiset(rows)[m] else 0
    ensures r.Returned? && !isExpired ==>
              forall m :: multiset(r.value)[m] ==
                if m.person == person.ref
                   && ((MatchesFilter(m, RefOf(memberable), collection) && Active(m, now)) || m.expiredAt.None?)
                then multiset(rows)[m] else 0
  {
    if memberable.Some? && !memberable.value.usesHasMember then Thrown(TraitHasMemberNotFound)
    else if memberable.Some? && Given(collection) && collection.value !in memberable.value.collections then
      Thrown(MemberCollectionNotAllowed)
    else
      Returned(Where(rows, (m: Member) =>
        m.person == person.ref && ListedAsWritten(m, RefOf(memberable), collection, isExpired, now)))
  }

  /** getMember as its filters evidently intend: exactly this person's matching rows,
      active or expired as asked. */
  function GetMemberIntended(rows: seq<Member>, person: Person, memberable: Option<Target>,
                             collection: Option<string>, isExpired: bool, now: int): (r: Outcome<seq<Member>>)
    requires person.usesCanMember && (memberable.Some? ==> Instantiable(memberable.value))
    ensures r.Thrown? <==> GetMember(rows, person, memberable, collection, isExpired, now).Thrown?
    ensures r.Thrown? ==> r == GetMember(rows, person, memberable, collection, isExpired, now)
    ensures r.Returned? ==>
              forall m :: m in r.value <==>
                && m in rows && m.person == person.ref && MatchesFilter(m, RefOf(memberable), collection)
                && (if isExpired then IsExpired(m, now) else Active(m, now))
    ensures r.Returned? ==>
              forall m :: multiset(r.value)[m] ==
                if m.person == person.ref && MatchesFilter(m, RefOf(memberable), collection)
                   && (if isExpired then IsExpired(m, now) else Active(m, now))
                then multiset(rows)[m] else 0
  {
    if memberable.Some? && !memberable.value.usesHasMember then Thrown(TraitHasMemberNotFound)
    else if memberable.Some? && Given(collection) && collection.value !in memberable.value.collections then
      Thrown(MemberCollectionNotAllowed)
    else
      Returned(Where(rows, (m: Member) =>
        m.person == person.ref && ListedIntended(m, RefOf(memberable), collection, isExpired, now)))
  }

  /** Asking for this person's active 'owner' membership of one order also lists a never-expiring
      membership of another order in another collection. */
  lemma GetMemberListsUnrelatedRows()
    ensures
      var user := Person(Ref("User", 1), true);
      var order1 := Target(Ref("Order", 1), true, true, map["owner" := Single, "members" := Multiple]);
      var order2 := Target(Ref("Order", 2), true, true, map["owner" := Single, "members" := Multiple]);
      var rows := [Member(user.ref, order1.ref, "owner", None), Member(user.ref, order2.ref, "members", None)];
      var asWritten := GetMember(rows, user, Some(order1), Some("owner"), false, 10);
      var intended := GetMemberIntended(rows, user, Some(order1), Some("owner"), false, 10);
      && asWritten.Returned? && intended.Returned?
      && rows[1] in asWritten.value && rows[1] !in intended.value && rows[0] in intended.value
  {
    var user := Person(Ref("User", 1), true);
    var order1 := Target(Ref("Order", 1), true, true, map["owner" := Single, "members" := Multiple]);
    var order2 := Target(Ref("Order", 2), true, true, map["owner" := Single, "members" := Multiple]);
    var rows := [Member(user.ref, order1.ref, "owner", None), Member(user.ref, order2.ref, "members", None)];
    assert Given(Some("owner"));
    assert rows[0] in rows && rows[1] in rows;
    assert MatchesFilter(rows[0], Some(order1.ref), Some("owner")) && Active(rows[0], 10);
    assert !MatchesFilter(rows[1], Some(order1.ref), Some("owner"));
    var asWritten := GetMember(rows, user, Some(order1), Some("owner"), false, 10);
    var intended := GetMemberIntended(rows, user, Some(order1), Some("owner"), false, 10);
    assert asWritten.Returned? && intended.Returned?;
  }
}
