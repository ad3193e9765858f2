/**
 * The expired-member sweep of the Membership service. It scans the rows whose expiry is before
 * now and, for each scanned row in turn, deletes every row that shares the scanned row's identity
 * tuple and announces the scanned row.
 */
module Membership {
  import opened Outcomes
  import opened MemberModel
  import opened Entities
  import opened Lifecycle

  /** What is left of `rows` after deleting, one scanned row at a time, by identity tuple. */
  function Survivors(rows: seq<Member>, scanned: seq<Member>): seq<Member>
    decreases |scanned|
  {
    if scanned == [] then rows
    else WithoutIdentity(Survivors(rows, scanned[..|scanned| - 1]), scanned[|scanned| - 1].Id())
  }

  /** Some scanned row has the identity tuple of `m`. */
  predicate SharesIdentity(m: Member, scanned: seq<Member>) {
    exists i | 0 <= i < |scanned| :: scanned[i].Id() == m.Id()
  }

  /** The events of a sweep: one per scanned row, in scan order, even when an earlier deletion
      already took the row away. */
  function Announce(scanned: seq<Member>): (r: seq<Event>)
    ensures |r| == |scanned|
    ensures forall i | 0 <= i < |scanned| :: r[i] == RemovedExpired(scanned[i])
  {
    seq(|scanned|, i requires 0 <= i < |scanned| => RemovedExpired(scanned[i]))
  }

  /** Deleting the tuple of one more scanned row. */
  lemma SurvivorsStep(rows: seq<Member>, scanned: seq<Member>, i: nat)
    requires i < |scanned|
    ensures Survivors(rows, scanned[..i + 1]) == WithoutIdentity(Survivors(rows, scanned[..i]), scanned[i].Id())
  {
    assert scanned[..i + 1][..i] == scanned[..i];
  }

  /** Announcing one more scanned row. */
  lemma AnnounceStep(events: seq<Event>, scanned: seq<Member>, i: nat)
    requires i < |scanned|
    ensures events + Announce(scanned[..i + 1]) == events + Announce(scanned[..i]) + [RemovedExpired(scanned[i])]
  {
    var longer := events + Announce(scanned[..i + 1]);
    var shorter := events + Announce(scanned[..i]) + [RemovedExpired(scanned[i])];
    assert |longer| == |shorter|;
    forall k | 0 <= k < |longer|
      ensures longer[k] == shorter[k]
    {
      if k >= |events| {
        assert longer[k] == RemovedExpired(scanned[k - |events|]);
      }
    }
  }

  /** The callback run for one scanned row: the delete by identity tuple, then the event. */
  method DeleteTuple(db: MemberTable, scanned: Member)
    modifies db
    ensures db.rows == WithoutIdentity(old(db.rows), scanned.Id())
    ensures db.events == old(db.events) + [RemovedExpired(scanned)]
  {
    db.rows := WithoutIdentity(db.rows, scanned.Id());
    db.events := db.events + [RemovedExpired(scanned)];
  }

  /** The `each` over the scanned rows: delete every row with the scanned row's identity tuple,
      then announce the scanned row. */
  method DeleteScanned(db: MemberTable, scanned: seq<Member>)
    modifies db
    ensures db.rows == Survivors(old(db.rows), scanned)
    ensures db.events == old(db.events) + Announce(scanned)
  {
    ghost var rows0 := db.rows;
    ghost var events0 := db.events;
    var i := 0;
    while i < |scanned|
      invariant 0 <= i <= |scanned|
      invariant db.rows == Survivors(rows0, scanned[..i])
      invariant db.events == events0 + Announce(scanned[..i])
    {
      SurvivorsStep(rows0, scanned, i);
      AnnounceStep(events0, scanned, i);
      DeleteTuple(db, scanned[i]);
      i := i + 1;
    }
    assert scanned[..i] == scanned;
  }

  /** removeExpiredMember: false and nothing changes when no row is expired; otherwise the
      identity-tuple deletes and one event per scanned row, and true. */
  method RemoveExpiredMember(db: MemberTable, now: int) returns (removed: bool)
    modifies db
    ensures removed <==> Expired(old(db.rows), now) != []
    ensures db.rows == Survivors(old(db.rows), Expired(old(db.rows), now))
    ensures db.events == old(db.events) + Announce(Expired(old(db.rows), now))
  {
    var scanned := Expired(db.rows, now);
    if |scanned| == 0 {
      return false;
    }
    DeleteScanned(db, scanned);
    return true;
  }

  /** Sharing a tuple with a longer scan. */
  lemma SharesSnoc(m: Member, scanned: seq<Member>, s: Member)
    ensures SharesIdentity(m, scanned + [s]) <==> SharesIdentity(m, scanned) || s.Id() == m.Id()
  {
    var longer := scanned + [s];
    forall i | 0 <= i < |scanned|
      ensures longer[i] == scanned[i]
    {
    }
    assert longer[|scanned|] == s;
  }

  /** A row survives the deletes exactly when no scanned row has its identity tuple; a survivor
      keeps every copy it had. */
  lemma {:induction false} SurvivorsExactly(rows: seq<Member>, scanned: seq<Member>)
    ensures forall m :: multiset(Survivors(rows, scanned))[m] ==
                          if SharesIdentity(m, scanned) then 0 else multiset(rows)[m]
    decreases |scanned|
  {
    if scanned != [] {
      var n := |scanned| - 1;
      var front := scanned[..n];
      var s := scanned[n];
      assert scanned == front + [s];
      SurvivorsExactly(rows, front);
      forall m
        ensures multiset(Survivors(rows, scanned))[m] ==
                  if SharesIdentity(m, scanned) then 0 else multiset(rows)[m]
      {
        SharesSnoc(m, front, s);
      }
    }
  }

  /** Membership form of the survivor characterisation. */
  lemma SurvivorsMembers(rows: seq<Member>, scanned: seq<Member>)
    ensures forall m :: m in Survivors(rows, scanned) <==> m in rows && !SharesIdentity(m, scanned)
  {
    SurvivorsExactly(rows, scanned);
  }

  /** Every expired row is scanned, so it shares its own tuple with the scan. */
  lemma ExpiredIsScanned(rows: seq<Member>, now: int, m: Member)
    requires m in rows && IsExpired(m, now)
    ensures SharesIdentity(m, Expired(rows, now))
  {
    var scanned := Expired(rows, now);
    var j :| 0 <= j < |scanned| && scanned[j] == m;
  }

  /** After the sweep no expired row remains. */
  lemma SweepLeavesNoExpired(rows: seq<Member>, now: int)
    ensures Expired(Survivors(rows, Expired(rows, now)), now) == []
  {
    var scanned := Expired(rows, now);
    SurvivorsMembers(rows, scanned);
    forall m | m in rows && IsExpired(m, now)
      ensures SharesIdentity(m, scanned)
    {
      ExpiredIsScanned(rows, now, m);
    }
    WhereNone(Survivors(rows, scanned), (m: Member) => IsExpired(m, now));
  }

  /** A second sweep finds nothing: it reports false and leaves the rows and the events alone. */
  lemma SweepIdempotent(rows: seq<Member>, now: int)
    ensures var after := Survivors(rows, Expired(rows, now));
            && Expired(after, now) == []
            && Survivors(after, Expired(after, now)) == after
            && Announce(Expired(after, now)) == []
  {
    SweepLeavesNoExpired(rows, now);
  }

  /** A row whose identity tuple no expired row shares is untouched by the sweep, copies included. */
  lemma SweepKeepsUnrelated(rows: seq<Member>, now: int, m: Member)
    requires forall x | x in rows && x.Id() == m.Id() :: !IsExpired(x, now)
    ensures multiset(Survivors(rows, Expired(rows, now)))[m] == multiset(rows)[m]
  {
    var scanned := Expired(rows, now);
    SurvivorsExactly(rows, scanned);
    forall i | 0 <= i < |scanned|
      ensures scanned[i].Id() != m.Id()
    {
      assert scanned[i] in scanned;
    }
  }

  /** The sweep keeps every memberable's table exclusive: it only deletes. */
  lemma {:induction false} SurvivorsPreserveExclusive(rows: seq<Member>, scanned: seq<Member>,
                                                      t: Target, now: int)
    requires Exclusive(rows, t, now)
    ensures Exclusive(Survivors(rows, scanned), t, now)
    decreases |scanned|
  {
    if scanned != [] {
      var n := |scanned| - 1;
      SurvivorsPreserveExclusive(rows, scanned[..n], t, now);
      var id := scanned[n].Id();
      ExclusiveWhere(Survivors(rows, scanned[..n]), (m: Member) => m.Id() != id, t, now);
    }
  }

  /** A person whose 'members' row lapsed at 5 is admitted again at 6 until 100; the sweep at 10
      scans the lapsed row and its identity-tuple delete also removes the active one. */
  lemma SweepRemovesReadmitted()
    ensures
      var a := Ref("User", 1);
      var team := Target(Ref("Team", 3), true, true, map["members" := Multiple]);
      var first := Store([], a, team, "members", Some(5), 0);
      var second := Store(first.rows, a, team, "members", Some(100), 6);
      var after := Survivors(second.rows, Expired(second.rows, 10));
      && second.result == Returned(Created)
      && |second.rows| == 2 && Active(second.rows[1], 10)
      && second.rows[1] !in after
  {
    var a := Ref("User", 1);
    var team := Target(Ref("Team", 3), true, true, map["members" := Multiple]);
    var first := Store([], a, team, "members", Some(5), 0);
    assert first.rows == [Member(a, team.ref, "members", Some(5))];
    var second := Store(first.rows, a, team, "members", Some(100), 6);
    assert !HeldBy(first.rows, Identity(a, team.ref, "members"), 6);
    var scanned := Expired(second.rows, 10);
    assert second.rows[0] in scanned;
    var j :| 0 <= j < |scanned| && scanned[j] == second.rows[0];
    assert SharesIdentity(second.rows[1], scanned);
    SurvivorsExactly(second.rows, scanned);
  }

  /** The sweep as its doc comment describes it: exactly the expired rows are deleted. */
  function SweepByRow(rows: seq<Member>, now: int): (r: seq<Member>)
    ensures forall m :: multiset(r)[m] == if IsExpired(m, now) then 0 else multiset(rows)[m]
    ensures forall m | m in rows && Active(m, now) :: m in r
    ensures Expired(r, now) == []
  {
    var r := Where(rows, (m: Member) => !IsExpired(m, now));
    WhereNone(r, (m: Member) => IsExpired(m, now));
    r
  }

  /** Under unique tuples, sharing a tuple with the scan means being expired. */
  lemma SharedIsExpired(rows: seq<Member>, now: int, m: Member)
    requires forall i, j | 0 <= i < |rows| && 0 <= j < |rows| && i != j && IsExpired(rows[i], now) ::
               rows[j].Id() != rows[i].Id()
    requires m in rows && SharesIdentity(m, Expired(rows, now))
    ensures IsExpired(m, now)
  {
    var scanned := Expired(rows, now);
    var j :| 0 <= j < |scanned| && scanned[j].Id() == m.Id();
    assert scanned[j] in scanned;
    var i :| 0 <= i < |rows| && rows[i] == scanned[j];
    var k :| 0 <= k < |rows| && rows[k] == m;
  }

  /** Where no row shares its identity tuple with an expired row, the sweep as written is the
      by-row sweep. */
  lemma SweepAgreesWhenTuplesUnique(rows: seq<Member>, now: int)
    requires forall i, j | 0 <= i < |rows| && 0 <= j < |rows| && i != j && IsExpired(rows[i], now) ::
               rows[j].Id() != rows[i].Id()
    ensures multiset(Survivors(rows, Expired(rows, now))) == multiset(SweepByRow(rows, now))
  {
    var scanned := Expired(rows, now);
    var asWritten := Survivors(rows, scanned);
    var byRow := SweepByRow(rows, now);
    SurvivorsExactly(rows, scanned);
    forall m
      ensures multiset(asWritten)[m] == multiset(byRow)[m]
    {
      if m in rows {
        if IsExpired(m, now) {
          ExpiredIsScanned(rows, now, m);
        }
        if SharesIdentity(m, scanned) {
          SharedIsExpired(rows, now, m);
        }
      }
    }
  }
}
