/** The `members` table row and the query scopes of the Member model. */
module MemberModel {
  import opened Outcomes

  /** A morph reference: the `*_type` and `*_id` column pair. */
  datatype Ref = Ref(kind: string, id: int)

  /** The identity tuple by which the traits and the sweep address records. */
  datatype Identity = Identity(person: Ref, memberable: Ref, collection: string)

  /** One row. The expiry is a point in time as an integer; None is SQL NULL (never expires). */
  datatype Member = Member(person: Ref, memberable: Ref, collection: string, expiredAt: Option<int>)
  {
    function Id(): Identity { Identity(person, memberable, collection) }
  }

  /** A `where` condition applied to a query: the rows that satisfy `keep`, in table order. */
  function Where(q: seq<Member>, keep: Member -> bool): (r: seq<Member>)
    ensures forall m :: multiset(r)[m] == if keep(m) then multiset(q)[m] else 0
    ensures forall m :: m in r <==> m in q && keep(m)
    ensures (forall m | m in q :: keep(m)) ==> r == q
    ensures |r| <= |q|
  {
    if q == [] then []
    else
      assert q == [q[0]] + q[1..];
      (if keep(q[0]) then [q[0]] else []) + Where(q[1..], keep)
  }

  /** A condition no row meets selects nothing. */
  lemma WhereNone(q: seq<Member>, keep: Member -> bool)
    requires forall m | m in q :: !keep(m)
    ensures Where(q, keep) == []
  {
    var r := Where(q, keep);
    assert multiset(r) == multiset{};
  }

  /** Expired scope: the expiry is set and strictly before now (NULL never compares). */
  predicate IsExpired(m: Member, now: int) {
    m.expiredAt.Some? && m.expiredAt.value < now
  }

  /** NotExpired scope: the expiry is set and not before now. */
  predicate IsNotExpired(m: Member, now: int) {
    m.expiredAt.Some? && m.expiredAt.value >= now
  }

  /** scopeOfCollection */
  function OfCollection(q: seq<Member>, collection: string): (r: seq<Member>)
    ensures forall m :: multiset(r)[m] == if m.collection == collection then multiset(q)[m] else 0
  {
    Where(q, (m: Member) => m.collection == collection)
  }

  /** scopeExpired */
  function Expired(q: seq<Member>, now: int): (r: seq<Member>)
    ensures forall m :: m in r <==> m in q && m.expiredAt.Some? && m.expiredAt.value < now
    ensures forall m :: multiset(r)[m] == if IsExpired(m, now) then multiset(q)[m] else 0
  {
    Where(q, (m: Member) => IsExpired(m, now))
  }

  /** scopeNotExpired */
  function NotExpired(q: seq<Member>, now: int): (r: seq<Member>)
    ensures forall m :: m in r <==> m in q && m.expiredAt.Some? && m.expiredAt.value >= now
    ensures forall m :: multiset(r)[m] == if IsNotExpired(m, now) then multiset(q)[m] else 0
  {
    Where(q, (m: Member) => IsNotExpired(m, now))
  }

  /** The two expiry scopes split the rows that carry an expiry: no row is in both,
      and together they hold every row with a non-NULL expiry, each as often as the table does. */
  lemma ExpiryScopesPartition(q: seq<Member>, now: int)
    ensures forall m :: !(m in Expired(q, now) && m in NotExpired(q, now))
    ensures multiset(Expired(q, now)) + multiset(NotExpired(q, now))
         == multiset(Where(q, (m: Member) => m.expiredAt.Some?))
  {
    var withExpiry := Where(q, (m: Member) => m.expiredAt.Some?);
    forall m
      ensures (multiset(Expired(q, now)) + multiset(NotExpired(q, now)))[m] == multiset(withExpiry)[m]
    {
    }
  }
}
