/** How an operation of the membership traits ends: with a thrown exception or a returned value. */
module Outcomes {

  datatype Option<+T> = None | Some(value: T)

  /** The exception classes the traits throw; only their kind matters, not their message. */
  datatype Failure =
    | TraitHasMemberNotFound        // the memberable argument does not use the HasMember trait
    | TraitCanMemberNotFound        // the person argument does not use the CanMember trait
    | ModelMemberContractNotFound   // a HasMember class does not implement MemberContract
    | MemberExpiredAtIsPast         // the supplied expiry lies before now
    | MemberCollectionNotAllowed    // the collection is not a key of allowMemberCollection()
    | MemberCollectionTypeNotMatch  // the declared mode is neither 'single' nor 'multiple'

  datatype Outcome<+T> = Thrown(failure: Failure) | Returned(value: T)

  /** The array returned by store and forget, reduced to its 'ok' and 'status' entries. */
  datatype Response = Response(ok: bool, status: int)

  const Created := Response(true, 201)
  const AlreadyMember := Response(false, 400)
  const NotFound := Response(false, 404)
  const Deleted := Response(true, 200)
}
