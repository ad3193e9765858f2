/** The two kinds of models a membership joins, with the trait-presence checks reduced to role flags. */
module Entities {
  import opened Outcomes
  import opened MemberModel

  /** A person-side model; `usesCanMember` is whether its class uses the CanMember trait. */
  datatype Person = Person(ref: Ref, usesCanMember: bool)

  /** A memberable (target-side) model: whether its class uses HasMember and implements
      MemberContract, and what its allowMemberCollection() returns (collection to mode). */
  datatype Target = Target(ref: Ref, usesHasMember: bool, implementsContract: bool,
                           collections: map<string, string>)

  /** bootHasMember: runs when a HasMember class boots and refuses a class without MemberContract,
      so every instance of a HasMember class can answer allowMemberCollection(). */
  function BootHasMember(t: Target): (r: Outcome<()>)
    ensures r.Thrown? <==> t.usesHasMember && !t.implementsContract
    ensures r.Thrown? ==> r.failure == ModelMemberContractNotFound
  {
    if t.usesHasMember && !t.implementsContract then Thrown(ModelMemberContractNotFound)
    else Returned(())
  }

  /** A model instance exists only if its class booted. */
  predicate Instantiable(t: Target) {
    BootHasMember(t).Returned?
  }
}
