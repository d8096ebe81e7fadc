/** The stored form of a user and the conversions between it and the domain
    form (infrastructure/user_repository_mapper.go, infrastructure/infrastructure.go). */
module RepositoryMapper {
  import opened Domain

  /** A document identifier of the store; 0 is the zero identifier. */
  type ObjectId = nat

  const ZeroObjectId: ObjectId := 0

  /** A user document as stored in the users collection. */
  datatype MongoUser = MongoUser(
    id: ObjectId,
    reference: string,
    firstName: string,
    lastName: string,
    email: string,
    isActive: bool,
    createdDate: Time,
    updatedDate: Time)

  /** The zero document, returned by the lookups when nothing matches. */
  const ZeroMongoUser := MongoUser(ZeroObjectId, "", "", "", "", false, ZeroTime, ZeroTime)

  /** Copies the seven domain fields; the identifier stays at its zero value. */
  function MapDomainToRepository(user: User): (d: MongoUser)
    ensures d.id == ZeroObjectId
  {
    MongoUser(ZeroObjectId, user.reference, user.firstName, user.lastName, user.email,
              user.isActive, user.createdDate, user.updatedDate)
  }

  /** Copies the seven domain fields and drops the identifier. */
  function MapRepositoryToDomain(d: MongoUser): (user: User)
    ensures user.reference == d.reference && user.isActive == d.isActive
    ensures user.createdDate == d.createdDate && user.updatedDate == d.updatedDate
    ensures user.firstName == d.firstName && user.lastName == d.lastName && user.email == d.email
  {
    User(d.reference, d.isActive, d.createdDate, d.updatedDate, d.firstName, d.lastName, d.email)
  }

  /** Storing a domain user and reading it back gives the same user. */
  lemma DomainRoundTrip(user: User)
    ensures MapRepositoryToDomain(MapDomainToRepository(user)) == user
  {
  }

  /** Reading a document and storing it again loses only its identifier. */
  lemma RepositoryRoundTrip(d: MongoUser)
    ensures MapDomainToRepository(MapRepositoryToDomain(d)) == d.(id := ZeroObjectId)
  {
  }

  /** Two documents read as the same domain user exactly when they differ at
      most in their identifiers. */
  lemma SameDomainUser(d: MongoUser, e: MongoUser)
    ensures MapRepositoryToDomain(d) == MapRepositoryToDomain(e) <==> d.(id := e.id) == e
  {
    if MapRepositoryToDomain(d) == MapRepositoryToDomain(e) {
      RepositoryRoundTrip(d);
      RepositoryRoundTrip(e);
    }
  }

  /** The element-wise domain form of a list of documents, in order. */
  function DomainList(users: seq<MongoUser>): (r: seq<User>)
    ensures |r| == |users|
    ensures forall i :: 0 <= i < |users| ==> r[i] == MapRepositoryToDomain(users[i])
  {
    if users == [] then [] else [MapRepositoryToDomain(users[0])] + DomainList(users[1..])
  }

  /** A domain user is in the mapped list exactly when some document of the
      list maps to it. */
  lemma DomainListMembership(users: seq<MongoUser>, u: User)
    ensures u in DomainList(users) <==> exists d :: d in users && MapRepositoryToDomain(d) == u
  {
    var r := DomainList(users);
    if u in r {
      var i :| 0 <= i < |r| && r[i] == u;
      assert users[i] in users;
    }
  }

  /** The list conversion as the source writes it: one append per document. */
  method MapRepositoryListToDomainList(users: seq<MongoUser>) returns (mapped: seq<User>)
    ensures |mapped| == |users|
    ensures forall i :: 0 <= i < |users| ==> mapped[i] == MapRepositoryToDomain(users[i])
  {
    mapped := [];
    for k := 0 to |users|
      invariant |mapped| == k
      invariant forall i :: 0 <= i < k ==> mapped[i] == MapRepositoryToDomain(users[i])
    {
      mapped := mapped + [MapRepositoryToDomain(users[k])];
    }
  }

  /** The search result in domain form: the counts are echoed and the users
      are the mapped documents, in order. */
  function MapRepositorySearchActiveToOutput(users: seq<MongoUser>, total: int, page: int, size: int)
    : (out: UserSearchOutput)
    ensures out.total == total && out.page == page && out.pageSize == size
    ensures |out.users| == |users|
    ensures forall i :: 0 <= i < |users| ==> out.users[i] == MapRepositoryToDomain(users[i])
  {
    UserSearchOutput(total, page, size, DomainList(users))
  }
}
