/** The use cases of the user service (the files under user/). Each one is a single
    Execute step over the repository; every store failure becomes a fatal
    business error with a fixed message, and a missing user a not-found one.
    The generated reference and the clock reading are parameters. */
module UseCases {
  import opened Wrappers
  import opened Domain
  import opened Errors
  import opened RepositoryMapper
  import opened Repository

  const CreateFailedMessage := "unexpected error when create the user"
  const FindAllFailedMessage := "unexpected error when find all users"
  const SearchFailedMessage := "unexpected error when try to search users"
  const UpdateFailedMessage := "unexpected error when update the user"
  const DeleteFailedMessage := "unexpected error when delete the user"
  const UserNotFoundMessage := "user not found"

  function LookupFailedMessage(reference: string): string
  {
    "unexpected error when try to get user with reference " + reference
  }

  /** The user as Update writes it back: the input's profile, active again
      and updated now; reference and creation date are the stored ones. */
  function Edited(current: User, input: UserUpdateInput, now: Time): User
  {
    current.(firstName := input.firstName, lastName := input.lastName, email := input.email,
             isActive := true, updatedDate := now)
  }

  /** The user as Delete writes it back: inactive and updated now. */
  function SoftDeleted(current: User, now: Time): User
  {
    current.(isActive := false, updatedDate := now)
  }

  /** All active users, passed through from the repository unchanged. */
  function FindAll(repository: UserRepository, findFails: bool): (r: Reply<seq<User>, BusinessError>)
    reads repository
    ensures findFails ==> r == Reply([], Some(NewFatalError(FindAllFailedMessage)))
    ensures !findFails ==> r == Reply(repository.FindAllActive(false).value, None)
    ensures !findFails ==>
      forall d :: d in repository.documents ==> (MapRepositoryToDomain(d) in r.value <==> d.isActive)
  {
    var users := repository.FindAllActive(findFails);
    if users.err.Some? then Reply([], Some(NewFatalError(FindAllFailedMessage)))
    else Reply(users.value, None)
  }

  /** The active user with the reference. A store failure is fatal even
      though the lookup also yields the zero user; an empty result is not-found. */
  function FindByReference(repository: UserRepository, reference: string, findFails: bool)
    : (r: Reply<User, BusinessError>)
    reads repository
    ensures findFails ==> r == Reply(ZeroUser, Some(NewFatalError(LookupFailedMessage(reference))))
    ensures !findFails && !(reference != "" && Stored(repository.documents, reference, true)) ==>
      r == Reply(ZeroUser, Some(NewNotFoundError(UserNotFoundMessage)))
    ensures r.Ok() <==> !findFails && reference != "" && Stored(repository.documents, reference, true)
    ensures r.Ok() ==>
      && r.value.isActive && r.value.reference == reference
      && r.value == MapRepositoryToDomain(repository.documents[IndexOf(repository.documents, reference, true)])
  {
    var user := repository.FindActiveByReference(reference, findFails);
    if user.err.Some? then Reply(ZeroUser, Some(NewFatalError(LookupFailedMessage(reference))))
    else if |user.value.reference| == 0 then Reply(ZeroUser, Some(NewNotFoundError(UserNotFoundMessage)))
    else Reply(user.value, None)
  }

  /** The repository's search result, unchanged; an empty page is not an error. */
  function Search(repository: UserRepository, input: UserSearchInput, findFails: bool)
    : (r: Reply<UserSearchOutput, BusinessError>)
    reads repository
    requires input.page >= 1 && input.pageSize >= 0
    ensures findFails ==> r == Reply(ZeroSearchOutput, Some(NewFatalError(SearchFailedMessage)))
    ensures !findFails ==> r == Reply(repository.SearchActive(input, false).value, None)
  {
    var output := repository.SearchActive(input, findFails);
    if output.err.Some? then Reply(ZeroSearchOutput, Some(NewFatalError(SearchFailedMessage)))
    else Reply(output.value, None)
  }

  /** Creates an active user under a fresh reference, created and updated now. */
  method Create(repository: UserRepository, input: UserCreateInput, reference: string, now: Time,
                insertFails: bool)
    returns (r: Reply<User, BusinessError>)
    requires repository.Valid()
    requires reference != "" && reference !in References(repository.documents)
    requires NotAfter(repository.documents, now)
    modifies repository
    ensures repository.nextObjectId == old(repository.nextObjectId) + 1
    ensures repository.Valid() && NotAfter(repository.documents, now)
    ensures Retains(old(repository.documents), repository.documents)
    ensures old(Lifecycle(repository.documents)) ==> Lifecycle(repository.documents)
    ensures insertFails ==>
      && r == Reply(ZeroUser, Some(NewFatalError(CreateFailedMessage)))
      && repository.documents == old(repository.documents)
    ensures !insertFails ==>
      && r.err.None?
      && r.value == User(reference, true, now, now, input.firstName, input.lastName, input.email)
      && repository.documents
         == old(repository.documents) + [MapDomainToRepository(r.value).(id := old(repository.nextObjectId))]
  {
    ghost var before := repository.documents;
    var user := User(reference, true, now, now, input.firstName, input.lastName, input.email);
    var created := repository.Create(user, insertFails);
    if created.err.Some? {
      return Reply(ZeroUser, Some(NewFatalError(CreateFailedMessage)));
    }
    var stored := MapDomainToRepository(user).(id := old(repository.nextObjectId));
    assert repository.documents == before + [stored];
    if Lifecycle(before) {
      InsertFreshKeepsLifecycle(before, stored);
    }
    return Reply(created.value, None);
  }

  /** Overwrites the profile of the user with the reference, active or not,
      makes it active again and persists it through the repository's Update. */
  method Update(repository: UserRepository, input: UserUpdateInput, now: Time,
                findFails: bool, refindFails: bool, replaceFails: bool)
    returns (r: Reply<User, BusinessError>)
    requires repository.Valid()
    requires NotAfter(repository.documents, now)
    modifies repository
    ensures repository.nextObjectId == old(repository.nextObjectId)
    ensures repository.Valid() && NotAfter(repository.documents, now)
    ensures Retains(old(repository.documents), repository.documents)
    ensures old(Lifecycle(repository.documents)) ==> Lifecycle(repository.documents)
    ensures r.err.Some? ==> r.value == ZeroUser && repository.documents == old(repository.documents)
    ensures findFails ==> r.err == Some(NewFatalError(LookupFailedMessage(input.reference)))
    ensures !findFails && !(input.reference != "" && Stored(old(repository.documents), input.reference, false)) ==>
      r.err == Some(NewNotFoundError(UserNotFoundMessage))
    ensures !findFails && input.reference != "" && Stored(old(repository.documents), input.reference, false) ==>
      var before := old(repository.documents);
      var k := IndexOf(before, input.reference, false);
      var edited := Edited(MapRepositoryToDomain(before[k]), input, now);
      var replacement := MapDomainToRepository(edited).(id := before[k].id);
      if refindFails || replaceFails || replacement == before[k] then
        r.err == Some(NewFatalError(UpdateFailedMessage))
      else
        r == Reply(edited, None) && repository.documents == before[k := replacement]
  {
    ghost var before := repository.documents;
    var current := repository.FindByReference(input.reference, findFails);
    if current.err.Some? {
      return Reply(ZeroUser, Some(NewFatalError(LookupFailedMessage(input.reference))));
    }
    if |current.value.reference| == 0 {
      return Reply(ZeroUser, Some(NewNotFoundError(UserNotFoundMessage)));
    }
    ghost var k := IndexOf(before, input.reference, false);
    assert current.value == MapRepositoryToDomain(before[k]);
    var edited := Edited(current.value, input, now);
    var updated := repository.Update(edited, refindFails, replaceFails);
    if updated.err.Some? {
      return Reply(ZeroUser, Some(NewFatalError(UpdateFailedMessage)));
    }
    SameKeyReplace(before, k, MapDomainToRepository(edited).(id := before[k].id), now);
    if Lifecycle(before) {
      ReplaceKeepsLifecycle(before, k, MapDomainToRepository(edited).(id := before[k].id));
    }
    return Reply(updated.value, None);
  }

  /** Marks the active user with the reference as deleted and persists it
      through the repository's Update (not its Delete). */
  method Delete(repository: UserRepository, reference: string, now: Time,
                findFails: bool, refindFails: bool, replaceFails: bool)
    returns (r: Reply<User, BusinessError>)
    requires repository.Valid()
    requires NotAfter(repository.documents, now)
    modifies repository
    ensures repository.nextObjectId == old(repository.nextObjectId)
    ensures repository.Valid() && NotAfter(repository.documents, now)
    ensures Retains(old(repository.documents), repository.documents)
    ensures old(Lifecycle(repository.documents)) ==> Lifecycle(repository.documents)
    ensures r.err.Some? ==> r.value == ZeroUser && repository.documents == old(repository.documents)
    ensures findFails ==> r.err == Some(NewFatalError(LookupFailedMessage(reference)))
    ensures !findFails && !(reference != "" && Stored(old(repository.documents), reference, true)) ==>
      r.err == Some(NewNotFoundError(UserNotFoundMessage))
    ensures !findFails && reference != "" && Stored(old(repository.documents), reference, true) ==>
      var before := old(repository.documents);
      var k := IndexOf(before, reference, true);
      var j := IndexOf(before, reference, false);
      var deleted := SoftDeleted(MapRepositoryToDomain(before[k]), now);
      var replacement := MapDomainToRepository(deleted).(id := before[j].id);
      if refindFails || replaceFails || replacement == before[j] then
        r.err == Some(NewFatalError(DeleteFailedMessage))
      else
        r == Reply(deleted, None) && repository.documents == before[j := replacement]
  {
    ghost var before := repository.documents;
    var current := repository.FindActiveByReference(reference, findFails);
    if current.err.Some? {
      return Reply(ZeroUser, Some(NewFatalError(LookupFailedMessage(reference))));
    }
    if |current.value.reference| == 0 {
      return Reply(ZeroUser, Some(NewNotFoundError(UserNotFoundMessage)));
    }
    ghost var k := IndexOf(before, reference, true);
    assert current.value == MapRepositoryToDomain(before[k]);
    var deleted := SoftDeleted(current.value, now);
    var updated := repository.Update(deleted, refindFails, replaceFails);
    if updated.err.Some? {
      return Reply(ZeroUser, Some(NewFatalError(DeleteFailedMessage)));
    }
    ghost var j := IndexOf(before, reference, false);
    SameKeyReplace(before, j, MapDomainToRepository(deleted).(id := before[j].id), now);
    if Lifecycle(before) {
      SameIndexWhenUnique(before, reference);
      ReplaceKeepsLifecycle(before, k, MapDomainToRepository(deleted).(id := before[k].id));
    }
    return Reply(updated.value, None);
  }
}
