/** Sequences of use cases over one repository, with the store never failing:
    what a caller can conclude from the use cases' contracts alone. */
module Scenarios {
  import opened Wrappers
  import opened Domain
  import opened Errors
  import opened RepositoryMapper
  import opened Repository
  import opened UseCases

  /** A user just created is found by its reference, unchanged. */
  method CreateThenFind(repository: UserRepository, input: UserCreateInput, reference: string, now: Time)
    returns (created: Reply<User, BusinessError>, found: Reply<User, BusinessError>)
    requires repository.Valid() && NotAfter(repository.documents, now)
    requires reference != "" && reference !in References(repository.documents)
    modifies repository
    ensures repository.Valid() && NotAfter(repository.documents, now)
    ensures old(Lifecycle(repository.documents)) ==> Lifecycle(repository.documents)
    ensures created == Reply(User(reference, true, now, now, input.firstName, input.lastName, input.email), None)
    ensures found == created
    ensures Stored(repository.documents, reference, true)
  {
    ghost var before := repository.documents;
    created := Create(repository, input, reference, now, false);
    var last := |repository.documents| - 1;
    assert repository.documents[last].reference == reference;
    forall j | 0 <= j < last ensures repository.documents[j].reference != reference {
      assert repository.documents[j] == before[j];
      assert before[j] in before;
    }
    assert IndexOf(repository.documents, reference, true) == last;
    found := FindByReference(repository, reference, false);
  }

  /** Deleting the same reference twice: the second attempt is not-found. */
  method DeleteTwice(repository: UserRepository, reference: string, now: Time, later: Time)
    returns (first: Reply<User, BusinessError>, second: Reply<User, BusinessError>)
    requires repository.Valid() && Lifecycle(repository.documents)
    requires NotAfter(repository.documents, now) && now <= later
    modifies repository
    ensures first.Ok() <==> reference != "" && Stored(old(repository.documents), reference, true)
    ensures first.Ok() ==> !first.value.isActive && first.value.reference == reference
    ensures first.Ok() ==> second == Reply(ZeroUser, Some(NewNotFoundError(UserNotFoundMessage)))
  {
    ghost var before := repository.documents;
    if reference != "" && Stored(before, reference, true) {
      SameIndexWhenUnique(before, reference);
    }
    first := Delete(repository, reference, now, false, false, false);
    if first.Ok() {
      SoftDeleteHides(before, reference, now);
    }
    second := Delete(repository, reference, later, false, false, false);
  }

  /** Updating a user that was just deleted succeeds and makes it active
      again: the active lookup then returns the updated user. */
  method UpdateAfterDelete(repository: UserRepository, input: UserUpdateInput, now: Time, later: Time)
    returns (deleted: Reply<User, BusinessError>, updated: Reply<User, BusinessError>,
             found: Reply<User, BusinessError>)
    requires repository.Valid() && Lifecycle(repository.documents)
    requires NotAfter(repository.documents, now) && now <= later
    modifies repository
    ensures deleted.Ok() ==> updated.Ok() && updated.value.isActive && found == updated
  {
    var reference := input.reference;
    ghost var before := repository.documents;
    deleted := Delete(repository, reference, now, false, false, false);
    if deleted.Ok() {
      SoftDeleteHides(before, reference, now);
      SameIndexWhenUnique(before, reference);
    }
    ghost var middle := repository.documents;
    updated := Update(repository, input, later, false, false, false);
    if deleted.Ok() {
      var k := IndexOf(middle, reference, false);
      ReactivatedIsFound(middle, reference, repository.documents[k]);
    }
    found := FindByReference(repository, reference, false);
  }

  /** The life of one user: created active with created == updated, found,
      deleted (inactive afterwards), and not found by a second delete. */
  method OneUserLife(reference: string, now: Time)
    returns (created: Reply<User, BusinessError>, found: Reply<User, BusinessError>,
             deleted: Reply<User, BusinessError>, again: Reply<User, BusinessError>)
    requires reference != ""
    ensures created == Reply(User(reference, true, now, now, "Foo", "Bar", "foobar@email.com"), None)
    ensures found == created
    ensures deleted.Ok() && !deleted.value.isActive && deleted.value.reference == reference
    ensures again == Reply(ZeroUser, Some(NewNotFoundError("user not found")))
  {
    var repository := new UserRepository();
    created, found := CreateThenFind(repository, UserCreateInput("Foo", "Bar", "foobar@email.com"), reference, now);
    deleted, again := DeleteTwice(repository, reference, now, now);
  }
}
