/** The users repository over an in-memory collection of documents
    (infrastructure/user_repository.go). The collection keeps its documents in
    insertion order; FindOne and ReplaceOne act on the first match in that order. */
module Repository {
  import opened Wrappers
  import opened Domain
  import opened RepositoryMapper

  // ---------------------------------------------------------------------------
  // The part of the store's filter language the repository uses

  datatype Field = FirstNameField | LastNameField | EmailField

  datatype Condition =
    | ActiveIs(active: bool)                        // is_active equals the value
    | ReferenceIs(reference: string)                // reference equals the value
    | StartsWithFold(field: Field, prefix: string)  // case-insensitive "^prefix" regex

  function FieldOf(d: MongoUser, f: Field): string
  {
    match f
    case FirstNameField => d.firstName
    case LastNameField => d.lastName
    case EmailField => d.email
  }

  /** Case folding for the "i" regex option, over ASCII letters. */
  function FoldCase(c: char): char
  {
    if 'A' <= c <= 'Z' then (c as int + 32) as char else c
  }

  predicate HasPrefixFold(s: string, prefix: string)
  {
    |prefix| <= |s| && forall i :: 0 <= i < |prefix| ==> FoldCase(s[i]) == FoldCase(prefix[i])
  }

  predicate Holds(d: MongoUser, c: Condition)
  {
    match c
    case ActiveIs(a) => d.isActive == a
    case ReferenceIs(r) => d.reference == r
    case StartsWithFold(f, p) => HasPrefixFold(FieldOf(d, f), p)
  }

  /** A filter is the conjunction of its conditions. */
  predicate Satisfies(d: MongoUser, filter: seq<Condition>)
  {
    forall i :: 0 <= i < |filter| ==> Holds(d, filter[i])
  }

  // ---------------------------------------------------------------------------
  // The store's primitives, as functions of the collection

  /** Find: the matching documents, in collection order. */
  function Find(docs: seq<MongoUser>, filter: seq<Condition>): (r: seq<MongoUser>)
    ensures |r| <= |docs|
    ensures forall d :: d in r <==> d in docs && Satisfies(d, filter)
  {
    if docs == [] then []
    else
      var rest := Find(docs[1..], filter);
      assert forall d :: d in docs <==> d == docs[0] || d in docs[1..];
      if Satisfies(docs[0], filter) then [docs[0]] + rest else rest
  }

  /** FindOne: the position of the first matching document, if any. */
  function FindOne(docs: seq<MongoUser>, filter: seq<Condition>): (k: Option<nat>)
    ensures k.Some? ==> k.value < |docs| && Satisfies(docs[k.value], filter)
    ensures k.Some? ==> forall j :: 0 <= j < k.value ==> !Satisfies(docs[j], filter)
    ensures k.None? <==> forall j :: 0 <= j < |docs| ==> !Satisfies(docs[j], filter)
  {
    if docs == [] then None
    else if Satisfies(docs[0], filter) then Some(0)
    else match FindOne(docs[1..], filter)
      case None => None
      case Some(j) => Some(j + 1)
  }

  /** The skip/limit window of a result list. */
  function Page(s: seq<MongoUser>, skip: nat, limit: nat): (r: seq<MongoUser>)
    ensures |r| <= limit
    ensures skip <= |s| ==> |r| == if skip + limit <= |s| then limit else |s| - skip
    ensures forall i :: 0 <= i < |r| ==> skip + i < |s| && r[i] == s[skip + i]
  {
    var from := if skip <= |s| then skip else |s|;
    var to := if skip + limit <= |s| then skip + limit else |s|;
    s[from..to]
  }

  /** The outcome of ReplaceOne: the new collection with the matched and
      modified counts, or the store's refusal to change the identifier of the
      matched document (identifiers are immutable). */
  datatype ReplaceResult =
    | Replaced(documents: seq<MongoUser>, matched: nat, modified: nat)
    | IdAltered

  /** ReplaceOne with a filter on the reference alone. */
  function ReplaceOne(docs: seq<MongoUser>, reference: string, replacement: MongoUser): (r: ReplaceResult)
    ensures r.IdAltered? <==>
      Stored(docs, reference, false) && docs[IndexOf(docs, reference, false)].id != replacement.id
    ensures r.Replaced? ==> |r.documents| == |docs|
    ensures r.Replaced? ==> r.matched <= 1 && r.modified <= r.matched
    ensures r.Replaced? ==> (r.matched == 1 <==> Stored(docs, reference, false))
    ensures r.Replaced? && r.modified == 1 ==> r.documents == docs[IndexOf(docs, reference, false) := replacement]
    ensures r.Replaced? && r.modified == 0 ==> r.documents == docs
    ensures r.Replaced? && r.matched == 1 ==>
      (r.modified == 1 <==> docs[IndexOf(docs, reference, false)] != replacement)
  {
    match FindOne(docs, ReferenceFilter(reference, false))
    case None => Replaced(docs, 0, 0)
    case Some(k) =>
      if docs[k].id != replacement.id then IdAltered
      else if docs[k] == replacement then Replaced(docs, 1, 0)
      else Replaced(docs[k := replacement], 1, 1)
  }

  // ---------------------------------------------------------------------------
  // The repository's filters

  /** The lookup filter: by reference, and by the active flag when asked. */
  function ReferenceFilter(reference: string, onlyActives: bool): (f: seq<Condition>)
    ensures forall d :: Satisfies(d, f) <==> d.reference == reference && (onlyActives ==> d.isActive)
  {
    var f := [ReferenceIs(reference)] + if onlyActives then [ActiveIs(true)] else [];
    assert f[0] == ReferenceIs(reference);
    assert onlyActives ==> f[1] == ActiveIs(true);
    f
  }

  const ActiveFilter := [ActiveIs(true)]

  /** The search filter. As the source builds it, the pattern of the e-mail
      condition is taken from the last-name criterion. */
  function SearchFilters(input: UserSearchInput): (f: seq<Condition>)
    ensures forall d :: Satisfies(d, f) <==>
      && d.isActive
      && (|input.firstName| > 0 ==> HasPrefixFold(d.firstName, input.firstName))
      && (|input.lastName| > 0 ==> HasPrefixFold(d.lastName, input.lastName))
      && (|input.email| > 0 ==> HasPrefixFold(d.email, input.lastName))
  {
    var byFirst := if |input.firstName| > 0 then [StartsWithFold(FirstNameField, input.firstName)] else [];
    var byLast := if |input.lastName| > 0 then [StartsWithFold(LastNameField, input.lastName)] else [];
    var byEmail := if |input.email| > 0 then [StartsWithFold(EmailField, input.lastName)] else [];
    var f := ActiveFilter + byFirst + byLast + byEmail;
    forall d ensures Satisfies(d, f) <==>
      && d.isActive
      && (|input.firstName| > 0 ==> HasPrefixFold(d.firstName, input.firstName))
      && (|input.lastName| > 0 ==> HasPrefixFold(d.lastName, input.lastName))
      && (|input.email| > 0 ==> HasPrefixFold(d.email, input.lastName))
    {
      SatisfiesConcat(d, ActiveFilter + byFirst + byLast, byEmail);
      SatisfiesConcat(d, ActiveFilter + byFirst, byLast);
      SatisfiesConcat(d, ActiveFilter, byFirst);
      SatisfiesSingle(d, ActiveIs(true));
      SatisfiesSingle(d, StartsWithFold(FirstNameField, input.firstName));
      SatisfiesSingle(d, StartsWithFold(LastNameField, input.lastName));
      SatisfiesSingle(d, StartsWithFold(EmailField, input.lastName));
    }
    f
  }

  lemma SatisfiesConcat(d: MongoUser, f: seq<Condition>, g: seq<Condition>)
    ensures Satisfies(d, f + g) <==> Satisfies(d, f) && Satisfies(d, g)
  {
    if Satisfies(d, f) && Satisfies(d, g) {
      forall i | 0 <= i < |f + g| ensures Holds(d, (f + g)[i]) {
        if i >= |f| { assert (f + g)[i] == g[i - |f|]; }
      }
    }
    if Satisfies(d, f + g) {
      forall i | 0 <= i < |f| ensures Holds(d, f[i]) {
        assert (f + g)[i] == f[i];
      }
      forall i | 0 <= i < |g| ensures Holds(d, g[i]) {
        assert (f + g)[|f| + i] == g[i];
      }
    }
  }

  lemma SatisfiesSingle(d: MongoUser, c: Condition)
    ensures Satisfies(d, [c]) <==> Holds(d, c)
  {
    assert [c][0] == c;
  }

  /** The number of documents skipped for a 1-based page. */
  function Skip(page: int, size: int): (n: nat)
    requires page >= 1 && size >= 0
    ensures n == (page - 1) * size
  {
    assert page * size - size == (page - 1) * size;
    assert (page - 1) * size >= 0;
    page * size - size
  }

  // ---------------------------------------------------------------------------
  // Facts about a collection

  /** Some document has the reference (and is active, when asked). */
  predicate Stored(docs: seq<MongoUser>, reference: string, onlyActives: bool)
  {
    exists i :: 0 <= i < |docs| && docs[i].reference == reference && (onlyActives ==> docs[i].isActive)
  }

  /** The position FindOne picks for a stored reference. */
  function IndexOf(docs: seq<MongoUser>, reference: string, onlyActives: bool): (k: nat)
    requires Stored(docs, reference, onlyActives)
    ensures k < |docs| && docs[k].reference == reference && (onlyActives ==> docs[k].isActive)
    ensures forall j :: 0 <= j < k ==> !(docs[j].reference == reference && (onlyActives ==> docs[j].isActive))
  {
    var filter := ReferenceFilter(reference, onlyActives);
    var i :| 0 <= i < |docs| && docs[i].reference == reference && (onlyActives ==> docs[i].isActive);
    assert Satisfies(docs[i], filter);
    var j := FindOne(docs, filter).value;
    assert forall j' :: 0 <= j' < j ==> !Satisfies(docs[j'], filter);
    j
  }

  function References(docs: seq<MongoUser>): set<string>
  {
    set d | d in docs :: d.reference
  }

  predicate UniqueReferences(docs: seq<MongoUser>)
  {
    forall i, j :: 0 <= i < j < |docs| ==> docs[i].reference != docs[j].reference
  }

  /** The lifecycle invariant the use cases keep: references are unique and
      non-empty, and no document was updated before it was created. */
  predicate Lifecycle(docs: seq<MongoUser>)
  {
    && UniqueReferences(docs)
    && forall i :: 0 <= i < |docs| ==> docs[i].reference != "" && docs[i].createdDate <= docs[i].updatedDate
  }

  /** No timestamp of the collection lies after now: the clock is monotone. */
  predicate NotAfter(docs: seq<MongoUser>, now: Time)
  {
    forall i :: 0 <= i < |docs| ==> docs[i].createdDate <= now && docs[i].updatedDate <= now
  }

  /** Every document of the old collection is still at its place with its
      reference and identifier: nothing is ever physically removed. */
  predicate Retains(before: seq<MongoUser>, after: seq<MongoUser>)
  {
    && |before| <= |after|
    && forall i :: 0 <= i < |before| ==>
         after[i].reference == before[i].reference && after[i].id == before[i].id
  }

  /** Every identifier is non-zero and below next. */
  predicate IdsBelow(docs: seq<MongoUser>, next: ObjectId)
  {
    forall i :: 0 <= i < |docs| ==> ZeroObjectId < docs[i].id < next
  }

  /** Each document's identifier is larger than the one before it. */
  predicate IdsIncrease(docs: seq<MongoUser>)
  {
    forall i :: 0 < i < |docs| ==> docs[i - 1].id < docs[i].id
  }

  /** Writing a document over one with the same identifier keeps the
      identifiers increasing and within the handed-out range. */
  lemma ReplaceKeepsIds(docs: seq<MongoUser>, j: nat, d: MongoUser, next: ObjectId)
    requires j < |docs| && d.id == docs[j].id
    requires IdsIncrease(docs) && IdsBelow(docs, next)
    ensures IdsIncrease(docs[j := d]) && IdsBelow(docs[j := d], next)
  {
  }

  /** Identifiers that increase step by step increase overall, so no two
      documents share one. */
  lemma {:induction false} IncreasingIdsAreDistinct(docs: seq<MongoUser>)
    requires IdsIncrease(docs)
    ensures forall i, j :: 0 <= i < j < |docs| ==> docs[i].id < docs[j].id
  {
    if |docs| > 1 {
      var init := docs[..|docs| - 1];
      assert IdsIncrease(init) by {
        forall i | 0 < i < |init| ensures init[i - 1].id < init[i].id {
          assert init[i - 1] == docs[i - 1] && init[i] == docs[i];
        }
      }
      IncreasingIdsAreDistinct(init);
      forall i, j | 0 <= i < j < |docs| ensures docs[i].id < docs[j].id {
        if j < |docs| - 1 {
          assert docs[i] == init[i] && docs[j] == init[j];
        } else if i < j - 1 {
          assert docs[i] == init[i] && docs[j - 1] == init[j - 1];
        }
      }
    }
  }

  // ---------------------------------------------------------------------------
  // Lifecycle lemmas over a collection

  /** With unique references the active lookup and the unrestricted lookup
      pick the same document. */
  lemma SameIndexWhenUnique(docs: seq<MongoUser>, reference: string)
    requires UniqueReferences(docs) && Stored(docs, reference, true)
    ensures Stored(docs, reference, false)
    ensures IndexOf(docs, reference, false) == IndexOf(docs, reference, true)
  {
    var k := IndexOf(docs, reference, true);
    assert docs[k].reference == reference;
    var j := IndexOf(docs, reference, false);
    assert docs[j].reference == reference;
  }

  /** Soft-deleting the active document of a reference modifies it, and
      afterwards the reference is still stored but no longer active: a second
      active lookup finds nothing. */
  lemma SoftDeleteHides(docs: seq<MongoUser>, reference: string, now: Time)
    requires UniqueReferences(docs) && Stored(docs, reference, true)
    ensures var k := IndexOf(docs, reference, true);
      var after := ReplaceOne(docs, reference, docs[k].(isActive := false, updatedDate := now));
      && after.Replaced? && after.matched == 1 && after.modified == 1
      && after.documents == docs[k := docs[k].(isActive := false, updatedDate := now)]
      && Stored(after.documents, reference, false)
      && !Stored(after.documents, reference, true)
  {
    var k := IndexOf(docs, reference, true);
    SameIndexWhenUnique(docs, reference);
    var marked := docs[k].(isActive := false, updatedDate := now);
    var after := docs[k := marked];
    assert after[k].reference == reference;
    forall i | 0 <= i < |after| && after[i].reference == reference ensures !after[i].isActive {
      assert docs[i].reference == reference;
    }
  }

  /** Replacing the document of a reference by an active one with the same
      reference makes the active lookup find it at the same place: an update
      brings a soft-deleted user back. */
  lemma ReactivatedIsFound(docs: seq<MongoUser>, reference: string, replacement: MongoUser)
    requires UniqueReferences(docs) && Stored(docs, reference, false)
    requires replacement.reference == reference && replacement.isActive
    ensures var k := IndexOf(docs, reference, false);
      && Stored(docs[k := replacement], reference, true)
      && IndexOf(docs[k := replacement], reference, true) == k
      && docs[k := replacement][k] == replacement
  {
    var k := IndexOf(docs, reference, false);
    var after := docs[k := replacement];
    assert after[k].reference == reference && after[k].isActive;
    var j := IndexOf(after, reference, true);
  }

  /** Replacing a document by one with the same reference and identifier and
      with no date after now removes nothing and keeps the dates up to now. */
  lemma SameKeyReplace(docs: seq<MongoUser>, j: nat, d: MongoUser, now: Time)
    requires j < |docs| && d.reference == docs[j].reference && d.id == docs[j].id
    requires NotAfter(docs, now) && d.createdDate <= now && d.updatedDate <= now
    ensures Retains(docs, docs[j := d]) && NotAfter(docs[j := d], now)
  {
  }

  /** Replacing a document by one with the same reference and ordered dates
      keeps the lifecycle invariant and removes nothing. */
  lemma ReplaceKeepsLifecycle(docs: seq<MongoUser>, k: nat, replacement: MongoUser)
    requires Lifecycle(docs) && k < |docs|
    requires replacement.reference == docs[k].reference && replacement.id == docs[k].id
    requires replacement.createdDate <= replacement.updatedDate
    ensures Lifecycle(docs[k := replacement])
    ensures Retains(docs, docs[k := replacement])
  {
  }

  /** Inserting a document with a fresh, non-empty reference and ordered
      dates keeps the lifecycle invariant, removes nothing and adds exactly
      that reference. */
  lemma InsertFreshKeepsLifecycle(docs: seq<MongoUser>, d: MongoUser)
    requires Lifecycle(docs)
    requires d.reference != "" && d.reference !in References(docs)
    requires d.createdDate <= d.updatedDate
    ensures Lifecycle(docs + [d])
    ensures Retains(docs, docs + [d])
    ensures References(docs + [d]) == References(docs) + {d.reference}
  {
    var after := docs + [d];
    forall i, j | 0 <= i < j < |after| ensures after[i].reference != after[j].reference {
      if j == |docs| {
        assert after[i] in docs;
      }
    }
    assert forall e :: e in after <==> e in docs || e == d;
  }

  /** Every match appears on exactly the page its position says: the i-th
      match is element i % size of page i / size + 1. */
  lemma EveryMatchOnItsPage(s: seq<MongoUser>, size: int, i: nat)
    requires size >= 1 && i < |s|
    ensures var page := Page(s, Skip(i / size + 1, size), size);
      i % size < |page| && page[i % size] == s[i]
  {
    var p := i / size + 1;
    assert Skip(p, size) == (i / size) * size;
    assert (i / size) * size + i % size == i;
  }

  /** The e-mail criterion only decides whether the last-name pattern is also
      applied to the e-mail field; which non-empty e-mail is asked for does
      not matter. */
  lemma EmailCriterionIgnored(d: MongoUser, input: UserSearchInput, email: string)
    requires |input.email| > 0 && |email| > 0
    ensures Satisfies(d, SearchFilters(input)) <==> Satisfies(d, SearchFilters(input.(email := email)))
  {
  }

  /** With no last-name criterion the e-mail condition is "^", which every
      e-mail matches. */
  lemma EmailAloneFiltersNothing(d: MongoUser, input: UserSearchInput)
    requires input.lastName == ""
    ensures Satisfies(d, SearchFilters(input)) <==> Satisfies(d, SearchFilters(input.(email := "")))
  {
  }

  // ---------------------------------------------------------------------------
  // Messages of the repository's errors

  const FindAllErrorMessage := "unexpected error when find all users"
  const FindByReferenceErrorMessage := "unexpected error when find user by its reference"
  const SearchErrorMessage := "unexpected error when search active users"
  const CreateErrorMessage := "unexpected error when create the user"
  const UpdateNotFoundMessage := "user to update was not found"
  const UpdateErrorMessage := "unexpected error when update the user"
  const UpdateCountMessage := "unexpected error when update the user. Matched update elements was not one"
  const DeleteNotFoundMessage := "user to delete was not found"
  const DeleteErrorMessage := "unexpected error when mark the user as deleted"
  const DeleteCountMessage := "unexpected error when mark the user as deleted. Matched update elements was not one"

  // ---------------------------------------------------------------------------
  // The repository. Each call that reaches the store takes a flag saying
  // whether the store fails on that call.

  class UserRepository {
    var documents: seq<MongoUser>
    /** The next identifier the store hands out; identifiers are never reused. */
    var nextObjectId: ObjectId

    /** Every document has a non-zero identifier handed out before, and the
        identifiers increase in insertion order (so no two are equal, by
        IncreasingIdsAreDistinct). */
    ghost predicate Valid()
      reads this
    {
      && ZeroObjectId < nextObjectId
      && IdsBelow(documents, nextObjectId)
      && IdsIncrease(documents)
    }

    /** Identifiers are never reused: no two documents share one. */
    lemma IdentifiersDistinct()
      requires Valid()
      ensures forall i, j :: 0 <= i < j < |documents| ==> documents[i].id != documents[j].id
    {
      IncreasingIdsAreDistinct(documents);
    }

    constructor ()
      ensures Valid() && documents == [] && Lifecycle(documents)
    {
      documents := [];
      nextObjectId := 1;
    }

    /** The lookup: the first document with the reference (and active, when
        asked), or the zero document when there is none. */
    function FindDocument(reference: string, onlyActives: bool, findFails: bool): (r: Reply<MongoUser, string>)
      reads this
      ensures findFails ==> r == Reply(ZeroMongoUser, Some(FindByReferenceErrorMessage))
      ensures !findFails && Stored(documents, reference, onlyActives) ==>
        r == Reply(documents[IndexOf(documents, reference, onlyActives)], None)
      ensures !findFails && !Stored(documents, reference, onlyActives) ==> r == Reply(ZeroMongoUser, None)
    {
      if findFails then Reply(ZeroMongoUser, Some(FindByReferenceErrorMessage))
      else
        match FindOne(documents, ReferenceFilter(reference, onlyActives))
        case None => Reply(ZeroMongoUser, None)
        case Some(k) => Reply(documents[k], None)
    }

    /** The active-only lookup, in domain form. A user it returns with a
        non-empty reference is stored and active. */
    function FindActiveByReference(reference: string, findFails: bool): (r: Reply<User, string>)
      reads this
      ensures findFails ==> r == Reply(ZeroUser, Some(FindByReferenceErrorMessage))
      ensures !findFails ==> r.err.None?
      ensures !findFails ==>
        (r.value.reference != "" <==> reference != "" && Stored(documents, reference, true))
      ensures !findFails && !Stored(documents, reference, true) ==> r.value == ZeroUser
      ensures !findFails && r.value.reference != "" ==>
        r.value.isActive && r.value.reference == reference
        && MapDomainToRepository(r.value).(id := documents[IndexOf(documents, reference, true)].id)
           == documents[IndexOf(documents, reference, true)]
    {
      var found := FindDocument(reference, true, findFails);
      if found.err.Some? then Reply(ZeroUser, found.err)
      else Reply(MapRepositoryToDomain(found.value), None)
    }

    /** The lookup ignoring the active flag, in domain form. */
    function FindByReference(reference: string, findFails: bool): (r: Reply<User, string>)
      reads this
      ensures findFails ==> r == Reply(ZeroUser, Some(FindByReferenceErrorMessage))
      ensures !findFails ==> r.err.None?
      ensures !findFails ==>
        (r.value.reference != "" <==> reference != "" && Stored(documents, reference, false))
      ensures !findFails && !Stored(documents, reference, false) ==> r.value == ZeroUser
      ensures !findFails && r.value.reference != "" ==>
        r.value.reference == reference
        && MapDomainToRepository(r.value).(id := documents[IndexOf(documents, reference, false)].id)
           == documents[IndexOf(documents, reference, false)]
    {
      var found := FindDocument(reference, false, findFails);
      if found.err.Some? then Reply(ZeroUser, found.err)
      else Reply(MapRepositoryToDomain(found.value), None)
    }

    /** All active users, in collection order. */
    function FindAllActive(findFails: bool): (r: Reply<seq<User>, string>)
      reads this
      ensures findFails ==> r == Reply([], Some(FindAllErrorMessage))
      ensures !findFails ==> r.err.None? && r.value == DomainList(Find(documents, ActiveFilter))
      ensures !findFails ==> forall u :: u in r.value ==> u.isActive
      ensures !findFails ==>
        forall d :: d in documents ==> (MapRepositoryToDomain(d) in r.value <==> d.isActive)
    {
      if findFails then Reply([], Some(FindAllErrorMessage))
      else
        var active := Find(documents, ActiveFilter);
        var users := DomainList(active);
        assert forall d :: d in active <==> d in documents && d.isActive by {
          forall d ensures d in active <==> d in documents && d.isActive {
            assert Satisfies(d, ActiveFilter) <==> Holds(d, ActiveFilter[0]);
          }
        }
        assert forall u :: u in users ==> u.isActive by {
          forall u | u in users ensures u.isActive {
            DomainListMembership(active, u);
          }
        }
        assert forall d :: d in documents ==> (MapRepositoryToDomain(d) in users <==> d.isActive) by {
          forall d | d in documents ensures MapRepositoryToDomain(d) in users <==> d.isActive {
            DomainListMembership(active, MapRepositoryToDomain(d));
          }
        }
        Reply(users, None)
    }

    /** One page of the active users matching the search, with the number of
        all matches. The page is at least 1 (the handler replaces smaller
        values by its default); a size of 0 is a limit of 0, which the store
        reads as no limit, so every match is returned. */
    function SearchActive(input: UserSearchInput, findFails: bool): (r: Reply<UserSearchOutput, string>)
      reads this
      requires input.page >= 1 && input.pageSize >= 0
      ensures findFails ==> r == Reply(ZeroSearchOutput, Some(SearchErrorMessage))
      ensures !findFails ==> r.err.None?
      ensures !findFails ==>
        var matching := Find(documents, SearchFilters(input));
        && r.value.total == |matching|
        && r.value.page == input.page && r.value.pageSize == input.pageSize
        && r.value.users == DomainList(
             if input.pageSize == 0 then matching
             else Page(matching, (input.page - 1) * input.pageSize, input.pageSize))
      ensures !findFails && input.pageSize >= 1 ==> |r.value.users| <= input.pageSize
      ensures !findFails ==> forall u :: u in r.value.users ==> u.isActive
    {
      if findFails then Reply(ZeroSearchOutput, Some(SearchErrorMessage))
      else
        var filters := SearchFilters(input);
        var matching := Find(documents, filters);
        var limit := if input.pageSize == 0 then |matching| else input.pageSize;
        var users := Page(matching, Skip(input.page, input.pageSize), limit);
        assert input.pageSize == 0 ==> users == matching;
        assert forall u :: u in DomainList(users) ==> u.isActive by {
          forall u | u in DomainList(users) ensures u.isActive {
            DomainListMembership(users, u);
          }
        }
        Reply(MapRepositorySearchActiveToOutput(users, |matching|, input.page, input.pageSize), None)
    }

    /** Inserts the user as a new document with a fresh identifier; the
        reference is not checked for duplicates. */
    method Create(user: User, insertFails: bool) returns (r: Reply<User, string>)
      requires Valid()
      modifies this
      ensures Valid()
      ensures nextObjectId == old(nextObjectId) + 1
      ensures insertFails ==> r == Reply(ZeroUser, Some(CreateErrorMessage)) && documents == old(documents)
      ensures !insertFails ==>
        && r == Reply(user, None)
        && documents == old(documents) + [MapDomainToRepository(user).(id := old(nextObjectId))]
      ensures !insertFails ==>
        forall i :: 0 <= i < |old(documents)| ==> old(documents)[i].id != documents[|documents| - 1].id
    {
      var stored := MapDomainToRepository(user).(id := nextObjectId);
      nextObjectId := nextObjectId + 1;
      if insertFails {
        return Reply(ZeroUser, Some(CreateErrorMessage));
      }
      documents := documents + [stored];
      assert documents[|documents| - 1] == stored;
      return Reply(user, None);
    }

    /** Replaces the document with the user's reference, whatever its active
        flag, keeping its identifier. A replacement equal to the stored
        document modifies nothing and is reported as an error. */
    method Update(user: User, findFails: bool, replaceFails: bool) returns (r: Reply<User, string>)
      requires Valid()
      modifies this
      ensures Valid() && nextObjectId == old(nextObjectId)
      ensures r.err.Some? ==> r.value == ZeroUser && documents == old(documents)
      ensures findFails ==> r.err == Some(FindByReferenceErrorMessage)
      ensures !findFails && !(user.reference != "" && Stored(old(documents), user.reference, false)) ==>
        r.err == Some(UpdateNotFoundMessage)
      ensures !findFails && user.reference != "" && Stored(old(documents), user.reference, false) ==>
        var k := IndexOf(old(documents), user.reference, false);
        var replacement := MapDomainToRepository(user).(id := old(documents)[k].id);
        if replaceFails then r.err == Some(UpdateErrorMessage)
        else if replacement == old(documents)[k] then r.err == Some(UpdateCountMessage)
        else r == Reply(user, None) && documents == old(documents)[k := replacement]
    {
      var current := FindDocument(user.reference, false, findFails);
      if current.err.Some? {
        return Reply(ZeroUser, current.err);
      }
      if |current.value.reference| == 0 {
        return Reply(ZeroUser, Some(UpdateNotFoundMessage));
      }
      var replacement := MapDomainToRepository(user).(id := current.value.id);
      if replaceFails {
        return Reply(ZeroUser, Some(UpdateErrorMessage));
      }
      var result := ReplaceOne(documents, user.reference, replacement);
      if result.IdAltered? {
        return Reply(ZeroUser, Some(UpdateErrorMessage));
      }
      if result.modified == 1 {
        ReplaceKeepsIds(documents, IndexOf(documents, user.reference, false), replacement, nextObjectId);
      }
      documents := result.documents;
      if result.matched != 1 || result.modified != 1 {
        return Reply(ZeroUser, Some(UpdateCountMessage));
      }
      return Reply(user, None);
    }

    /** Marks the active document with the reference as deleted: inactive and
        updated now, everything else kept. The replacement goes to the first
        document with the reference, whatever its active flag; when that is
        another document, the store refuses the identifier change. */
    method Delete(reference: string, now: Time, findFails: bool, replaceFails: bool) returns (r: Reply<User, string>)
      requires Valid()
      modifies this
      ensures Valid() && nextObjectId == old(nextObjectId)
      ensures r.err.Some? ==> r.value == ZeroUser && documents == old(documents)
      ensures findFails ==> r.err == Some(FindByReferenceErrorMessage)
      ensures !findFails && !(reference != "" && Stored(old(documents), reference, true)) ==>
        r.err == Some(DeleteNotFoundMessage)
      ensures !findFails && reference != "" && Stored(old(documents), reference, true) ==>
        var k := IndexOf(old(documents), reference, true);
        var j := IndexOf(old(documents), reference, false);
        var marked := old(documents)[k].(isActive := false, updatedDate := now);
        if replaceFails || marked.id != old(documents)[j].id then r.err == Some(DeleteErrorMessage)
        else if marked == old(documents)[j] then r.err == Some(DeleteCountMessage)
        else r == Reply(MapRepositoryToDomain(marked), None) && documents == old(documents)[j := marked]
    {
      var current := FindDocument(reference, true, findFails);
      if current.err.Some? {
        return Reply(ZeroUser, current.err);
      }
      if |current.value.reference| == 0 {
        return Reply(ZeroUser, Some(DeleteNotFoundMessage));
      }
      var marked := current.value.(isActive := false, updatedDate := now);
      if replaceFails {
        return Reply(ZeroUser, Some(DeleteErrorMessage));
      }
      var result := ReplaceOne(documents, reference, marked);
      if result.IdAltered? {
        return Reply(ZeroUser, Some(DeleteErrorMessage));
      }
      if result.modified == 1 {
        ReplaceKeepsIds(documents, IndexOf(documents, reference, false), marked, nextObjectId);
      }
      documents := result.documents;
      if result.matched != 1 || result.modified != 1 {
        return Reply(ZeroUser, Some(DeleteCountMessage));
      }
      return Reply(MapRepositoryToDomain(marked), None);
    }
  }
}
