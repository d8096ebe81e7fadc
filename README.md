# User service core, modelled in Dafny

This project models the core of a small CRUD service for users. A user has an
opaque reference (a UUID), a profile (first name, last name, e-mail), an active
flag and creation and update instants. The service stores users in a document
collection. It never removes a document: deleting a user clears its active flag
("soft delete"), and updating a user makes it active again.

The model has seven parts:

- `wrappers.dfy` holds `Option` and `Reply`. `Reply` is Go's `(value, error)`
  pair, so "the zero value is returned on error" can be stated.
- `domain.dfy` holds the domain entities (`User`, the create, update and search
  inputs, the search output) and their zero values.
- `errors.dfy` holds the error taxonomy of `libs/errors`. Business errors carry a
  message, a code and a fatal flag. API errors carry an HTTP status, a message and
  a code. It also models the two translations between them.
- `repository_mapper.dfy` and `repository.dfy` hold the storage document, its
  mapping to and from the domain, and the repository.
  - The collection is a sequence of documents in insertion order.
  - `Find`, `FindOne` and `ReplaceOne` are the store primitives, written as
    functions of that sequence. `FindOne` and `ReplaceOne` act on the first
    match.
  - Filters are lists of conditions: equality on the reference, equality on the
    active flag, and a case-insensitive "starts with" regex.
  - `UserRepository` is a class. Its fields are the collection and the
    identifier generator. Its lookups are functions and its writes are methods.
    Its invariant `Valid` says that the stored identifiers were drawn from the
    generator in increasing order, so no two documents share one.
- `use_cases.dfy` holds the six use cases: find all, find by reference, search,
  create, update and delete. Each one turns repository failures into fatal
  business errors and an empty lookup into a not-found error.
- `handler_mapper.dfy` holds the request and response mapping of the HTTP layer.
  It includes white-space trimming as Go's `strings.TrimSpace` does it, with
  `unicode.IsSpace`.
- `scenarios.dfy` chains use cases on one repository: create then find, delete
  twice, update after delete, and the whole life of one user.

Each call that reaches the store takes a boolean that says whether the store
fails on that call. The generated reference and the clock reading are parameters
of the use cases.

Lookups return a zero user to mean "not found". The model keeps that. A stored
user is recognised by its non-empty reference, as the code does.

Where the code and the service's documented behaviour differ, the model follows
the code:

- The e-mail search criterion does not filter on the e-mail. When the criterion
  is non-empty, the repository adds an e-mail condition, but that condition's
  pattern is the last-name criterion (`infrastructure/user_repository.go:118-121`).
  `Repository.SearchFilters` states the filter as written.
  `Repository.EmailCriterionIgnored` and `Repository.EmailAloneFiltersNothing`
  show the consequences.
- The delete use case persists through the repository's `Update`, not through
  its `Delete`. The write therefore goes to the first document with the
  reference, whatever its active flag.

## Model

| member | source | states |
|---|---|---|
| Errors.BusinessError.Error | libs/errors/service_error.go:15-17 | a business error's text is its message |
| Errors.NewAPIError | libs/errors/api_error.go:19-25 | the API error carries the given status, message and code |
| Errors.JoinedOrDefault | libs/errors/api_error.go:29-32 | with no messages, the default; with one, that message; with several, all of them in order with " - " between consecutive ones |
| Errors.JoinAppend | libs/errors/api_error.go:31 | joining one more part appends the separator and that part |
| Errors.NewBadRequest | libs/errors/api_error.go:28-35 | status 400, code "bad_request", message joined or "invalid request parameters" |
| Errors.NewResourceNotFound | libs/errors/api_error.go:38-45 | status 404, code "not_found", message joined or "resource not found" |
| Errors.NewMethodNotAllowed | libs/errors/api_error.go:48-55 | status 405, code "method_not_allowed", message joined or the default |
| Errors.NewUnauthorizedError | libs/errors/api_error.go:58-65 | status 401, code "unauthorized", message joined or "unauthorized" |
| Errors.NewInternalServerError | libs/errors/api_error.go:68-75 | status 500, code "internal_error", message joined or "internal Server Error" |
| Errors.HandleBusinessError | libs/errors/api_error.go:78-93 | the message is always the error's text; the status is always 400, 401, 404 or 500; 404 exactly for code "not_found" and 401 exactly for code "unauthorized" (checked before the fatal flag); 400 exactly for other non-fatal business errors; everything else, including non-business errors, is 500, and a non-business error gets code "internal_error" |
| Errors.NewBusinessError | libs/errors/service_error.go:20-26 | non-fatal, with the given message and code |
| Errors.NewFatalError | libs/errors/service_error.go:29-35 | fatal, code "fatal_error", the given message |
| Errors.NewNotFoundError | libs/errors/service_error.go:38-44 | non-fatal, code "not_found" |
| Errors.NewValidationError | libs/errors/service_error.go:47-53 | non-fatal, code "validation_error" |
| Errors.NewBusinessUnauthorizedError | libs/errors/service_error.go:56-62 | non-fatal, code "unauthorized" |
| Errors.HandleFetcherErrorResponse | libs/errors/service_error.go:65-82 | an undecodable body gives the fixed fatal decode error; otherwise the message is kept, the error is fatal exactly when the body's status is not 400, 401 or 404, and the code follows that status; the status argument is ignored |
| Errors.FetchedThenHandled | libs/errors/service_error.go:72-81 | a received error body, handled and translated back to HTTP, keeps its message; 401 and 404 are kept; a 400 stays 400 unless its code is "not_found" or "unauthorized"; anything else becomes 500 |
| Errors.HandledThenFetched | libs/errors/service_error.go:72-81 | every business error that the constructors can build comes back unchanged after a trip through an HTTP error body |
| Errors.FatalNotFoundIsNotKept | libs/errors/api_error.go:82-83 | a fatal error coded "not_found" comes back from that trip as a non-fatal not-found error |
| RepositoryMapper.MapDomainToRepository | infrastructure/user_repository_mapper.go:22-32 | the document carries no identifier yet (the zero ObjectID) |
| RepositoryMapper.MapRepositoryToDomain | infrastructure/user_repository_mapper.go:34-46 | the user has the document's reference, active flag, both dates and profile; the identifier has no counterpart (see the round-trip lemmas) |
| RepositoryMapper.DomainRoundTrip | infrastructure/user_repository_mapper.go:34-46 | mapping a user to a document and back gives the same user |
| RepositoryMapper.RepositoryRoundTrip | infrastructure/user_repository_mapper.go:22-32 | mapping a document to a user and back loses only the identifier |
| RepositoryMapper.SameDomainUser | infrastructure/user_repository_mapper.go:34-46 | two documents map to the same user exactly when they differ at most in their identifier |
| RepositoryMapper.DomainList | infrastructure/user_repository_mapper.go:48-56 | same length, and each document is mapped at its own position |
| RepositoryMapper.DomainListMembership | infrastructure/user_repository_mapper.go:48-56 | a user is in the mapped list exactly when some document of the list maps to it |
| RepositoryMapper.MapRepositoryListToDomainList | infrastructure/user_repository_mapper.go:48-56 | the loop returns the same length, each document mapped at its own position |
| RepositoryMapper.MapRepositorySearchActiveToOutput | infrastructure/user_repository_mapper.go:58-67 | echoes total, page and size, and maps every document of the page at its position |
| Repository.Find | infrastructure/user_repository.go:48 | no more results than documents; a document is returned exactly when it is stored and satisfies the filter |
| Repository.FindOne | infrastructure/user_repository.go:92 | the first document that satisfies the filter, or none exactly when no document does |
| Repository.Page | infrastructure/user_repository.go:122-124 | at most `limit` documents, exactly the window starting at `skip`, clipped at the end |
| Repository.ReplaceOne | infrastructure/user_repository.go:182 | refused exactly when the first document with the reference has another identifier than the replacement; otherwise matched is 1 exactly when the reference is stored, the first document with it is replaced and counted as modified exactly when it differs, and without a match nothing changes |
| Repository.ReferenceFilter | infrastructure/user_repository.go:88-91 | a document passes exactly when its reference is the given one and, if only active users are asked for, it is active |
| Repository.SearchFilters | infrastructure/user_repository.go:109-121 | a document passes exactly when it is active and starts, ignoring case, with each non-empty name criterion; for a non-empty e-mail criterion, its e-mail must start with the last-name criterion |
| Repository.Skip | infrastructure/user_repository.go:123 | the offset of a 1-based page is (page - 1) * size, never negative |
| Repository.EveryMatchOnItsPage | infrastructure/user_repository.go:122-124 | the i-th match appears at position i mod size of page i / size + 1 |
| Repository.EmailCriterionIgnored | infrastructure/user_repository.go:118-121 | which non-empty e-mail is searched for makes no difference |
| Repository.EmailAloneFiltersNothing | infrastructure/user_repository.go:118-121 | with no last-name criterion, the e-mail criterion filters nothing |
| Repository.SameIndexWhenUnique | infrastructure/user_repository.go:203 | with unique references, the active lookup and the unrestricted lookup pick the same document |
| Repository.SoftDeleteHides | infrastructure/user_repository.go:210-224 | marking the active document of a reference as deleted matches and modifies exactly that document; afterwards the reference is still stored, but the active lookup finds nothing |
| Repository.ReactivatedIsFound | infrastructure/user_repository.go:180-182 | replacing a reference's document by an active one makes the active lookup find it, at the same position |
| Repository.ReplaceKeepsLifecycle | infrastructure/user_repository.go:180-182 | a replacement with the same reference and identifier and ordered dates keeps references unique and non-empty, keeps dates ordered, and removes nothing |
| Repository.InsertFreshKeepsLifecycle | infrastructure/user_repository.go:155-157 | inserting a fresh non-empty reference keeps the invariant, removes nothing, and adds exactly that reference |
| Repository.IncreasingIdsAreDistinct | infrastructure/user_repository.go:156 | identifiers that increase from one document to the next increase overall, so none repeats |
| Repository.UserRepository.IdentifiersDistinct | infrastructure/user_repository.go:156 | in a valid repository no two documents share an identifier |
| Repository.UserRepository.FindDocument | infrastructure/user_repository.go:83-103 | a store failure gives the zero document and the fixed error; otherwise the first matching document, or the zero document and no error when there is none |
| Repository.UserRepository.FindActiveByReference | infrastructure/user_repository.go:65-72 | without a failure, the returned user has a non-empty reference exactly when an active document with that reference is stored; that user is active, and it is that document without its identifier; when none is stored the zero user is returned without error |
| Repository.UserRepository.FindByReference | infrastructure/user_repository.go:74-81 | the same, ignoring the active flag, including the zero user when none is stored |
| Repository.UserRepository.FindAllActive | infrastructure/user_repository.go:43-63 | on failure, an empty list and the fixed error; otherwise the active documents in collection order, all active, and a stored document's user is listed exactly when the document is active |
| Repository.UserRepository.SearchActive | infrastructure/user_repository.go:105-149 | on failure, the zero output and the fixed error; otherwise the total counts all matches, page and size are echoed, the users are the requested window of the matches, at most size of them, all active; a size of 0 (a limit of 0, which the store reads as none) returns every match |
| Repository.UserRepository.Create | infrastructure/user_repository.go:151-165 | an identifier is always drawn; on failure nothing is stored and the zero user is returned; otherwise the user is appended with that identifier, which no stored document has, and returned unchanged |
| Repository.UserRepository.Update | infrastructure/user_repository.go:167-196 | lookup failure, not found, replace failure and an unmodified replacement each give their own error and change nothing; otherwise the first document with the reference is replaced, keeping its identifier |
| Repository.UserRepository.Delete | infrastructure/user_repository.go:198-227 | the active document is marked inactive and updated now; the mark is written at the first document with the reference; the same error cases as Update, with their own messages, and the delete error when the store refuses the mark because the first document with the reference is another one |
| UseCases.FindAll | user/find_all.go:28-36 | a repository failure is a fatal error with an empty list; otherwise the repository's list, in which a stored user appears exactly when active |
| UseCases.FindByReference | user/find_by_reference.go:30-43 | succeeds exactly when the store does not fail and an active user with that non-empty reference is stored, and then returns that user; a failure is fatal with the reference in its message; otherwise not-found |
| UseCases.Search | user/search.go:28-36 | a repository failure is fatal with the zero output; otherwise the repository's output unchanged, for any page of at least 1 and any size of at least 0 |
| UseCases.Create | user/create.go:31-53 | the user is active, created and updated at the same instant, with the input's profile, and stored as a new document; a failure is fatal and stores nothing; nothing stored is lost and the invariant is kept |
| UseCases.Update | user/update.go:31-56 | finds the user whatever its active flag; writes the input's profile, active and updated now, keeping reference and creation date; not-found, lookup failures and write failures are distinguished; nothing else changes and the invariant is kept |
| UseCases.Delete | user/delete.go:31-53 | finds the active user, writes it back inactive and updated now, and returns it; not-found, lookup failures and write failures are distinguished; nothing is removed and the invariant is kept |
| Scenarios.CreateThenFind | user/create.go:31-53 | a user just created is found by its reference, equal to what Create returned |
| Scenarios.DeleteTwice | user/delete.go:31-53 | a delete succeeds exactly when an active user with the reference is stored; after it succeeds, a second delete is not-found |
| Scenarios.UpdateAfterDelete | user/update.go:31-56 | after a successful delete, updating the same reference succeeds, the user is active again, and the lookup returns the updated user |
| Scenarios.OneUserLife | user/create.go:32-43 | on an empty repository: create gives an active user with created = updated; find returns it; delete returns it inactive; a second delete is not-found |
| HandlerMapper.TrimSpace | handler/user_mapper.go:74-76 | the result is the input without its leading and trailing white space: a trimmed piece of the input with only white space before and after it |
| HandlerMapper.TrimSpaceKeepsTrimmed | handler/user_mapper.go:74-76 | trimming leaves a string unchanged exactly when it neither starts nor ends with white space |
| HandlerMapper.TrimOfUnique | handler/user_mapper.go:74-76 | a string has only one trimmed form, so the reference definition determines TrimSpace |
| HandlerMapper.TrimSpaceIdempotent | handler/user_mapper.go:74-76 | trimming twice is trimming once |
| HandlerMapper.MapCreateRequestToInput | handler/user_mapper.go:72-78 | each field is the trimmed request field, and it is kept verbatim when already trimmed |
| HandlerMapper.MapCreateIdempotent | handler/user_mapper.go:72-78 | mapping a request built from a mapped input gives the same input |
| HandlerMapper.MapUpdateRequestToInput | handler/user_mapper.go:81-90 | the profile fields and the path reference are trimmed, and kept verbatim when already trimmed |
| HandlerMapper.MapDomainToResponse | handler/user_mapper.go:48-58 | the id is the reference; profile and flag are copied; both instants go through the same formatter |
| HandlerMapper.MapDomainListToResponseList | handler/user_mapper.go:61-69 | the loop gives one response per user, in order |

## Left out

- The HTTP layer is not part of this model: routing, query parsing with page and size defaults, validation tags, JSON encoding and status writing. The same holds for the health check, configuration, the database connection and logging.
- JSON decoding of a received error body is not modelled. `Errors.HandleFetcherErrorResponse` takes the decoded body, or `None` when the body does not decode.
- The store driver is not modelled. Each driver call's failure is a boolean parameter, and the error's own text is dropped because only the fixed messages reach callers. `FindAllActive` can fail in two driver calls and `SearchActive` in three; each has one flag.
- The clock and the UUID generator are parameters. `UseCases.Create` therefore takes the reference, and requires it non-empty and not yet stored, which a fresh UUID is in practice.
- UseCases.Create: requires that no stored timestamp lies after `now`. The new document's own dates are equal whatever the clock does; the requirement only lets Create promise that no stored timestamp lies after `now` afterwards, which later updates and deletes need for the invariant's date ordering.
- UseCases.Update: requires that no stored timestamp lies after `now`, because the invariant's date ordering (creation not after the last update) is kept only when the clock does not run backwards.
- UseCases.Delete: requires that no stored timestamp lies after `now`, because the invariant's date ordering (creation not after the last update) is kept only when the clock does not run backwards.
- Instants are integers. Conversion to UTC is the identity, and RFC 3339 formatting is a function parameter of `HandlerMapper.MapDomainToResponse`.
- `Time` counts the store's milliseconds, and `now` is assumed to be read at that resolution. A BSON datetime holds whole milliseconds, so the store truncates a finer clock reading when it writes it, while `user/create.go:32-52` returns the untruncated reading. The truncation is not modelled.
- Scenarios.CreateThenFind: states that the created user is found unchanged, which holds only under the millisecond assumption above; with a finer clock the lookup returns the dates truncated. The same assumption underlies the unmodified-replacement error of `Repository.UserRepository.Update` and `UseCases.Update`, which compare the stored, truncated values (infrastructure/user_repository.go:189).
- Repository.SearchFilters: prefix patterns are compared literally. Regex metacharacters in a criterion are not interpreted, and case folding covers ASCII letters only, where the regex engine also folds other letters.
- Repository.UserRepository.SearchActive: requires a page of at least 1 and a size of at least 0, which the handler guarantees when its configured paging defaults are at least 1 (handler/user.go:137-142; a missing configuration key decodes to 0). A page of 0 or below, which gives a negative skip, and a negative size are not modelled. A size of 0 is modelled: the limit is 0 and every match is returned. The 64-bit conversion of skip and limit, and its overflow, are not modelled.
- UseCases.Search: requires a page of at least 1 and a size of at least 0, for the same reason.
- Errors.HandleBusinessError: a business error is recognised only when it is the error itself (`ErrorValue.Business`). Go's `errors.As` (libs/errors/api_error.go:81) also finds a business error wrapped inside another error; that unwrapping is not modelled, and no caller in this core wraps one.
- Concurrent requests are not modelled. Each use case runs alone on the collection.
- A failed driver write (an `InsertOne` or `ReplaceOne` error) is assumed to have changed nothing. A write-concern error or a time-out reported after the write was applied is not modelled (infrastructure/user_repository.go:157-162, 182-187, 213-218).
- Repository.ReplaceOne: the store's refusal of a replacement that changes `_id` is modelled as one outcome, `IdAltered`, without the server's error text.
- The handler's search-output mapping and the search DTOs belong to the HTTP layer and are not part of this model.
- The `NotFoundErrorMessage` constant is not modelled because no code uses it.
