# User accounts service: a Dafny model

This project models the business rules of a small user-account REST service. The service
lets a caller:

- create an account;
- read one account by id, or a page of accounts;
- update or delete their own account.

The model covers the service layer (`UserService`), its ownership check and password encoder
(`SecurityUtil`), and the field-copying rules of `UserMapper`.

Modules, in dependency order:

- `Wrappers`, `Errors`: `Option` stands for Java's nullable values. `Result` stands for
  "returns a value or throws `ApplicationException`". `ErrorKind` is the exception's HTTP
  status: `NotFound`, `Forbidden`, `Conflict` or `BadRequest`.
- `StringUtils`: the blank test applied to passwords. A password is blank when it is null,
  empty, or made only of characters that Java's `Character.isWhitespace` accepts.
- `Security`: the ownership rule, as a predicate of an explicit principal. `None` means there is
  no authentication; `Some(name)` carries the authentication's name. The password encoder is
  a function value `encoder: string -> string`, about which nothing is assumed.
- `Model`: the API bodies `UserCreateUpdateDto`, `UserGetDto` and `UserPageResponseDto`.
- `Repository`: an in-memory stand-in for the JPA repository.
  - The table is a `map<int, UserRow>` plus the identity generator's next value.
  - `UserEntity` is a class with mutable fields, like the managed entity.
  - `UserRepository` holds the table. `findById` and `findAll` hand out fresh entities, and
    `save` writes an entity's columns back.
  - `Valid` is the table invariant: ids are positive and below the generator, every account
    has a credential, and usernames are unique.
- `Mapper`: `ToDto`, `ToEntity` and the in-place `UpdateEntityFromDto`. The last two never
  copy the id or the password.
- `ServiceRules`: each operation as a pure function from the table to the result and the new
  table, plus the lemmas about those functions.
- `Service`: the `UserService` class. Each method does what the source does, step by step, on
  the repository and on entities. Each method is proved to return exactly what the matching
  `ServiceRules` function says and to leave exactly the table it says. The mutating methods
  also keep `Valid`.

The password encoder is the only source of stored credentials. `ToEntity` leaves the password
empty, and `CreateUserSuccess` and `UpdateUserSuccess` state that a stored credential is
`encoder(password)` for the request's plaintext, with no other processing.

## Model

| member | source | states |
|---|---|---|
| `StringUtils.AllWhitespace` | src/main/java/com/homework/morosystems/service/UserService.java:101 | the blank test on a present password: true exactly when every character is Java whitespace (so the empty string is blank) |
| `StringUtils.BlankExamples` | src/test/java/com/homework/morosystems/service/UserServiceTest.java:166-194 | a null, empty or whitespace-only password is blank; "newPass" and a word padded with spaces are not |
| `StringUtils.IsBlank` | src/main/java/com/homework/morosystems/service/UserService.java:101 | a password is blank exactly when it is null or every one of its characters is Java whitespace |
| `StringUtils.IsNotBlank` | src/main/java/com/homework/morosystems/service/UserService.java:85 | a password counts as given exactly when it is present and holds at least one non-whitespace character |
| `Security.IsCurrentAuthenticatedUsername` | src/main/java/com/homework/morosystems/service/SecurityUtil.java:22-25 | true exactly when there is an authenticated principal and its name equals the username |
| `Security.NoPrincipalOwnsNothing` | src/main/java/com/homework/morosystems/service/SecurityUtil.java:22-25 | without an authenticated principal, no username is the current user's |
| `Security.OwnershipIsExactEquality` | src/main/java/com/homework/morosystems/service/SecurityUtil.java:22-25 | with a principal, the check holds exactly when the principal's name equals the username; the comparison is case-sensitive ("Alice" does not own "alice") |
| `Repository.FindPageSlice` | src/main/java/com/homework/morosystems/service/UserService.java:57-58 | the repository page for a valid request holds at most `size` stored rows, in ascending id order, with the requested page number and size |
| `Repository.FindPageCount` | src/main/java/com/homework/morosystems/service/UserService.java:58 | on a valid table the page's total element count is the number of stored accounts |
| `Repository.UserRepository.FindById` | src/main/java/com/homework/morosystems/service/UserService.java:33 | an absent id gives no entity; a present id gives a fresh entity carrying that id and the row's columns |
| `Repository.UserRepository.ExistsByUsername` | src/main/java/com/homework/morosystems/service/UserService.java:79 | true exactly when some stored account has that username |
| `Repository.UserRepository.Save` | src/main/java/com/homework/morosystems/service/UserService.java:107 | an entity without id is inserted under the next generated id, which is set on it; an entity with an id overwrites that row; returns the same entity |
| `Repository.UserRepository.DeleteById` | src/main/java/com/homework/morosystems/service/UserService.java:47 | removes exactly that id's row |
| `Repository.UserRepository.FindAll` | src/main/java/com/homework/morosystems/service/UserService.java:58 | returns one entity per row of the page, in order, with the page's numbers |
| `Mapper.ToDto` | src/main/java/com/homework/morosystems/mapper/UserMapper.java:13 | the view keeps the entity's id; for a saved entity it is the view of the row it saves under that id (name and username, never the password) |
| `Mapper.ToDtoKeepsIdentityOnly` | src/main/java/com/homework/morosystems/mapper/UserMapper.java:13 | the view carries the entity's id, name and username and nothing else: two entities have equal views exactly when those three fields agree |
| `Mapper.ToEntity` | src/main/java/com/homework/morosystems/mapper/UserMapper.java:15-17 | a new entity with no id and no password, and the request's name and username |
| `Mapper.UpdateEntityFromDto` | src/main/java/com/homework/morosystems/mapper/UserMapper.java:19-21 | overwrites name and username with the request's; keeps the entity's id and password |
| `Service.ToDtos` | src/main/java/com/homework/morosystems/service/UserService.java:59 | the page's entities mapped in order to their views, one view per entity |
| `Service.UserService.constructor` | src/main/java/com/homework/morosystems/service/UserService.java:27-29 | the service is built from its repository and password encoder |
| `Service.UserService.GetUserById` | src/main/java/com/homework/morosystems/service/UserService.java:32-36 | returns the view of the stored account, or NotFound; reads only |
| `Service.UserService.DeleteUser` | src/main/java/com/homework/morosystems/service/UserService.java:39-49 | outcome and new table are those of `ServiceRules.DeleteUser`; the table invariant is kept |
| `Service.UserService.GetUsersPageable` | src/main/java/com/homework/morosystems/service/UserService.java:52-67 | result is that of `ServiceRules.GetUsersPageable`; reads only |
| `Service.UserService.UpdateUser` | src/main/java/com/homework/morosystems/service/UserService.java:70-93 | outcome and new table are those of `ServiceRules.UpdateUser`; the table invariant, including unique usernames, is kept |
| `Service.UserService.CreateUser` | src/main/java/com/homework/morosystems/service/UserService.java:96-111 | outcome and new table are those of `ServiceRules.CreateUser`; the table invariant, including unique usernames, is kept |
| `ServiceRules.GetUserById` | src/main/java/com/homework/morosystems/service/UserService.java:32-36 | the only failure is NotFound; a found account is returned under the requested id |
| `ServiceRules.DeleteUser` | src/main/java/com/homework/morosystems/service/UserService.java:39-49 | fails only with NotFound or Forbidden and then leaves the table unchanged; a success needs the id to be present, removes that row and keeps the id generator |
| `ServiceRules.GetUsersPageable` | src/main/java/com/homework/morosystems/service/UserService.java:52-67 | the only failure is BadRequest; a page answers the requested page number and size and holds at most `size` views |
| `ServiceRules.UpdateUser` | src/main/java/com/homework/morosystems/service/UserService.java:70-93 | fails only with NotFound, Forbidden or Conflict and then leaves the table unchanged; a success needs the id to be present, keeps the set of ids and the generator, and changes no other row |
| `ServiceRules.CreateUser` | src/main/java/com/homework/morosystems/service/UserService.java:96-111 | fails only with Conflict or BadRequest and then leaves the table unchanged; a success returns the generator's value as the id, adds exactly that key and advances the generator |
| `ServiceRules.GetUserByIdOutcome` | src/main/java/com/homework/morosystems/service/UserService.java:32-35 | fails exactly when the id is absent, and then with NotFound; otherwise returns the stored id, name and username |
| `ServiceRules.DeleteUserOutcome` | src/main/java/com/homework/morosystems/service/UserService.java:39-47 | NotFound exactly for an absent id; Forbidden exactly for a present id the principal does not own; succeeds exactly when the id is present and owned by the principal; a failure leaves the table unchanged; a success removes exactly that id and leaves the other rows and the generator alone |
| `ServiceRules.GetAfterDelete` | src/main/java/com/homework/morosystems/service/UserService.java:47 | after a successful delete the id is NotFound and every other id reads as before |
| `ServiceRules.DeletePreservesValid` | src/main/java/com/homework/morosystems/service/UserService.java:47 | delete keeps the table invariant |
| `ServiceRules.PagingValidatedFirst` | src/main/java/com/homework/morosystems/service/UserService.java:53-55 | fails exactly when page < 0 or size <= 0 (page 0 is accepted), always with BadRequest, and the answer does not depend on the table |
| `ServiceRules.PageContent` | src/main/java/com/homework/morosystems/service/UserService.java:57-66 | for valid parameters the content is the page's rows mapped in order to views, at most `size` of them, each equal to what getUserById returns for its id; page number, size, page count and total are copied from the repository's page, and the total is the number of accounts |
| `ServiceRules.UpdateUserErrors` | src/main/java/com/homework/morosystems/service/UserService.java:71-82 | checks in the order NotFound, Forbidden, Conflict; Conflict exactly when the owner asks for a username another account holds; keeping one's own username never conflicts; succeeds exactly when the id is present, owned by the principal, and the new username is its own or free; every failure leaves the table unchanged |
| `ServiceRules.NonOwnerLearnsNothing` | src/main/java/com/homework/morosystems/service/UserService.java:74-76 | a non-owner gets Forbidden and an unchanged table whatever the request contains, so the username check is never reached |
| `ServiceRules.UpdateUserSuccess` | src/main/java/com/homework/morosystems/service/UserService.java:84-92 | on success only the account's row changes: name and username from the request; credential `encoder(password)` for a non-blank password, otherwise the old one; same id and key set; the returned view is what getUserById then finds |
| `ServiceRules.BlankPasswordIgnoresEncoder` | src/main/java/com/homework/morosystems/service/UserService.java:85-88 | with a null or blank password, update and create give the same outcome for every encoder, so the encoder is never consulted |
| `ServiceRules.UpdatePreservesValid` | src/main/java/com/homework/morosystems/service/UserService.java:78-89 | update keeps usernames unique and the rest of the table invariant |
| `ServiceRules.CreateUserErrors` | src/main/java/com/homework/morosystems/service/UserService.java:97-103 | Conflict exactly when the username is taken, whatever the password; BadRequest exactly when the username is free and the password is blank; succeeds exactly when the username is free and the password is not blank; failures leave the table unchanged |
| `ServiceRules.CreateUserSuccess` | src/main/java/com/homework/morosystems/service/UserService.java:105-110 | a success adds exactly one row, under a fresh id (the generator's value), holding the request's name and username and credential `encoder(password)`; existing rows are unchanged |
| `ServiceRules.GetAfterCreate` | src/main/java/com/homework/morosystems/service/UserService.java:105-110 | the created view has an id and the request's name and username, and getUserById on that id returns the same view |
| `ServiceRules.CreateTwiceConflicts` | src/main/java/com/homework/morosystems/service/UserService.java:97-99 | right after a successful create, a second create with the same username fails Conflict and changes nothing |
| `ServiceRules.CreatePreservesValid` | src/main/java/com/homework/morosystems/service/UserService.java:97-107 | create keeps usernames unique, gives the new account a credential, and keeps ids below the generator |
| `ServiceRules.AtMostOneOwnedAccount` | src/main/java/com/homework/morosystems/service/SecurityUtil.java:22-25 | on a valid table a principal owns at most one account |
| `ServiceRules.AliceSignsUp` | src/test/java/com/homework/morosystems/it/CreateUserIntegrationTest.java:26-55 | on an empty table, creating "alice123" succeeds with an id, and reading that id back returns the same id and username |
| `ServiceRules.MalloryCannotEditAlice` | src/test/java/com/homework/morosystems/service/UserServiceTest.java:208-217 | a user who does not own the account gets Forbidden on update and the table is unchanged |
| `ServiceRules.SecondAliceConflicts` | src/main/java/com/homework/morosystems/service/UserService.java:97-99 | a second create with a taken username gets Conflict and the table is unchanged |
| `ServiceRules.AliceDeletesOwnAccount` | src/test/java/com/homework/morosystems/service/UserServiceTest.java:92-102 | the owner's delete succeeds and the id is then not found |

## Left out

- HTTP routing, status wrapping and exception-to-response translation (`UserController`,
  `ControllerErrorHandler`, `ErrorMapper`) are not modelled. Neither is the message text of
  `ApplicationException`: only its status is kept, as `ErrorKind`.
- `OpenApiSpecConfig` is framework configuration plus a file read. It is not part of this model.
- The security context is thread-local global state. Here the principal is a parameter of
  `UpdateUser` and `DeleteUser`. `None` stands for a missing Authentication. Any Authentication
  that is present, anonymous ones included, is `Some(its name)`.
- The password encoder is an arbitrary deterministic function.
  - Salting is not modelled.
  - So the property "a new password always gives a different hash" is not stated.
  - Neither is "the credential is non-empty". The invariant only says a credential is present.
- Nulls in request fields are not modelled: names and usernames are strings, and ids and
  paging parameters are integers. Only the password may be null.
- Integer widths are not modelled: ids and paging parameters are unbounded integers. Java's
  `Integer` page and size cannot overflow the offset computation, which Spring does in `long`.
- Spring Data's `PageRequest`/`PageImpl` details are not modelled. The repository's page is a
  plain slice of the rows in ascending id order, and the page count is the total divided by
  the size, rounded up. The service copies these numbers without recomputing them.
- JPA managed-entity identity is simplified. Each load is a fresh copy that `save` writes
  back, and the mutations happen on that copy before `save`.
- Left out as infrastructure or concurrency: `@Transactional` boundaries, the check-then-write
  race on usernames between concurrent requests, the database's own uniqueness constraint,
  and logging.
- `StringUtils.IsWhitespace` works on Unicode scalar values, whereas Java's check works on
  UTF-16 code units. No supplementary character is whitespace in either, so the blank test
  agrees.
- Request validation is limited to what the service code checks:
  - an empty username is accepted, because `createUser` and `updateUser` never test it;
  - a taken username raises Conflict, and a blank password or bad paging parameters raise
    BadRequest (`UserService.java:97-103`, `UserService.java:53-55`);
  - page 0 is accepted: the guard at `UserService.java:53` rejects only negative pages, even
    though the message at line 54 says the page must be greater than 0.
