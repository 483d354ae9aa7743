/** The business rules of UserService as pure functions of the table: what each operation
    returns and what the table is afterwards. The class in module Service is proved to
    behave exactly like these. */
module ServiceRules {
  import opened Wrappers
  import opened Errors
  import opened StringUtils
  import opened Security
  import opened Model
  import opened Repository
  import opened Mapper

  function Views(items: seq<(int, UserRow)>): (views: seq<UserGetDto>) {
    seq(|items|, i requires 0 <= i < |items| => View(items[i].0, items[i].1))
  }

  /** getUserById: the only failure is NotFound; a found account comes back under its own id. */
  function GetUserById(s: Store, id: int): (r: Result<UserGetDto, ErrorKind>)
    ensures r.Err? ==> r.error == NotFound
    ensures r.Ok? ==> id in s.rows && r.value.id == Some(id)
  {
    if id in s.rows then Ok(View(id, s.rows[id])) else Err(NotFound)
  }

  /** deleteUser fails only with NotFound or Forbidden, and then changes nothing; a success
      removes row `id` and keeps the id generator. */
  function DeleteUser(s: Store, principal: Option<string>, id: int): (res: (Result<(), ErrorKind>, Store))
    ensures res.0.Err? ==> res.0.error in {NotFound, Forbidden} && res.1 == s
    ensures res.0.Ok? ==> id in s.rows && res.1.rows == s.rows - {id} && res.1.nextId == s.nextId
  {
    if id !in s.rows then (Err(NotFound), s)
    else if !IsCurrentAuthenticatedUsername(principal, s.rows[id].username) then (Err(Forbidden), s)
    else (Ok(()), s.(rows := s.rows - {id}))
  }

  /** getUsersPageable fails only with BadRequest; a page answers the requested page number
      and size and holds at most `size` views. */
  function GetUsersPageable(s: Store, page: int, size: int): (r: Result<UserPageResponseDto, ErrorKind>)
    ensures r.Err? ==> r.error == BadRequest
    ensures r.Ok? ==> r.value.currentPage == page && r.value.pageSize == size && |r.value.content| <= size
  {
    if page < 0 || size <= 0 then Err(BadRequest)
    else
      var p := FindPage(s, page, size);
      FindPageSlice(s, page, size);
      Ok(UserPageResponseDto(Views(p.content), p.number, p.size, p.totalPages, p.totalElements))
  }

  /** updateUser fails only with NotFound, Forbidden or Conflict, and then changes nothing; a
      success rewrites row `id` alone and keeps the set of ids and the generator. */
  function UpdateUser(s: Store, principal: Option<string>, encoder: string -> string, id: int, dto: UserCreateUpdateDto)
    : (res: (Result<UserGetDto, ErrorKind>, Store))
    ensures res.0.Err? ==> res.0.error in {NotFound, Forbidden, Conflict} && res.1 == s
    ensures res.0.Ok? ==>
              (id in s.rows && res.1.rows.Keys == s.rows.Keys && res.1.nextId == s.nextId
               && forall k :: k in s.rows && k != id ==> res.1.rows[k] == s.rows[k])
  {
    if id !in s.rows then (Err(NotFound), s)
    else
      var row := s.rows[id];
      if !IsCurrentAuthenticatedUsername(principal, row.username) then (Err(Forbidden), s)
      else if row.username != dto.username && UsernameExists(s, dto.username) then (Err(Conflict), s)
      else
        var password := if IsNotBlank(dto.password) then Some(EncodePassword(encoder, dto.password.value)) else row.password;
        var updated := UserRow(dto.name, dto.username, password);
        (Ok(View(id, updated)), s.(rows := s.rows[id := updated]))
  }

  /** createUser fails only with Conflict or BadRequest, and then changes nothing; a success
      adds a row under the generator's value and advances the generator. */
  function CreateUser(s: Store, encoder: string -> string, dto: UserCreateUpdateDto): (res: (Result<UserGetDto, ErrorKind>, Store))
    ensures res.0.Err? ==> res.0.error in {Conflict, BadRequest} && res.1 == s
    ensures res.0.Ok? ==>
              (res.0.value.id == Some(s.nextId) && s.nextId in res.1.rows
               && res.1.rows.Keys == s.rows.Keys + {s.nextId} && res.1.nextId == s.nextId + 1)
  {
    if UsernameExists(s, dto.username) then (Err(Conflict), s)
    else if IsBlank(dto.password) then (Err(BadRequest), s)
    else
      var row := UserRow(dto.name, dto.username, Some(EncodePassword(encoder, dto.password.value)));
      (Ok(View(s.nextId, row)), Store(s.rows[s.nextId := row], s.nextId + 1))
  }

  // ---- getUserById ----

  /** A stored account is returned as its view; an absent id fails NotFound. */
  lemma GetUserByIdOutcome(s: Store, id: int)
    ensures GetUserById(s, id).Err? <==> id !in s.rows
    ensures GetUserById(s, id).Err? ==> GetUserById(s, id).error == NotFound
    ensures id in s.rows ==>
      GetUserById(s, id).value == UserGetDto(Some(id), s.rows[id].name, s.rows[id].username)
  {
  }

  // ---- deleteUser ----

  /** NotFound wins over Forbidden; a failure leaves the table as it was; a success removes
      exactly row `id` and leaves every other row and the id generator alone. */
  lemma DeleteUserOutcome(s: Store, principal: Option<string>, id: int)
    ensures var (r, s') := DeleteUser(s, principal, id);
      && (r == Err(NotFound) <==> id !in s.rows)
      && (r == Err(Forbidden) <==> id in s.rows && !IsCurrentAuthenticatedUsername(principal, s.rows[id].username))
      && (r.Ok? <==> id in s.rows && IsCurrentAuthenticatedUsername(principal, s.rows[id].username))
      && (r.Err? ==> s' == s)
      && (r.Ok? ==> s'.nextId == s.nextId && s'.rows.Keys == s.rows.Keys - {id}
                    && forall k :: k in s'.rows ==> s'.rows[k] == s.rows[k])
  {
  }

  /** After a successful delete the account is gone and every other lookup is unchanged. */
  lemma GetAfterDelete(s: Store, principal: Option<string>, id: int, other: int)
    requires DeleteUser(s, principal, id).0.Ok?
    ensures GetUserById(DeleteUser(s, principal, id).1, id) == Err(NotFound)
    ensures other != id ==> GetUserById(DeleteUser(s, principal, id).1, other) == GetUserById(s, other)
  {
  }

  lemma DeletePreservesValid(s: Store, principal: Option<string>, id: int)
    requires Valid(s)
    ensures Valid(DeleteUser(s, principal, id).1)
  {
  }

  // ---- getUsersPageable ----

  /** Bad paging parameters fail BadRequest whatever the table holds: they are rejected
      before the table is read. Page 0 is a valid page. */
  lemma PagingValidatedFirst(s: Store, t: Store, page: int, size: int)
    ensures GetUsersPageable(s, page, size).Err? <==> page < 0 || size <= 0
    ensures page < 0 || size <= 0 ==> GetUsersPageable(s, page, size) == GetUsersPageable(t, page, size) == Err(BadRequest)
  {
  }

  /** A valid request gets the page's rows as views, in the table's order, at most `size` of
      them, each the same view getUserById gives for its id; the page number, size, page
      count and total are the repository's, and the total is the number of accounts. */
  lemma {:induction false} PageContent(s: Store, page: int, size: int)
    requires Valid(s) && 0 <= page && 0 < size
    ensures GetUsersPageable(s, page, size).Ok?
    ensures var r := GetUsersPageable(s, page, size).value;
      var p := FindPage(s, page, size);
      && r.content == Views(p.content)
      && r.currentPage == p.number == page
      && r.pageSize == p.size == size
      && r.totalPages == p.totalPages
      && r.totalElements == p.totalElements == |s.rows|
      && |r.content| <= size
      && (forall j :: 0 <= j < |r.content| ==>
            r.content[j].id.Some? && GetUserById(s, r.content[j].id.value) == Ok(r.content[j]))
      && (forall i, j :: 0 <= i < j < |r.content| ==> r.content[i].id.value < r.content[j].id.value)
  {
    FindPageSlice(s, page, size);
    FindPageCount(s, page, size);
  }

  // ---- updateUser ----

  /** The checks run in the order NotFound, Forbidden, Conflict; Conflict arises only for a
      new username that another account holds, never for keeping one's own; every failure
      leaves the table as it was. */
  lemma UpdateUserErrors(s: Store, principal: Option<string>, encoder: string -> string, id: int, dto: UserCreateUpdateDto)
    requires Valid(s)
    ensures var (r, s') := UpdateUser(s, principal, encoder, id, dto);
      && (r == Err(NotFound) <==> id !in s.rows)
      && (r == Err(Forbidden) <==> id in s.rows && !IsCurrentAuthenticatedUsername(principal, s.rows[id].username))
      && (r == Err(Conflict) <==>
            id in s.rows && IsCurrentAuthenticatedUsername(principal, s.rows[id].username)
            && exists other :: other in s.rows && other != id && s.rows[other].username == dto.username)
      && (dto.username == (if id in s.rows then s.rows[id].username else dto.username) ==> r != Err(Conflict))
      && (r.Ok? <==>
            id in s.rows && IsCurrentAuthenticatedUsername(principal, s.rows[id].username)
            && !(s.rows[id].username != dto.username && UsernameExists(s, dto.username)))
      && (r.Err? ==> s' == s)
  {
  }

  /** A caller who does not own the account gets Forbidden whatever the request says, so
      the answer reveals nothing about which usernames are taken. */
  lemma NonOwnerLearnsNothing(s: Store, principal: Option<string>, encoder: string -> string, id: int,
                              dto1: UserCreateUpdateDto, dto2: UserCreateUpdateDto)
    requires id in s.rows && !IsCurrentAuthenticatedUsername(principal, s.rows[id].username)
    ensures UpdateUser(s, principal, encoder, id, dto1) == UpdateUser(s, principal, encoder, id, dto2) == (Err(Forbidden), s)
  {
  }

  /** A successful update rewrites row `id` only: the name and username come from the
      request, the credential becomes the encoded new password when one is given and is kept
      when the password is null or blank; the id, the other rows and the generator stay. */
  lemma UpdateUserSuccess(s: Store, principal: Option<string>, encoder: string -> string, id: int, dto: UserCreateUpdateDto)
    requires UpdateUser(s, principal, encoder, id, dto).0.Ok?
    ensures var (r, s') := UpdateUser(s, principal, encoder, id, dto);
      && id in s.rows && s'.rows.Keys == s.rows.Keys && s'.nextId == s.nextId
      && s'.rows[id].name == dto.name && s'.rows[id].username == dto.username
      && s'.rows[id].password == (if IsBlank(dto.password) then s.rows[id].password else Some(encoder(dto.password.value)))
      && (forall k :: k in s.rows && k != id ==> s'.rows[k] == s.rows[k])
      && r.value == UserGetDto(Some(id), dto.name, dto.username)
      && GetUserById(s', id) == r
  {
  }

  /** With a null or blank password the encoder is never consulted: the outcome is the same
      for every encoder. */
  lemma BlankPasswordIgnoresEncoder(s: Store, principal: Option<string>, e1: string -> string, e2: string -> string,
                                    id: int, dto: UserCreateUpdateDto)
    requires IsBlank(dto.password)
    ensures UpdateUser(s, principal, e1, id, dto) == UpdateUser(s, principal, e2, id, dto)
    ensures CreateUser(s, e1, dto) == CreateUser(s, e2, dto)
  {
  }

  lemma UpdatePreservesValid(s: Store, principal: Option<string>, encoder: string -> string, id: int, dto: UserCreateUpdateDto)
    requires Valid(s)
    ensures Valid(UpdateUser(s, principal, encoder, id, dto).1)
  {
  }

  // ---- createUser ----

  /** Conflict is checked before the password: a taken username fails Conflict whatever the
      password; a free username with a null or blank password fails BadRequest; failures
      leave the table as it was. */
  lemma CreateUserErrors(s: Store, encoder: string -> string, dto: UserCreateUpdateDto)
    ensures var (r, s') := CreateUser(s, encoder, dto);
      && (r == Err(Conflict) <==> exists id :: id in s.rows && s.rows[id].username == dto.username)
      && (r == Err(BadRequest) <==> !UsernameExists(s, dto.username) && IsBlank(dto.password))
      && (r.Ok? <==> !UsernameExists(s, dto.username) && IsNotBlank(dto.password))
      && (r.Err? ==> s' == s)
  {
  }

  /** A successful create adds one row under a fresh id with the request's name and username
      and the encoded password as credential; every existing row stays as it was. */
  lemma CreateUserSuccess(s: Store, encoder: string -> string, dto: UserCreateUpdateDto)
    requires Valid(s) && CreateUser(s, encoder, dto).0.Ok?
    ensures var (r, s') := CreateUser(s, encoder, dto);
      && r.value.id == Some(s.nextId) && s.nextId !in s.rows
      && s'.rows.Keys == s.rows.Keys + {s.nextId} && |s'.rows| == |s.rows| + 1
      && s'.rows[s.nextId] == UserRow(dto.name, dto.username, Some(encoder(dto.password.value)))
      && (forall k :: k in s.rows ==> s'.rows[k] == s.rows[k])
  {
  }

  /** What create returns is what getUserById then finds (the same id, name and username). */
  lemma GetAfterCreate(s: Store, encoder: string -> string, dto: UserCreateUpdateDto)
    requires CreateUser(s, encoder, dto).0.Ok?
    ensures var (r, s') := CreateUser(s, encoder, dto);
      && r.value.id.Some? && r.value.name == dto.name && r.value.username == dto.username
      && GetUserById(s', r.value.id.value) == r
  {
  }

  /** Creating a second account with a username just created fails Conflict. */
  lemma {:induction false} CreateTwiceConflicts(s: Store, encoder: string -> string, dto: UserCreateUpdateDto, dto2: UserCreateUpdateDto)
    requires CreateUser(s, encoder, dto).0.Ok? && dto2.username == dto.username
    ensures CreateUser(CreateUser(s, encoder, dto).1, encoder, dto2) == (Err(Conflict), CreateUser(s, encoder, dto).1)
  {
    var s' := CreateUser(s, encoder, dto).1;
    assert s'.rows[s.nextId].username == dto2.username;
  }

  lemma CreatePreservesValid(s: Store, encoder: string -> string, dto: UserCreateUpdateDto)
    requires Valid(s)
    ensures Valid(CreateUser(s, encoder, dto).1)
  {
  }

  // ---- ownership ----

  /** On a valid table a principal owns at most one account. */
  lemma AtMostOneOwnedAccount(s: Store, principal: Option<string>, a: int, b: int)
    requires Valid(s) && a in s.rows && b in s.rows
    requires IsCurrentAuthenticatedUsername(principal, s.rows[a].username)
    requires IsCurrentAuthenticatedUsername(principal, s.rows[b].username)
    ensures a == b
  {
  }

  // ---- a worked scenario ----

  function AliceRequest(): (dto: UserCreateUpdateDto) {
    UserCreateUpdateDto("Alice", "alice123", Some("secret12345"))
  }

  /** The table after Alice signs up on an empty table. */
  function AliceTable(encoder: string -> string): (s: Store) {
    CreateUser(Store(map[], 1), encoder, AliceRequest()).1
  }

  /** On an empty table Alice's sign-up succeeds with id 1, and getUserById(1) returns the
      same id, name and username. */
  lemma AliceSignsUp(encoder: string -> string)
    ensures CreateUser(Store(map[], 1), encoder, AliceRequest()).0 == Ok(UserGetDto(Some(1), "Alice", "alice123"))
    ensures GetUserById(AliceTable(encoder), 1) == Ok(UserGetDto(Some(1), "Alice", "alice123"))
  {
  }

  /** "mallory" may not edit Alice's account, and the table stays as it was. */
  lemma MalloryCannotEditAlice(encoder: string -> string)
    ensures UpdateUser(AliceTable(encoder), Some("mallory"), encoder, 1, UserCreateUpdateDto("M", "mallory", None))
      == (Err(Forbidden), AliceTable(encoder))
  {
  }

  /** A second sign-up as "alice123" conflicts, whatever its name and password. */
  lemma SecondAliceConflicts(encoder: string -> string)
    ensures CreateUser(AliceTable(encoder), encoder, UserCreateUpdateDto("Other", "alice123", Some("pw")))
      == (Err(Conflict), AliceTable(encoder))
  {
  }

  /** Alice may delete her own account, after which its id is not found. */
  lemma AliceDeletesOwnAccount(encoder: string -> string)
    ensures DeleteUser(AliceTable(encoder), Some("alice123"), 1).0 == Ok(())
    ensures GetUserById(DeleteUser(AliceTable(encoder), Some("alice123"), 1).1, 1) == Err(NotFound)
  {
  }
}
