/** UserService: the account operations over the repository. Each method is proved to give
    exactly the outcome, and leave exactly the table, that module ServiceRules prescribes. */
module Service {
  import opened Wrappers
  import opened Errors
  import opened StringUtils
  import opened Security
  import opened Model
  import opened Repository
  import opened Mapper
  import ServiceRules

  /** The views of a page's entities, in order (the stream map over findAll's page). */
  function ToDtos(es: seq<UserEntity>): (dtos: seq<UserGetDto>)
    reads es
    ensures |dtos| == |es|
    ensures forall j :: 0 <= j < |es| ==> dtos[j] == ToDto(es[j])
  {
    if es == [] then [] else [ToDto(es[0])] + ToDtos(es[1..])
  }

  class UserService {
    const repository: UserRepository
    /** The password encoder; any function, since salting and the hash algorithm are not modelled. */
    const encoder: string -> string

    constructor (repository: UserRepository, encoder: string -> string)
      requires Repository.Valid(repository.State())
      ensures this.repository == repository && this.encoder == encoder
      ensures Valid()
    {
      this.repository := repository;
      this.encoder := encoder;
    }

    ghost predicate Valid()
      reads repository
    {
      Repository.Valid(repository.State())
    }

    method GetUserById(id: int) returns (r: Result<UserGetDto, ErrorKind>)
      ensures r == ServiceRules.GetUserById(repository.State(), id)
    {
      var found := repository.FindById(id);
      match found
      case None => r := Err(NotFound);
      case Some(entity) => r := Ok(ToDto(entity));
    }

    method DeleteUser(id: int, principal: Option<string>) returns (r: Result<(), ErrorKind>)
      requires Valid()
      modifies repository
      ensures Valid()
      ensures (r, repository.State()) == ServiceRules.DeleteUser(old(repository.State()), principal, id)
    {
      ghost var before := repository.State();
      ServiceRules.DeletePreservesValid(before, principal, id);
      var found := repository.FindById(id);
      if found.None? {
        return Err(NotFound);
      }
      if !IsCurrentAuthenticatedUsername(principal, found.value.username) {
        return Err(Forbidden);
      }
      repository.DeleteById(id);
      r := Ok(());
    }

    method GetUsersPageable(page: int, size: int) returns (r: Result<UserPageResponseDto, ErrorKind>)
      ensures r == ServiceRules.GetUsersPageable(repository.State(), page, size)
    {
      if page < 0 || size <= 0 {
        return Err(BadRequest);
      }
      var result := repository.FindAll(page, size);
      var dtos := ToDtos(result.content);
      assert dtos == ServiceRules.Views(FindPage(repository.State(), page, size).content);
      r := Ok(UserPageResponseDto(dtos, result.number, result.size, result.totalPages, result.totalElements));
    }

    method UpdateUser(id: int, dto: UserCreateUpdateDto, principal: Option<string>) returns (r: Result<UserGetDto, ErrorKind>)
      requires Valid()
      modifies repository
      ensures Valid()
      ensures (r, repository.State()) == ServiceRules.UpdateUser(old(repository.State()), principal, encoder, id, dto)
    {
      ghost var before := repository.State();
      ServiceRules.UpdatePreservesValid(before, principal, encoder, id, dto);
      var found := repository.FindById(id);
      if found.None? {
        return Err(NotFound);
      }
      var entity := found.value;
      if !IsCurrentAuthenticatedUsername(principal, entity.username) {
        return Err(Forbidden);
      }
      if entity.username != dto.username {
        var taken := repository.ExistsByUsername(dto.username);
        if taken {
          return Err(Conflict);
        }
      }
      UpdateEntityFromDto(dto, entity);
      if IsNotBlank(dto.password) {
        entity.password := Some(EncodePassword(encoder, dto.password.value));
      }
      entity := repository.Save(entity);
      r := Ok(ToDto(entity));
    }

    method CreateUser(dto: UserCreateUpdateDto) returns (r: Result<UserGetDto, ErrorKind>)
      requires Valid()
      modifies repository
      ensures Valid()
      ensures (r, repository.State()) == ServiceRules.CreateUser(old(repository.State()), encoder, dto)
    {
      ghost var before := repository.State();
      ServiceRules.CreatePreservesValid(before, encoder, dto);
      var taken := repository.ExistsByUsername(dto.username);
      if taken {
        return Err(Conflict);
      }
      if IsBlank(dto.password) {
        return Err(BadRequest);
      }
      var entity := ToEntity(dto);
      entity.password := Some(EncodePassword(encoder, dto.password.value));
      entity := repository.Save(entity);
      r := Ok(ToDto(entity));
    }
  }
}
