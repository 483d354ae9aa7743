/** UserMapper: which fields move between the API bodies and the entity. */
module Mapper {
  import opened Wrappers
  import opened Model
  import opened Repository

  /** The view of the account stored as row `id`. */
  function View(id: int, row: UserRow): (view: UserGetDto) {
    UserGetDto(Some(id), row.name, row.username)
  }

  /** The outward view of an entity: the view of the row it saves, under its own id. */
  function ToDto(e: UserEntity): (dto: UserGetDto)
    reads e
    ensures dto.id == e.id
    ensures e.id.Some? ==> dto == View(e.id.value, e.Row())
  {
    UserGetDto(e.id, e.name, e.username)
  }

  /** The view keeps exactly the id, name and username: two entities have the same view
      when, and only when, they agree on those three fields, whatever their credentials. */
  lemma ToDtoKeepsIdentityOnly(a: UserEntity, b: UserEntity)
    ensures ToDto(a) == ToDto(b) <==> a.id == b.id && a.name == b.name && a.username == b.username
  {
  }

  /** A new, unsaved entity from a request body: the id and the password are not copied. */
  method ToEntity(dto: UserCreateUpdateDto) returns (e: UserEntity)
    ensures fresh(e)
    ensures e.id == None && e.password == None
    ensures e.name == dto.name && e.username == dto.username
  {
    e := new UserEntity(None, dto.name, dto.username, None);
  }

  /** Copies the request's name and username onto `entity`; its id and password are kept. */
  method UpdateEntityFromDto(dto: UserCreateUpdateDto, entity: UserEntity)
    modifies entity
    ensures entity.id == old(entity.id) && entity.password == old(entity.password)
    ensures entity.name == dto.name && entity.username == dto.username
  {
    entity.name := dto.name;
    entity.username := dto.username;
  }
}
