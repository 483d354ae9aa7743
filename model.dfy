/** The request and response bodies of the users API. */
module Model {
  import opened Wrappers

  /** Body of create and update; `password` may be null. */
  datatype UserCreateUpdateDto = UserCreateUpdateDto(name: string, username: string, password: Option<string>)

  /** The outward view of an account: no credential field. */
  datatype UserGetDto = UserGetDto(id: Option<int>, name: string, username: string)

  datatype UserPageResponseDto = UserPageResponseDto(
    content: seq<UserGetDto>,
    currentPage: int,
    pageSize: int,
    totalPages: int,
    totalElements: int)
}
