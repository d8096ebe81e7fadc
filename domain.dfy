/** The domain entities of the user service. */
module Domain {

  /** An instant on the UTC time line; 0 is the zero time value. */
  type Time = int

  const ZeroTime: Time := 0

  /** A user as the use cases see it (domain/user.go, domain/common.go). */
  datatype User = User(
    reference: string,
    isActive: bool,
    createdDate: Time,
    updatedDate: Time,
    firstName: string,
    lastName: string,
    email: string)

  /** The zero value of User, which the repository also uses as "not found". */
  const ZeroUser := User("", false, ZeroTime, ZeroTime, "", "", "")

  datatype UserCreateInput = UserCreateInput(firstName: string, lastName: string, email: string)

  datatype UserUpdateInput = UserUpdateInput(
    firstName: string,
    lastName: string,
    email: string,
    reference: string)

  /** Search criteria: optional prefixes (empty means "no filter") and 1-based paging. */
  datatype UserSearchInput = UserSearchInput(
    page: int,
    pageSize: int,
    firstName: string,
    lastName: string,
    email: string)

  datatype UserSearchOutput = UserSearchOutput(
    total: int,
    page: int,
    pageSize: int,
    users: seq<User>)

  const ZeroSearchOutput := UserSearchOutput(0, 0, 0, [])
}
