/** The records of the administrative store, without their time stamps. */
module Domain {

  const STATUS_ACTIVE := "active"
  const STATUS_DISABLED := "disabled"
  const PERMISSION_ALL := "*"

  datatype User = User(
    id: nat, username: string, nickname: string, email: string, phone: string,
    avatar: string, passwordHash: string, roleIDs: seq<nat>, status: string)

  datatype Role = Role(
    id: nat, name: string, code: string, description: string, permissions: seq<string>)

  datatype Menu = Menu(
    id: nat, parentID: nat, title: string, name: string, path: string, icon: string,
    component: string, permission: string, sort: int, hidden: bool, children: seq<Menu>)

  datatype PermissionDefinition = PermissionDefinition(
    code: string, name: string, owner: string, description: string)

  datatype DictionaryItem = DictionaryItem(text: string, value: string, sort: int)

  datatype Dictionary = Dictionary(id: nat, code: string, name: string, items: seq<DictionaryItem>)

  datatype Setting = Setting(id: nat, key: string, value: string, description: string)

  datatype Error =
    | NotFound
    | Conflict
    | InvalidReference
    | Validation(fields: seq<string>)
    | LastAdministrator
    | DisabledUser
    | InvalidCredentials
    | AdminAlreadyExists
    | AdminRoleNotFound
    | AdminUserNotFound
    | InvalidAdminInput

  datatype Result<+T> = Ok(value: T) | Err(error: Error)

  datatype Option<+T> = None | Some(value: T)
}
