/**
 * The few host-framework objects the plugins look at, reduced to the
 * attributes they read. Roles and members compare by id, as the framework's
 * objects do.
 */
module Discord {

  /** A guild role: its snowflake id and its display name. */
  datatype Role = Role(id: int, name: string)

  /** A guild member: its user id and its mention string. */
  datatype Member = Member(id: int, mention: string)

  /** A chat message, reduced to the id of its author. */
  datatype Message = Message(id: int, author: int)

  /** `role in roles` in Python: some element has the same id. */
  predicate HasRole(roles: seq<Role>, role: Role)
  {
    exists i :: 0 <= i < |roles| && roles[i].id == role.id
  }
}
