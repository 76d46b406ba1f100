/**
 Identity resolution: Trac user names are looked up in the configured
 `usernames` table and fall back to `default_user` when the table has no
 entry, so resolution never fails. The final `get_user_id` call on the GitLab
 side is a destination lookup and is not modelled: identities are resolved to
 GitLab user names.
 */
module Identity {
  import opened Common

  /** The `usernames` table and the `default_user` of the `[target]` section. */
  datatype UserMap = UserMap(names: map<string, string>, fallback: string)

  /** `users_map[who]`, or the default user when the lookup raises `KeyError`. */
  function Resolve(users: UserMap, who: string): (name: string)
    ensures who in users.names ==> name == users.names[who]
    ensures who !in users.names ==> name == users.fallback
    ensures name in users.names.Values || name == users.fallback
  {
    if who in users.names then users.names[who] else users.fallback
  }

  /** A ticket's assignee: none for an empty owner, otherwise the resolved owner. */
  function Assignee(users: UserMap, owner: string): (assignee: Option<string>)
    ensures assignee.None? <==> owner == ""
    ensures assignee.Some? ==> assignee.value in users.names.Values || assignee.value == users.fallback
    ensures assignee.Some? && owner !in users.names ==> assignee.value == users.fallback
    ensures assignee.Some? && owner in users.names ==> assignee.value == users.names[owner]
  {
    if owner != "" then Some(Resolve(users, owner)) else None
  }
}
