/** Who sent a message, and how the bot names them. */
module Users {
  import opened PyText

  /** Telegram user ids are integers. */
  type UserId = int

  /** The fields of a Telegram user that the bot reads. `fullName` and
      `username` may be missing or empty. */
  datatype User = User(id: UserId, fullName: Option<string>, username: Option<string>)

  /** `full_name or username or str(user_id)`: the first non-empty candidate. */
  function DisplayName(fullName: Option<string>, username: Option<string>, id: UserId): (r: string)
    ensures r != ""
    ensures Truthy(fullName) ==> r == fullName.value
    ensures !Truthy(fullName) && Truthy(username) ==> r == username.value
    ensures !Truthy(fullName) && !Truthy(username) ==> ParseInt(r) == Some(id)
  {
    if Truthy(fullName) then fullName.value
    else if Truthy(username) then username.value
    else IntToStringRoundTrip(id); IntToString(id)
  }

  /** No user id occurs twice (the keys of a dict, in insertion order). */
  predicate Distinct(ids: seq<UserId>) {
    forall i, j :: 0 <= i < j < |ids| ==> ids[i] != ids[j]
  }
}
