/** The popup's extension-local key/value storage: its keys, the JavaScript
    values it holds, and the changes the popup's handlers make to it, stated
    as functions on the map so that the handlers can be proved against them. */
module Storage {

  datatype Option<T> = None | Some(value: T)

  /** Wall-clock time in whole milliseconds since the epoch (`Date.getTime()`). */
  type Time = nat

  const MillisPerSecond := 1000

  /** The four keys the popup uses: 'pastFriendsIds', 'pastFriendsIdsDate',
      'lastError' and 'lastPressedDate'. */
  datatype Key = FriendsIds | FriendsIdsDate | LastError | LastPressedDate

  /** A stored JavaScript value. A number x is held exactly as the integer
      1000·x: the clock is read in whole milliseconds, so every number the
      popup computes (seconds = ms / 1000, or ms) is a whole number of
      thousandths. */
  datatype Value = Null | Num(thousandths: int) | Text(s: string)

  /** The marker saved under 'lastError' after an authentication failure. */
  const AuthError := "authError"

  /** JavaScript truthiness. A missing key reads as `undefined`, which `Get`
      turns into Null, falsy like it. */
  predicate Truthy(v: Value)
  {
    match v
    case Null => false
    case Num(n) => n != 0
    case Text(s) => s != ""
  }

  function Get(s: map<Key, Value>, k: Key): Value
  {
    if k in s then s[k] else Null
  }

  /** What the popup itself ever writes under each key: the cached list is a
      string, its date a number, the error marker null or 'authError', and the
      last press a clock reading. */
  predicate WellTyped(s: map<Key, Value>)
  {
    && (FriendsIds in s ==> s[FriendsIds].Text?)
    && (FriendsIdsDate in s ==> s[FriendsIdsDate].Num?)
    && (LastError in s ==> s[LastError] == Null || s[LastError] == Text(AuthError))
    && (LastPressedDate in s ==> s[LastPressedDate].Num? && s[LastPressedDate].thousandths >= 0)
  }

  /** getSavedDate: the stored 'lastPressedDate' if it is truthy, null otherwise. */
  function SavedDate(s: map<Key, Value>): (r: Value)
    ensures r == Null || Truthy(r)
    ensures !Truthy(Get(s, LastPressedDate)) ==> r == Null
    ensures Truthy(Get(s, LastPressedDate)) ==> r == s[LastPressedDate]
    ensures WellTyped(s) && r != Null ==> r.Num? && r.thousandths > 0
  {
    var v := Get(s, LastPressedDate);
    if Truthy(v) then v else Null
  }

  /** The storage half of handleRateLimiting: a truthy timestamp argument is
      saved as 'lastPressedDate'; a missing or zero one saves nothing. */
  function RecordPress(s: map<Key, Value>, lastPressed: Option<Time>): (r: map<Key, Value>)
    ensures WellTyped(s) ==> WellTyped(r)
    ensures forall k :: k != LastPressedDate ==> Get(r, k) == Get(s, k)
    ensures lastPressed.Some? && lastPressed.value != 0 ==>
      LastPressedDate in r && r[LastPressedDate] == Num(lastPressed.value) && SavedDate(r) == Num(lastPressed.value)
    ensures !(lastPressed.Some? && lastPressed.value != 0) ==> r == s
  {
    if lastPressed.Some? && lastPressed.value != 0 then s[LastPressedDate := Num(lastPressed.value)] else s
  }

  /** The text init puts in the textarea: the cached list if it is truthy,
      otherwise the empty string. */
  function RestoredList(s: map<Key, Value>): (r: string)
    requires WellTyped(s)
    ensures FriendsIds in s ==> r == s[FriendsIds].s
    ensures FriendsIds !in s ==> r == ""
  {
    var list := Get(s, FriendsIds);
    if Truthy(list) then list.s else ""
  }

  /** The keys removePriorRetrievedData deletes before each new request. */
  const RetrievedKeys: set<Key> := {LastError, FriendsIds, FriendsIdsDate}

  /** The storage after removePriorRetrievedData: exactly the retrieved data
      is gone and the last press is kept. */
  function WithoutRetrievedData(s: map<Key, Value>): (r: map<Key, Value>)
    ensures r.Keys == s.Keys - {LastError, FriendsIds, FriendsIdsDate}
    ensures Get(r, LastPressedDate) == Get(s, LastPressedDate)
    ensures WellTyped(s) ==> WellTyped(r)
  {
    s - RetrievedKeys
  }

  /** `JSON.stringify({ friends: x })`, where `friends` is the JSON text of x,
      or None when the response has no `friends` field (the key is then
      dropped and the object serialises as `{}`). */
  function FriendsJson(friends: Option<string>): (r: string)
    ensures |r| >= 2 && r[0] == '{' && r[|r| - 1] == '}'
  {
    match friends
    case None => "{}"
    case Some(j) => FriendsPrefix + j + "}"
  }

  const FriendsPrefix := "{\"friends\":"

  /** Reads the `friends` JSON text back out of a cached list: None when the
      text is not of the form FriendsJson produces. */
  function FriendsField(text: string): Option<Option<string>>
  {
    if text == "{}" then Some(None)
    else if |text| > |FriendsPrefix| && text[..|FriendsPrefix|] == FriendsPrefix && text[|text| - 1] == '}'
    then Some(Some(text[|FriendsPrefix|..|text| - 1]))
    else None
  }

  /** The cached list loses nothing: the friends value can be read back from it. */
  lemma FriendsJsonRoundTrip(friends: Option<string>)
    ensures FriendsField(FriendsJson(friends)) == Some(friends)
  {
  }

  /** The storage after a response with `status` arrived at time `now`, as
      handleButtonEvent leaves it: the retrieved data is removed first; a 200
      then saves the cleared error marker, the list and its date and records
      the press; a 401 saves the auth marker; any other status records the
      press. */
  function StoreAfterResponse(s: map<Key, Value>, status: int, friends: Option<string>, now: Time): (r: map<Key, Value>)
    ensures WellTyped(s) ==> WellTyped(r)
    // the cached list and its date are written together, and only on success
    ensures (FriendsIds in r) == (status == 200) == (FriendsIdsDate in r)
    ensures status == 200 ==> r[FriendsIds] == Text(FriendsJson(friends)) && r[FriendsIdsDate] == Num(now * MillisPerSecond)
    // the error marker is cleared on success, set on 401, and otherwise left removed
    ensures status == 200 ==> LastError in r && r[LastError] == Null
    ensures status == 401 ==> LastError in r && r[LastError] == Text(AuthError)
    ensures status != 200 && status != 401 ==> LastError !in r
    // a 401 leaves the last press alone; every other status records `now`
    ensures status == 401 ==> Get(r, LastPressedDate) == Get(s, LastPressedDate)
    ensures status != 401 && now != 0 ==> LastPressedDate in r && r[LastPressedDate] == Num(now)
    ensures status != 401 && now == 0 ==> Get(r, LastPressedDate) == Get(s, LastPressedDate)
  {
    var cleared := WithoutRetrievedData(s);
    if status == 200 then
      RecordPress(cleared[LastError := Null][FriendsIds := Text(FriendsJson(friends))][FriendsIdsDate := Num(now * MillisPerSecond)], Some(now))
    else if status == 401 then
      cleared[LastError := Text(AuthError)]
    else
      RecordPress(cleared, Some(now))
  }
}
