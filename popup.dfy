/** The popup controller of popup.js: the DOM state it touches, reduced to
    flags and values, and the extension storage as a map, updated in place by
    one method per handler. Clock readings and the HTTP outcome are
    parameters. */
module PopupController {
  import opened Storage
  import opened Cooldown

  class Popup {
    var disabled: bool            // buttonEl.disabled
    var countShown: bool          // buttonCountEl displayed (inline-block) or not (none)
    var countLabel: int           // the n of buttonCountEl's text "(n)"
    var interval: Option<int>     // countdownInterval, by the deadline it counts down to
    var textarea: string          // textareaEl.value
    var textareaHidden: bool      // textareaEl display none
    var authErrorShown: bool      // authErrorEl display block
    var loadingShown: bool        // loadingEl display block
    var lastUpdatedShown: bool    // lastUpdatedEl display block
    var lastUpdatedDate: Value    // the date last rendered into the "last updated" label
    var redirectedToLogin: bool   // the active tab was sent to the login page
    var store: map<Key, Value>    // chrome.storage.local

    function ButtonView(): Button
      reads this
    {
      Button(disabled, countShown, countLabel, interval)
    }

    /** The controller's invariant: the storage holds what the popup writes;
        the count label is shown exactly while the button is disabled; the
        textarea is hidden exactly while the auth error is shown; and a
        disabled button always has an interval counting down to the saved
        last press plus the cooldown window, so it is enabled again. */
    ghost predicate Valid()
      reads this
    {
      && WellTyped(store)
      && countShown == disabled
      && textareaHidden == authErrorShown
      && (disabled ==> countLabel > 0 && interval.Some?)
      && (interval.Some? ==> SavedDate(store) == Num(interval.value - Window))
    }

    /** The popup as the page loads it, before init runs, over the storage
        left by earlier sessions. */
    constructor (persisted: map<Key, Value>)
      requires WellTyped(persisted)
      ensures Valid() && store == persisted
      ensures ButtonView() == Button(false, false, 0, None)
      ensures textarea == "" && !textareaHidden && !authErrorShown && !loadingShown
      ensures !lastUpdatedShown && !redirectedToLogin
    {
      disabled, countShown, countLabel, interval := false, false, 0, None;
      textarea, textareaHidden, authErrorShown, loadingShown := "", false, false, false;
      lastUpdatedShown, lastUpdatedDate, redirectedToLogin := false, Null, false;
      store := persisted;
    }

    /** saveData(key, value). */
    method SaveData(key: Key, value: Value)
      modifies this`store
      ensures store == old(store)[key := value]
    {
      store := store[key := value];
    }

    /** removePriorRetrievedData. */
    method RemovePriorRetrievedData()
      requires Valid()
      modifies this`store
      ensures Valid()
      ensures store == WithoutRetrievedData(old(store))
      ensures SavedDate(store) == SavedDate(old(store))
    {
      store := WithoutRetrievedData(store);
    }

    /** showAuthError(show): hides the textarea and shows the notice, saving
        the auth marker, or undoes both and saves a null marker. */
    method ShowAuthError(show: bool)
      requires Valid()
      modifies this`textareaHidden, this`authErrorShown, this`store
      ensures Valid()
      ensures textareaHidden == show && authErrorShown == show
      ensures store == old(store)[LastError := if show then Text(AuthError) else Null]
    {
      if show {
        textareaHidden, authErrorShown := true, true;
        SaveData(LastError, Text(AuthError));
      } else {
        textareaHidden, authErrorShown := false, false;
        SaveData(LastError, Null);
      }
    }

    /** showLoading(show): showing the indicator also empties the textarea. */
    method ShowLoading(show: bool)
      modifies this`textarea, this`loadingShown
      ensures loadingShown == show
      ensures textarea == if show then "" else old(textarea)
    {
      if show {
        textarea := "";
        loadingShown := true;
      } else {
        loadingShown := false;
      }
    }

    /** changeLastUpdated(date): a falsy date hides the label. */
    method ChangeLastUpdated(date: Value)
      modifies this`lastUpdatedShown, this`lastUpdatedDate
      ensures lastUpdatedShown == Truthy(date)
      ensures lastUpdatedDate == if Truthy(date) then date else old(lastUpdatedDate)
    {
      if !Truthy(date) {
        lastUpdatedShown := false;
      } else {
        lastUpdatedShown := true;
        lastUpdatedDate := date;
      }
    }

    /** redirectToLogin. */
    method RedirectToLogin()
      modifies this`redirectedToLogin
      ensures redirectedToLogin
    {
      redirectedToLogin := true;
    }

    /** buttonCountdown(deadline) at `now`. */
    method ButtonCountdown(deadline: int, now: Time)
      modifies this`disabled, this`countShown, this`countLabel, this`interval
      ensures ButtonView() == CountdownStep(old(ButtonView()), deadline, now)
    {
      var countdown := Countdown(deadline, now);
      if countdown > 0 {
        disabled := true;
        countLabel := countdown;
        countShown := true;
      } else {
        disabled := false;
        countShown := false;
        interval := None;
      }
    }

    /** startCountdown(deadline) at `now`. */
    method StartCountdown(deadline: int, now: Time)
      modifies this`disabled, this`countShown, this`countLabel, this`interval
      ensures ButtonView() == StartedCountdown(old(ButtonView()), deadline, now)
    {
      ButtonCountdown(deadline, now);
      interval := Some(deadline);
    }

    /** One firing of the one-second interval at `now`. */
    method Tick(now: Time)
      requires Valid()
      modifies this`disabled, this`countShown, this`countLabel, this`interval
      ensures Valid()
      ensures ButtonView() == TimerFired(old(ButtonView()), now)
    {
      if interval.Some? {
        ButtonCountdown(interval.value, now);
      }
    }

    /** handleRateLimiting(lastPressed) at `now`: a truthy timestamp is saved,
        otherwise the saved one is read; with neither (first use) the button
        is left alone, and otherwise a countdown to that press plus the
        window is started. */
    method HandleRateLimiting(lastPressed: Option<Time>, now: Time)
      requires Valid()
      modifies this`store, this`disabled, this`countShown, this`countLabel, this`interval
      ensures Valid()
      ensures store == RecordPress(old(store), lastPressed)
      ensures SavedDate(store) == Null ==> ButtonView() == old(ButtonView())
      ensures SavedDate(store) != Null ==>
        ButtonView() == StartedCountdown(old(ButtonView()), SavedDate(store).thousandths + Window, now)
      ensures lastPressed.Some? && lastPressed.value != 0 ==>
        Get(store, LastPressedDate) == Num(lastPressed.value) && interval == Some(lastPressed.value + Window)
      ensures !(lastPressed.Some? && lastPressed.value != 0) && LastPressedDate !in old(store) ==>
        ButtonView() == old(ButtonView())
    {
      var known: Value;
      if lastPressed.Some? && lastPressed.value != 0 {
        SaveData(LastPressedDate, Num(lastPressed.value));
        known := Num(lastPressed.value);
      } else {
        known := SavedDate(store);
      }
      if known == Null {
        return;
      }
      var sinceLastPressed := now - known.thousandths;
      if sinceLastPressed < Window || !(now <= 0) {
        StartCountdown(known.thousandths + Window, now);
      }
    }

    /** init at `now`: the cooldown is evaluated from the saved press, the
        textarea, the "last updated" label and the auth notice are restored
        from storage, and the storage itself is left as it was. */
    method Init(now: Time)
      requires Valid()
      modifies this`store, this`textarea, this`textareaHidden, this`authErrorShown
      modifies this`lastUpdatedShown, this`lastUpdatedDate
      modifies this`disabled, this`countShown, this`countLabel, this`interval
      ensures Valid() && store == old(store)
      ensures SavedDate(store) == Null ==> ButtonView() == old(ButtonView())
      ensures SavedDate(store) != Null ==>
        ButtonView() == StartedCountdown(old(ButtonView()), SavedDate(store).thousandths + Window, now)
      ensures textarea == RestoredList(store)
      ensures lastUpdatedShown == Truthy(Get(store, FriendsIdsDate))
      ensures lastUpdatedDate == if lastUpdatedShown then store[FriendsIdsDate] else old(lastUpdatedDate)
      ensures Get(store, LastError) == Text(AuthError) ==> authErrorShown && textareaHidden
      ensures Get(store, LastError) != Text(AuthError) ==>
        authErrorShown == old(authErrorShown) && textareaHidden == old(textareaHidden)
    {
      HandleRateLimiting(None, now);
      assert store == old(store);
      textarea := RestoredList(store);
      ChangeLastUpdated(Get(store, FriendsIdsDate));
      if Get(store, LastError) == Text(AuthError) {
        ShowAuthError(true);
        assert store == old(store);
      }
    }

    /** handleResponseSuccess: the friends list is written to the textarea and
        saved with its retrieval date, which the label then shows. */
    method HandleResponseSuccess(friends: Option<string>, now: Time)
      requires Valid()
      modifies this`textarea, this`store, this`lastUpdatedShown, this`lastUpdatedDate
      ensures Valid()
      ensures textarea == FriendsJson(friends)
      ensures store == old(store)[FriendsIds := Text(FriendsJson(friends))][FriendsIdsDate := Num(now * MillisPerSecond)]
      ensures lastUpdatedShown == (now != 0)
      ensures lastUpdatedDate == if now != 0 then Num(now * MillisPerSecond) else old(lastUpdatedDate)
    {
      var friendIds := FriendsJson(friends);
      var lastUpdated := Num(now * MillisPerSecond);
      textarea := friendIds;
      SaveData(FriendsIds, Text(friendIds));
      ChangeLastUpdated(lastUpdated);
      SaveData(FriendsIdsDate, lastUpdated);
    }

    /** handleResponseFailure: a 401 shows the auth notice and redirects to
        the login page; any other status re-arms the cooldown from `now`. */
    method HandleResponseFailure(status: int, now: Time)
      requires Valid()
      modifies this`store, this`textareaHidden, this`authErrorShown, this`redirectedToLogin
      modifies this`disabled, this`countShown, this`countLabel, this`interval
      ensures Valid()
      ensures status == 401 ==> store == old(store)[LastError := Text(AuthError)]
      ensures status == 401 ==> authErrorShown && textareaHidden && redirectedToLogin
      ensures status == 401 ==> ButtonView() == old(ButtonView())
      ensures status != 401 ==> store == RecordPress(old(store), Some(now))
      ensures status != 401 ==>
        authErrorShown == old(authErrorShown) && textareaHidden == old(textareaHidden) &&
        redirectedToLogin == old(redirectedToLogin)
      ensures status != 401 && SavedDate(store) == Null ==> ButtonView() == old(ButtonView())
      ensures status != 401 && SavedDate(store) != Null ==>
        ButtonView() == StartedCountdown(old(ButtonView()), SavedDate(store).thousandths + Window, now)
    {
      if status == 401 {
        ShowAuthError(true);
        RedirectToLogin();
      } else {
        HandleRateLimiting(Some(now), now);
      }
    }

    /** The click handler up to the request (handleButtonEvent before its
        `await fetch`): nothing at all happens while the button is disabled;
        otherwise the loading indicator is shown over an emptied textarea and
        the request goes out. */
    method BeginRequest() returns (requested: bool)
      modifies this`textarea, this`loadingShown
      ensures requested == !disabled
      ensures requested ==> loadingShown && textarea == ""
      ensures !requested ==> textarea == old(textarea) && loadingShown == old(loadingShown)
    {
      if disabled {
        return false;
      }
      ShowLoading(true);
      requested := true;
    }

    /** The branch of the click handler on the response status (after the
        retrieved data is removed): a 200 clears the auth error, saves and
        shows the list and re-arms the cooldown from `now`; anything else
        goes to handleResponseFailure. */
    method RouteResponse(status: int, friends: Option<string>, now: Time)
      requires Valid()
      modifies this`store, this`textareaHidden, this`authErrorShown, this`redirectedToLogin
      modifies this`textarea, this`lastUpdatedShown, this`lastUpdatedDate
      modifies this`disabled, this`countShown, this`countLabel, this`interval
      ensures Valid()
      ensures status == 200 ==>
        store == RecordPress(old(store)[LastError := Null][FriendsIds := Text(FriendsJson(friends))]
                                       [FriendsIdsDate := Num(now * MillisPerSecond)], Some(now))
      ensures status == 401 ==> store == old(store)[LastError := Text(AuthError)]
      ensures status != 200 && status != 401 ==> store == RecordPress(old(store), Some(now))
      ensures status == 200 ==>
        textarea == FriendsJson(friends) && !authErrorShown && !textareaHidden &&
        lastUpdatedShown == (now != 0) &&
        lastUpdatedDate == if now != 0 then Num(now * MillisPerSecond) else old(lastUpdatedDate)
      ensures status != 200 ==>
        textarea == old(textarea) &&
        lastUpdatedShown == old(lastUpdatedShown) && lastUpdatedDate == old(lastUpdatedDate)
      ensures status == 401 ==> authErrorShown && textareaHidden && redirectedToLogin
      ensures status == 401 ==> ButtonView() == old(ButtonView())
      ensures status != 200 && status != 401 ==>
        authErrorShown == old(authErrorShown) && textareaHidden == old(textareaHidden)
      ensures status != 401 ==> redirectedToLogin == old(redirectedToLogin)
      ensures status != 401 && now != 0 ==>
        ButtonView() == StartedCountdown(old(ButtonView()), now + Window, now)
      ensures status != 401 && now == 0 && SavedDate(store) == Null ==> ButtonView() == old(ButtonView())
      ensures status != 401 && now == 0 && SavedDate(store) != Null ==>
        ButtonView() == StartedCountdown(old(ButtonView()), SavedDate(store).thousandths + Window, now)
    {
      if status == 200 {
        ShowAuthError(false);
        HandleResponseSuccess(friends, now);
        assert Get(store, LastPressedDate) == Get(old(store), LastPressedDate);
        HandleRateLimiting(Some(now), now);
      } else {
        HandleResponseFailure(status, now);
      }
    }

    /** The click handler after the response with `status` arrived at `now`:
        the retrieved data is removed, the response is routed by status, and
        the loading indicator is hidden whatever the outcome. */
    method HandleResponse(status: int, friends: Option<string>, now: Time)
      requires Valid()
      modifies this
      ensures Valid()
      ensures store == StoreAfterResponse(old(store), status, friends, now)
      ensures !loadingShown
      ensures status == 200 ==>
        textarea == FriendsJson(friends) && !authErrorShown && !textareaHidden &&
        lastUpdatedShown == (now != 0) &&
        lastUpdatedDate == if now != 0 then Num(now * MillisPerSecond) else old(lastUpdatedDate)
      ensures status != 200 ==>
        textarea == old(textarea) &&
        lastUpdatedShown == old(lastUpdatedShown) && lastUpdatedDate == old(lastUpdatedDate)
      ensures status == 401 ==> authErrorShown && textareaHidden && redirectedToLogin
      ensures status == 401 ==> ButtonView() == old(ButtonView())
      ensures status != 200 && status != 401 ==>
        authErrorShown == old(authErrorShown) && textareaHidden == old(textareaHidden)
      ensures status != 401 ==> redirectedToLogin == old(redirectedToLogin)
      ensures status != 401 && now != 0 ==>
        ButtonView() == StartedCountdown(old(ButtonView()), now + Window, now)
      ensures status != 401 && now == 0 && SavedDate(store) == Null ==> ButtonView() == old(ButtonView())
      ensures status != 401 && now == 0 && SavedDate(store) != Null ==>
        ButtonView() == StartedCountdown(old(ButtonView()), SavedDate(store).thousandths + Window, now)
      ensures status != 401 && now != 0 ==>
        disabled && countLabel == RateLimitTimeOut && interval == Some(now + Window)
    {
      RemovePriorRetrievedData();
      RouteResponse(status, friends, now);
      ShowLoading(false);
    }

    /** handleButtonEvent for a click answered with `status` at `now`. A click
        on a disabled button changes nothing and sends no request. */
    method HandleButtonEvent(status: int, friends: Option<string>, now: Time) returns (requested: bool)
      requires Valid()
      modifies this
      ensures Valid()
      ensures requested == !old(disabled)
      ensures !requested ==> unchanged(this)
      ensures requested ==> store == StoreAfterResponse(old(store), status, friends, now) && !loadingShown
      ensures requested && status == 200 ==> textarea == FriendsJson(friends) && !authErrorShown && !textareaHidden
      ensures requested && status == 200 ==>
        lastUpdatedShown == (now != 0) &&
        lastUpdatedDate == if now != 0 then Num(now * MillisPerSecond) else old(lastUpdatedDate)
      ensures requested && status != 200 ==>
        textarea == "" && lastUpdatedShown == old(lastUpdatedShown) && lastUpdatedDate == old(lastUpdatedDate)
      ensures requested && status != 200 && status != 401 ==>
        authErrorShown == old(authErrorShown) && textareaHidden == old(textareaHidden)
      ensures requested && status != 401 ==> redirectedToLogin == old(redirectedToLogin)
      ensures requested && status == 401 ==>
        authErrorShown && textareaHidden && redirectedToLogin && ButtonView() == old(ButtonView())
      ensures requested && status != 401 && now != 0 ==>
        disabled && countLabel == RateLimitTimeOut && interval == Some(now + Window)
      ensures requested && status != 401 && now == 0 && SavedDate(store) == Null ==> ButtonView() == old(ButtonView())
      ensures requested && status != 401 && now == 0 && SavedDate(store) != Null ==>
        ButtonView() == StartedCountdown(old(ButtonView()), SavedDate(store).thousandths + Window, now)
    {
      requested := BeginRequest();
      if requested {
        HandleResponse(status, friends, now);
      }
    }
  }
}
