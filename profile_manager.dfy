/**
 * Profile selection (`selectUserProfile`) and creation (`createNewProfile`).
 * The users table is a value handed in and handed back: `createUser` appends a
 * user with the next id, or fails, which is an input.  Menu keys and typed
 * names are inputs too.
 */
module ProfileManager {
  import opened Wrappers
  import opened Text
  import SelectionMenu

  datatype User = User(id: int, username: string)

  /** What `getAllUsers` returns, and the id the next `createUser` hands out. */
  datatype Store = Store(users: seq<User>, nextId: int)

  /** A database call's result together with the table after it. */
  datatype Effect = Effect(result: Result<int, string>, store: Store)

  const DefaultName: string := "Default"
  const CreateOption: string := "Create New Profile"

  /** `db.createUser(name)`. */
  function CreateUser(st: Store, name: string, fails: bool): (e: Effect)
    ensures fails ==> e.result.Err? && e.store == st
    ensures !fails ==> e.result == Ok(st.nextId) &&
                       e.store == Store(st.users + [User(st.nextId, name)], st.nextId + 1)
  {
    if fails then Effect(Err("createUser failed"), st)
    else Effect(Ok(st.nextId), Store(st.users + [User(st.nextId, name)], st.nextId + 1))
  }

  /** `users.find(user => user.username === name)`: the first exact match. */
  function FindByName(users: seq<User>, name: string): (r: Option<nat>)
    ensures r.Some? ==> r.value < |users| && users[r.value].username == name &&
                        forall k :: 0 <= k < r.value ==> users[k].username != name
    ensures r.None? ==> forall k :: 0 <= k < |users| ==> users[k].username != name
  {
    if users == [] then None
    else if users[0].username == name then Some(0)
    else match FindByName(users[1..], name)
      case None => None
      case Some(k) => Some(k + 1)
  }

  /** `users.find(user => user.id === id)` */
  function FindById(users: seq<User>, id: int): (r: Option<User>)
    ensures r.Some? ==> r.value in users && r.value.id == id
    ensures r.None? ==> forall k :: 0 <= k < |users| ==> users[k].id != id
  {
    if users == [] then None
    else if users[0].id == id then Some(users[0])
    else FindById(users[1..], id)
  }

  /** The fallback used on ESC, on "exit" and when creation fails: the user
      named exactly "Default", created only when there is none. */
  function UseDefault(st: Store, fails: bool): Effect
  {
    match FindByName(st.users, DefaultName)
    case Some(k) => Effect(Ok(st.users[k].id), st)
    case None => CreateUser(st, DefaultName, fails)
  }

  /** An existing "Default" is reused and nothing is written; otherwise that one
      user is added, and a second fallback then reuses it. */
  lemma DefaultFindOrCreate(st: Store, fails: bool, laterFails: bool)
    ensures var e := UseDefault(st, fails);
            FindByName(st.users, DefaultName).Some? ==>
              e.store == st && e.result == Ok(st.users[FindByName(st.users, DefaultName).value].id)
    ensures var e := UseDefault(st, fails);
            FindByName(st.users, DefaultName).None? && !fails ==>
              e.store.users == st.users + [User(st.nextId, DefaultName)] && e.result == Ok(st.nextId)
    ensures var e := UseDefault(st, fails);
            e.result.Ok? ==> UseDefault(e.store, laterFails) == e
  {
    var e := UseDefault(st, fails);
    if FindByName(st.users, DefaultName).None? && !fails {
      var users := e.store.users;
      assert users[|st.users|].username == DefaultName;
      var k := FindByName(users, DefaultName);
      assert k == Some(|st.users|) by {
        assert forall j :: 0 <= j < |st.users| ==> users[j] == st.users[j];
      }
    }
  }

  /** When the fallback succeeds, the id it returns belongs to a user named
      exactly "Default" in the table after it. */
  lemma DefaultIsNamedDefault(st: Store, fails: bool)
    ensures var e := UseDefault(st, fails);
            e.result.Ok? ==>
              exists k :: 0 <= k < |e.store.users| && e.store.users[k].username == DefaultName &&
                          e.store.users[k].id == e.result.value
  {
    var e := UseDefault(st, fails);
    if e.result.Ok? {
      match FindByName(st.users, DefaultName)
      case Some(k) =>
        assert e.store.users[k].username == DefaultName;
      case None =>
        assert e.store.users[|st.users|] == User(st.nextId, DefaultName);
    }
  }

  // ---------------------------------------------------------------------
  // Validating a new username

  predicate IsAsciiAlphanumeric(c: char)
  {
    ('a' <= c <= 'z') || ('A' <= c <= 'Z') || ('0' <= c <= '9')
  }

  /** `/^[a-zA-Z0-9]+$/.test(name)` */
  predicate MatchesPattern(name: string)
  {
    name != [] && forall k :: 0 <= k < |name| ==> IsAsciiAlphanumeric(name[k])
  }

  /** Some existing username equals `name` up to letter case. */
  predicate NameTaken(users: seq<User>, name: string)
  {
    exists k :: 0 <= k < |users| && ToLower(users[k].username) == ToLower(name)
  }

  /** No two users whose names differ only in letter case. */
  ghost predicate UniqueIgnoringCase(users: seq<User>)
  {
    forall a, b :: 0 <= a < b < |users| ==> ToLower(users[a].username) != ToLower(users[b].username)
  }

  /** What one typed name does to the creation loop, in the order of the checks. */
  datatype Check = Cancel | BadLength | BadCharacters | Taken | Accept

  function Judge(users: seq<User>, name: string): Check
  {
    if ToLower(name) == "exit" then Cancel
    else if |name| < 3 || |name| > 20 then BadLength
    else if !MatchesPattern(name) then BadCharacters
    else if NameTaken(users, name) then Taken
    else Accept
  }

  /** A name that leaves the loop. */
  predicate Decides(users: seq<User>, name: string)
  {
    Judge(users, name) == Cancel || Judge(users, name) == Accept
  }

  /** The first typed name that leaves the loop. */
  function Decisive(users: seq<User>, typed: seq<string>): (r: Option<nat>)
    ensures r.Some? ==> r.value < |typed| && Decides(users, typed[r.value]) &&
                        forall k :: 0 <= k < r.value ==> !Decides(users, typed[k])
    ensures r.None? ==> forall k :: 0 <= k < |typed| ==> !Decides(users, typed[k])
  {
    if typed == [] then None
    else if Decides(users, typed[0]) then Some(0)
    else match Decisive(users, typed[1..])
      case None => None
      case Some(j) => Some(j + 1)
  }

  /** How profile creation ends: the name registered, a cancellation, a failed
      registration that fell back to "Default", or still asking for a name. */
  datatype Registration =
    | Registered(name: string, effect: Effect)
    | Cancelled(effect: Effect)
    | FellBack(name: string, effect: Effect)
    | StillAsking

  function Register(st: Store, typed: seq<string>, createFails: bool, defaultFails: bool): Registration
  {
    match Decisive(st.users, typed)
    case None => StillAsking
    case Some(j) =>
      if Judge(st.users, typed[j]) == Cancel then Cancelled(UseDefault(st, defaultFails))
      else
        var e := CreateUser(st, typed[j], createFails);
        if e.result.Ok? then Registered(typed[j], e) else FellBack(typed[j], UseDefault(st, defaultFails))
  }

  /** The creation loop over the typed names. */
  method CreateNewProfile(st: Store, typed: seq<string>, createFails: bool, defaultFails: bool)
    returns (r: Registration)
    ensures r == Register(st, typed, createFails, defaultFails)
  {
    var username := "";
    var isValidUsername := false;
    var i := 0;
    while !isValidUsername
      invariant 0 <= i <= |typed|
      invariant !isValidUsername ==> forall k :: 0 <= k < i ==> !Decides(st.users, typed[k])
      invariant isValidUsername ==>
                  1 <= i && username == typed[i - 1] && Judge(st.users, username) == Accept &&
                  forall k :: 0 <= k < i - 1 ==> !Decides(st.users, typed[k])
      decreases |typed| - i, if isValidUsername then 0 else 1
    {
      if i == |typed| {
        r := StillAsking;
        return;
      }
      username := typed[i];
      i := i + 1;
      if ToLower(username) == "exit" {
        r := Cancelled(UseDefault(st, defaultFails));
        return;
      }
      if |username| < 3 || |username| > 20 {
        continue;
      }
      if !MatchesPattern(username) {
        continue;
      }
      var taken := NameTaken(st.users, username);
      if taken {
        continue;
      }
      isValidUsername := true;
    }
    var e := CreateUser(st, username, createFails);
    if e.result.Ok? {
      r := Registered(username, e);
    } else {
      r := FellBack(username, UseDefault(st, defaultFails));
    }
  }

  /** A registered name was typed, has 3 to 20 ASCII letters and digits, is not
      "exit" in any case, clashes with no existing name in any case, and is
      appended to the table with the next id. */
  lemma RegisteredNameIsValid(st: Store, typed: seq<string>, createFails: bool, defaultFails: bool)
    requires Register(st, typed, createFails, defaultFails).Registered?
    ensures var r := Register(st, typed, createFails, defaultFails);
            r.name in typed && 3 <= |r.name| <= 20 && MatchesPattern(r.name) &&
            ToLower(r.name) != "exit" && !NameTaken(st.users, r.name) &&
            r.effect == Effect(Ok(st.nextId), Store(st.users + [User(st.nextId, r.name)], st.nextId + 1))
  {
  }

  /** Registration keeps the table free of names that differ only in case. */
  lemma RegistrationKeepsNamesUnique(st: Store, typed: seq<string>, createFails: bool, defaultFails: bool)
    requires UniqueIgnoringCase(st.users)
    requires Register(st, typed, createFails, defaultFails).Registered?
    ensures UniqueIgnoringCase(Register(st, typed, createFails, defaultFails).effect.store.users)
  {
    var r := Register(st, typed, createFails, defaultFails);
    var users := r.effect.store.users;
    forall a, b | 0 <= a < b < |users|
      ensures ToLower(users[a].username) != ToLower(users[b].username)
    {
      if b == |st.users| {
        assert users[a] == st.users[a];
        assert !NameTaken(st.users, r.name);
      } else {
        assert users[a] == st.users[a] && users[b] == st.users[b];
      }
    }
  }

  /** "exit" in any letter case, typed before any acceptable name, cancels to
      "Default"; so it can never become a username. */
  lemma ExitCancels(st: Store, typed: seq<string>, createFails: bool, defaultFails: bool, k: nat)
    requires k < |typed| && ToLower(typed[k]) == "exit"
    requires forall j :: 0 <= j < k ==> !Decides(st.users, typed[j])
    ensures Register(st, typed, createFails, defaultFails) == Cancelled(UseDefault(st, defaultFails))
  {
    assert Decides(st.users, typed[k]);
    var d := Decisive(st.users, typed);
    assert d.Some? && d.value <= k;
  }

  /** The "Default" lookup is case-sensitive while the uniqueness check is not:
      next to a user such as "default", the fallback creates "Default" and
      the store no longer has unique names. */
  lemma DefaultLookupIsCaseSensitive(st: Store, k: nat)
    requires UniqueIgnoringCase(st.users)
    requires k < |st.users| && st.users[k].username != DefaultName
    requires ToLower(st.users[k].username) == ToLower(DefaultName)
    ensures NameTaken(st.users, DefaultName)
    ensures UseDefault(st, false).store.users == st.users + [User(st.nextId, DefaultName)]
    ensures !UniqueIgnoringCase(UseDefault(st, false).store.users)
  {
    ExactLookupMisses(st.users, DefaultName, k);
    var users := UseDefault(st, false).store.users;
    assert users[k] == st.users[k] && users[|st.users|].username == DefaultName;
  }

  /** In a store with unique names, a name that matches user `k` only up to
      letter case has no exact match. */
  lemma ExactLookupMisses(users: seq<User>, name: string, k: nat)
    requires UniqueIgnoringCase(users)
    requires k < |users| && users[k].username != name && ToLower(users[k].username) == ToLower(name)
    ensures FindByName(users, name) == None
  {
    forall j | 0 <= j < |users| ensures users[j].username != name {
      if j < k {
        assert ToLower(users[j].username) != ToLower(users[k].username);
      } else if j > k {
        assert ToLower(users[k].username) != ToLower(users[j].username);
      }
    }
  }

  /** When `createUser` fails, nothing is registered: the loop ends in the
      "Default" fallback, and a successful fallback returns the id of a user
      named exactly "Default". */
  lemma FailedCreationFallsBack(st: Store, typed: seq<string>, defaultFails: bool)
    ensures !Register(st, typed, true, defaultFails).Registered?
    ensures var r := Register(st, typed, true, defaultFails);
            r.FellBack? ==> r.effect == UseDefault(st, defaultFails)
    ensures var r := Register(st, typed, true, defaultFails);
            r.FellBack? && r.effect.result.Ok? ==>
              exists k :: 0 <= k < |r.effect.store.users| &&
                          r.effect.store.users[k].username == DefaultName &&
                          r.effect.store.users[k].id == r.effect.result.value
  {
    DefaultIsNamedDefault(st, defaultFails);
  }

  // ---------------------------------------------------------------------
  // Selecting a profile

  /** The menu options: create, then every username in order. */
  function ProfileOptions(users: seq<User>): (options: seq<string>)
    ensures |options| == |users| + 1 && options[0] == CreateOption
    ensures forall i :: 0 <= i < |users| ==> options[i + 1] == users[i].username
  {
    [CreateOption] + seq(|users|, i requires 0 <= i < |users| => users[i].username)
  }

  /** What a menu result leads to; None while nothing is settled (the keys ran
      out, Ctrl-C, or the creation loop is still asking). */
  function AfterMenu(st: Store, menu: SelectionMenu.Outcome, typed: seq<string>,
                     createFails: bool, defaultFails: bool): Option<Effect>
  {
    match menu
    case Chosen(i) =>
      if i == -1 then Some(UseDefault(st, defaultFails))
      else if i == 0 then
        match Register(st, typed, createFails, defaultFails)
        case StillAsking => None
        case Registered(_, e) => Some(e)
        case Cancelled(e) => Some(e)
        case FellBack(_, e) => Some(e)
      else if 1 <= i <= |st.users| then Some(Effect(Ok(st.users[i - 1].id), st))
      else None
    case _ => None
  }

  method SelectUserProfile(st: Store, keys: seq<SelectionMenu.Key>, typed: seq<string>,
                           createFails: bool, defaultFails: bool)
    returns (r: Option<Effect>)
    ensures r == AfterMenu(st, SelectionMenu.Navigate(|st.users| + 1, 0, keys), typed, createFails, defaultFails)
  {
    var options := ProfileOptions(st.users);
    var menu, _ := SelectionMenu.DisplaySelectionMenu(
      options, "Select a user profile:\nSelect an existing profile or create a new one.", 0, keys);
    if !menu.Chosen? {
      r := None;
      return;
    }
    var selectedIdx := menu.index;
    if selectedIdx == -1 {
      r := Some(UseDefault(st, defaultFails));
      return;
    }
    if selectedIdx == 0 {
      var registration := CreateNewProfile(st, typed, createFails, defaultFails);
      r := match registration
           case StillAsking => None
           case Registered(_, e) => Some(e)
           case Cancelled(e) => Some(e)
           case FellBack(_, e) => Some(e);
      return;
    }
    if 1 <= selectedIdx <= |st.users| {
      r := Some(Effect(Ok(st.users[selectedIdx - 1].id), st));
    } else {
      r := None;
    }
  }

  /** The menu starts on "Create New Profile", so it never answers -1: the ESC
      fallback is unreachable, and every answer is an option's index. */
  lemma EscapeUnreachable(users: seq<User>, keys: seq<SelectionMenu.Key>)
    ensures SelectionMenu.Navigate(|ProfileOptions(users)|, 0, keys) != SelectionMenu.Chosen(-1)
    ensures var m := SelectionMenu.Navigate(|ProfileOptions(users)|, 0, keys);
            m.Chosen? ==> 0 <= m.index <= |users|
  {
    SelectionMenu.StartAtZeroNeverCancels(|users| + 1, keys);
    SelectionMenu.InRangeStays(|users| + 1, 0, keys);
  }

  /** Option i >= 1 shows user i - 1's name and selects that user's id,
      writing nothing. */
  lemma ChosenUserMatchesOption(st: Store, i: int, typed: seq<string>, createFails: bool, defaultFails: bool)
    requires 1 <= i <= |st.users|
    ensures ProfileOptions(st.users)[i] == st.users[i - 1].username
    ensures AfterMenu(st, SelectionMenu.Chosen(i), typed, createFails, defaultFails)
            == Some(Effect(Ok(st.users[i - 1].id), st))
  {
    assert ProfileOptions(st.users)[(i - 1) + 1] == st.users[i - 1].username;
  }
}
