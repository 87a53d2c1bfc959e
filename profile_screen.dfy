/** The profile screen: what it shows for the store's user, and its logout
    button. Upper-casing is modelled for ASCII letters only. */
module ProfileScreen {
  import opened Wrappers
  import opened AuthStore

  const FallbackInitial := "U"
  const FallbackName := "Unnamed User"
  const LogoutRoute := "/home"

  predicate IsAsciiLower(c: char) {
    'a' <= c <= 'z'
  }

  /** `toUpperCase` on one ASCII character. */
  function ToUpperAscii(c: char): (u: char)
    ensures !IsAsciiLower(u)
    ensures IsAsciiLower(c) ==> u as int == c as int - 32
    ensures !IsAsciiLower(c) ==> u == c
  {
    if IsAsciiLower(c) then (c as int - 32) as char else c
  }

  /** JavaScript truthiness of an optional string: present and non-empty. */
  predicate Truthy(s: Option<string>)
    ensures s.None? ==> !Truthy(s)
    ensures s == Some("") ==> !Truthy(s)
    ensures Truthy(s) ==> |s.value| > 0
  {
    s.Some? && s.value != ""
  }

  /** The letter in the avatar circle: the name's first character upper-cased,
      or "U" when there is no name. */
  function AvatarInitial(name: Option<string>): (r: string)
    ensures |r| == 1 && !IsAsciiLower(r[0])
    ensures Truthy(name) ==> r == [ToUpperAscii(name.value[0])]
    ensures !Truthy(name) ==> r == FallbackInitial
  {
    if Truthy(name) then [ToUpperAscii(name.value[0])] else FallbackInitial
  }

  /** Two names whose first letters differ only in ASCII case get the same initial. */
  lemma AvatarInitialIgnoresCase(a: string, b: string)
    requires a != [] && b != []
    requires a[0] == b[0] || (IsAsciiLower(a[0]) && b[0] as int == a[0] as int - 32)
    ensures AvatarInitial(Some(a)) == AvatarInitial(Some(b))
  {
  }

  /** The name line: the name when it is non-empty, otherwise "Unnamed User";
      never empty. */
  function DisplayName(name: Option<string>): (r: string)
    ensures r != ""
    ensures Truthy(name) ==> r == name.value
    ensures !Truthy(name) ==> r == FallbackName
  {
    if Truthy(name) then name.value else FallbackName
  }

  datatype Avatar = Picture(uri: string) | Initial(letter: string)

  datatype ProfileView =
    | NotLoggedIn
    | Profile(avatar: Avatar, displayName: string, email: string)

  /** The screen for the store's `user`: the "not logged in" message when there
      is none; otherwise the picture when its URL is non-empty, else the initial,
      then the name line and the email. */
  function Render(user: Option<AuthUser>): (v: ProfileView)
    ensures v.NotLoggedIn? <==> user.None?
    ensures v.Profile? ==> && v.email == user.value.email
                           && v.displayName == DisplayName(user.value.name)
                           && (v.avatar.Picture? <==> Truthy(user.value.picture))
                           && (v.avatar.Picture? ==> v.avatar.uri == user.value.picture.value)
                           && (v.avatar.Initial? ==> v.avatar.letter == AvatarInitial(user.value.name))
  {
    match user
    case None => NotLoggedIn
    case Some(u) =>
      var avatar := if Truthy(u.picture) then Picture(u.picture.value) else Initial(AvatarInitial(u.name));
      Profile(avatar, DisplayName(u.name), u.email)
  }

  /** `handleLogout`: clears the store, then replaces the route with "/home",
      returned here. Afterwards the screen would show "not logged in". */
  method HandleLogout(store: Store) returns (route: string)
    modifies store
    ensures store.Valid() && store.user == None && !store.isLoggedIn
    ensures Render(store.user) == NotLoggedIn
    ensures route == LogoutRoute
  {
    store.ClearUser();
    route := LogoutRoute;
  }
}
