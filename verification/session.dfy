/**
 * The login state of `src/auth/session_manager.py`'s `SessionManager`: the HTTP session's
 * cookie jar, the logged-in flag, the user information, the time of last activity, and
 * the cookie file `data/cookies.json`. Every transition is a function of the state and of
 * what the outside world answered (the probe response, the credentials, the login
 * outcome); time is whole seconds.
 */
module Session {
  import opened Wrappers
  import opened Strings
  import opened OrderedDict
  import Credentials

  /** Cookies are kept for a day. */
  const MaxCookieAge: int := 24 * 3600

  /** One cookie of the jar. Cookies set from a plain name/value mapping have no domain. */
  datatype Cookie = Cookie(name: String, value: String, domain: String)

  /** The jar, in the order iterating over it yields the cookies. */
  type Jar = seq<Cookie>

  /** The JSON document in the cookie file. */
  datatype StoredCookies =
    | Stamped(cookies: Dict, timestamp: Option<int>, createdAt: String, userInfo: Dict)
        // an object with a `cookies` entry (the format `save_cookies` writes)
    | Legacy(cookies: Dict)  // an object without a `cookies` entry: the cookies themselves
    | NotAnObject            // valid JSON of another kind
    | Unreadable             // the file cannot be read or is not JSON

  datatype Manager = Manager(jar: Jar, loggedIn: bool, userInfo: Dict, lastActivity: int,
                             file: Option<StoredCookies>)

  /** A new manager: empty jar, logged out, no activity yet; the cookie file is whatever is on
      disk. */
  function Init(file: Option<StoredCookies>): (m: Manager)
    ensures m.jar == [] && !m.loggedIn && m.userInfo == [] && m.file == file
  {
    Manager([], false, [], 0, file)
  }

  /** `set_logged_in`: the flag set, the given user information or an empty one, and the
      activity time refreshed. */
  function SetLoggedIn(m: Manager, info: Option<Dict>, now: int): (r: Manager)
    ensures r.loggedIn && r.lastActivity == now
    ensures r.userInfo == info.GetOr([])
    ensures r.jar == m.jar && r.file == m.file
  {
    m.(loggedIn := true, userInfo := info.GetOr([]), lastActivity := now)
  }

  /** `set_logged_out`: the flag cleared and the user information emptied; nothing else. */
  function SetLoggedOut(m: Manager): (r: Manager)
    ensures !r.loggedIn && r.userInfo == []
    ensures r.jar == m.jar && r.file == m.file && r.lastActivity == m.lastActivity
  {
    m.(loggedIn := false, userInfo := [])
  }

  // ---------------------------------------------------------------------------------------
  // The cookie jar
  // ---------------------------------------------------------------------------------------

  /** Two cookies occupy the same place in the jar when they agree on name and domain. */
  predicate SameSlot(a: Cookie, b: Cookie) {
    a.name == b.name && a.domain == b.domain
  }

  /** Storing a cookie: the cookie of the same name and domain is replaced in place, or the
      new one is added at the end. */
  function StoreCookie(jar: Jar, c: Cookie): (r: Jar)
    ensures c in r
    ensures |r| == |jar| || r == jar + [c]
    ensures forall i :: 0 <= i < |jar| && !SameSlot(jar[i], c) ==> r[i] == jar[i]
    ensures forall x :: x in r ==> x in jar || x == c
  {
    if jar == [] then [c]
    else if SameSlot(jar[0], c) then [c] + jar[1..]
    else
      var tail := StoreCookie(jar[1..], c);
      assert forall i :: 1 <= i < |jar| ==> jar[i] == jar[1..][i - 1];
      [jar[0]] + tail
  }

  /** `jar[name] = value`: replaces the value of the domain-less cookie of that name, in
      place, or adds one at the end. */
  function SetCookie(jar: Jar, name: String, value: String): (r: Jar)
    ensures |r| == |jar| || r == jar + [Cookie(name, value, [])]
    ensures forall i :: 0 <= i < |jar| && (jar[i].name != name || jar[i].domain != []) ==> r[i] == jar[i]
  {
    StoreCookie(jar, Cookie(name, value, []))
  }

  /** The cookies the responses to one request set (the redirects' and the final one's), stored
      in the order they arrived, as a `requests` session does whatever the status. */
  function Receive(jar: Jar, received: seq<Cookie>): (r: Jar)
    ensures |r| >= |jar|
    decreases |received|
  {
    if received == [] then jar else Receive(StoreCookie(jar, received[0]), received[1..])
  }

  /** Receiving cookies only adds what was received: every cookie afterwards was in the jar or
      received, a cookie whose place no received cookie takes keeps its position, and every
      received cookie's place is filled. */
  lemma {:induction false} ReceiveFrame(jar: Jar, received: seq<Cookie>)
    ensures forall x :: x in Receive(jar, received) ==> x in jar || x in received
    ensures forall i :: 0 <= i < |jar| && (forall c :: c in received ==> !SameSlot(jar[i], c)) ==>
      Receive(jar, received)[i] == jar[i]
    ensures forall c :: c in received ==> exists x :: x in Receive(jar, received) && SameSlot(x, c)
    decreases |received|
  {
    if received != [] {
      var c := received[0];
      var rest := received[1..];
      var jar' := StoreCookie(jar, c);
      var r := Receive(jar', rest);
      assert r == Receive(jar, received);
      ReceiveFrame(jar', rest);
      assert forall x :: x in rest ==> x in received;
      forall i | 0 <= i < |jar| && (forall c' :: c' in received ==> !SameSlot(jar[i], c'))
        ensures r[i] == jar[i]
      {
        assert jar'[i] == jar[i];
      }
      forall x | x in received
        ensures exists y :: y in r && SameSlot(y, x)
      {
        if x in rest {
        } else {
          assert x == c;
          SlotKept(jar', rest, c);
        }
      }
    }
  }

  /** A filled place stays filled while more cookies arrive. */
  lemma {:induction false} SlotKept(jar: Jar, received: seq<Cookie>, c: Cookie)
    requires c in jar
    ensures exists y :: y in Receive(jar, received) && SameSlot(y, c)
    decreases |received|
  {
    if received == [] {
      assert c in Receive(jar, received) && SameSlot(c, c);
    } else {
      var d := received[0];
      var jar' := StoreCookie(jar, d);
      var i :| 0 <= i < |jar| && jar[i] == c;
      if SameSlot(c, d) {
        SlotKept(jar', received[1..], d);
        var y :| y in Receive(jar', received[1..]) && SameSlot(y, d);
        assert SameSlot(y, c);
      } else {
        assert jar'[i] == c;
        SlotKept(jar', received[1..], c);
      }
    }
  }

  /** `jar.update(cookies)`: each entry set in order. */
  function UpdateJar(jar: Jar, cookies: Dict): Jar
    decreases |cookies|
  {
    if cookies == [] then jar
    else UpdateJar(SetCookie(jar, cookies[0].0, cookies[0].1), cookies[1..])
  }

  /** The jar's cookies as name/value pairs, in iteration order. */
  function Pairs(jar: Jar): (r: seq<(String, String)>)
    ensures |r| == |jar| && forall i :: 0 <= i < |jar| ==> r[i] == (jar[i].name, jar[i].value)
  {
    seq(|jar|, i requires 0 <= i < |jar| => (jar[i].name, jar[i].value))
  }

  /** The `cookies_dict[cookie.name] = cookie.value` loop of `save_cookies`. */
  function Dedupe(jar: Jar): Dict {
    PutAll([], Pairs(jar))
  }

  /** Saving collapses cookies of the same name: one entry per name, holding the value of the
      last cookie of that name. */
  lemma DedupeLastWins(jar: Jar)
    ensures KeysDistinct(Dedupe(jar))
    ensures forall name :: Find(Dedupe(jar), name) == LastValue(Pairs(jar), name)
  {
    PutAllLastWins([], Pairs(jar));
  }

  // ---------------------------------------------------------------------------------------
  // The cookie file
  // ---------------------------------------------------------------------------------------

  /** `load_cookies`: a missing or unreadable file fails; the saved format fails when it is
      more than a day old (a missing timestamp counts as 0); otherwise the stored cookies are
      set into the jar. A JSON value that is not an object loads nothing yet succeeds. Only
      the jar can change. */
  function LoadCookies(m: Manager, now: int): (r: (Manager, bool))
    ensures !r.1 ==> r.0 == m
    ensures r.0 == m.(jar := r.0.jar)
    ensures r.1 <==> (m.file.Some? && !m.file.value.Unreadable?
      && (m.file.value.Stamped? ==> now - m.file.value.timestamp.GetOr(0) <= MaxCookieAge))
    ensures r.1 && m.file.value.Stamped? ==> r.0.jar == UpdateJar(m.jar, m.file.value.cookies)
    ensures r.1 && m.file.value.Legacy? ==> r.0.jar == UpdateJar(m.jar, m.file.value.cookies)
    ensures r.1 && m.file.value.NotAnObject? ==> r.0 == m
  {
    match m.file
    case None => (m, false)
    case Some(Unreadable) => (m, false)
    case Some(NotAnObject) => (m, true)
    case Some(Legacy(cookies)) => (m.(jar := UpdateJar(m.jar, cookies)), true)
    case Some(Stamped(cookies, timestamp, _, _)) =>
      if now - timestamp.GetOr(0) > MaxCookieAge then (m, false)
      else (m.(jar := UpdateJar(m.jar, cookies)), true)
  }

  /** A saved file is accepted at exactly one day old and refused one second later. */
  lemma ExpiryBoundary(m: Manager, saved: int)
    requires m.file.Some? && m.file.value.Stamped? && m.file.value.timestamp == Some(saved)
    ensures LoadCookies(m, saved + MaxCookieAge).1
    ensures !LoadCookies(m, saved + MaxCookieAge + 1).1
  {
  }

  /** `save_cookies`: the de-duplicated cookies written with the time, the given creation
      stamp and the user information; a write that fails leaves everything as it was. */
  function SaveCookies(m: Manager, now: int, createdAt: String, writable: bool): (r: (Manager, bool))
    ensures r.1 == writable
    ensures !writable ==> r.0 == m
    ensures writable ==> r.0 == m.(file := Some(Stamped(Dedupe(m.jar), Some(now), createdAt, m.userInfo)))
  {
    if !writable then (m, false)
    else (m.(file := Some(Stamped(Dedupe(m.jar), Some(now), createdAt, m.userInfo))), true)
  }

  /** Saving and, within a day, loading into an empty jar gives back the saved cookies: the
      de-duplicated jar, one domain-less cookie per name. */
  lemma SaveLoadRoundTrip(m: Manager, saved: int, now: int, createdAt: String)
    requires saved <= now <= saved + MaxCookieAge
    ensures var m1 := SaveCookies(m, saved, createdAt, true).0;
      var (m2, ok) := LoadCookies(m1.(jar := []), now);
      ok && Dedupe(m2.jar) == Dedupe(m.jar)
  {
    var d := Dedupe(m.jar);
    DedupeLastWins(m.jar);
    UpdateEmptyJar(d);
    PairsOfFresh(d);
    PutAllDistinct(d);
  }

  /** The cookies `jar.update` adds to an empty jar: one domain-less cookie per entry. */
  function Fresh(d: Dict): (r: Jar)
    ensures |r| == |d| && forall i :: 0 <= i < |d| ==> r[i] == Cookie(d[i].0, d[i].1, [])
  {
    seq(|d|, i requires 0 <= i < |d| => Cookie(d[i].0, d[i].1, []))
  }

  lemma PairsOfFresh(d: Dict)
    ensures Pairs(Fresh(d)) == d
  {
  }

  /** Setting distinct names into an empty jar appends them in order. */
  lemma UpdateEmptyJar(d: Dict)
    requires KeysDistinct(d)
    ensures UpdateJar([], d) == Fresh(d)
  {
    var empty: Jar := [];
    UpdateJarAppends(empty, d);
    EmptyAppend(Fresh(d));
  }

  lemma {:induction false} UpdateJarAppends(jar: Jar, d: Dict)
    requires KeysDistinct(d)
    requires forall i, j :: 0 <= i < |jar| && 0 <= j < |d| ==> jar[i].name != d[j].0
    ensures UpdateJar(jar, d) == jar + Fresh(d)
    decreases |d|
  {
    if d != [] {
      var c := Cookie(d[0].0, d[0].1, []);
      var rest := d[1..];
      SetCookieNew(jar, d[0].0, d[0].1);
      var jar' := jar + [c];
      forall i, j | 0 <= i < |jar'| && 0 <= j < |rest|
        ensures jar'[i].name != rest[j].0
      {
        assert rest[j] == d[j + 1];
        if i < |jar| {
          assert jar'[i] == jar[i];
        }
      }
      forall i, j | 0 <= i < j < |rest|
        ensures rest[i].0 != rest[j].0
      {
        assert rest[i] == d[i + 1] && rest[j] == d[j + 1];
      }
      assert UpdateJar(jar, d) == UpdateJar(jar', rest);
      UpdateJarAppends(jar', rest);
      FreshCons(d);
      AppendAssoc(jar, [c], Fresh(rest));
    }
  }

  lemma EmptyAppend(a: Jar)
    ensures [] + a == a
  {
  }

  lemma AppendAssoc(a: Jar, b: Jar, c: Jar)
    ensures (a + b) + c == a + (b + c)
  {
  }

  lemma FreshCons(d: Dict)
    requires d != []
    ensures Fresh(d) == [Cookie(d[0].0, d[0].1, [])] + Fresh(d[1..])
  {
    var r := [Cookie(d[0].0, d[0].1, [])] + Fresh(d[1..]);
    forall i | 0 <= i < |d|
      ensures Fresh(d)[i] == r[i]
    {
      if i > 0 {
        assert r[i] == Fresh(d[1..])[i - 1];
        assert d[1..][i - 1] == d[i];
      }
    }
  }

  /** A name the jar does not hold is added at the end. */
  lemma {:induction false} SetCookieNew(jar: Jar, name: String, value: String)
    requires forall i :: 0 <= i < |jar| ==> jar[i].name != name
    ensures SetCookie(jar, name, value) == jar + [Cookie(name, value, [])]
    decreases |jar|
  {
    if jar != [] {
      SetCookieNew(jar[1..], name, value);
      assert [jar[0]] + (jar[1..] + [Cookie(name, value, [])]) == jar + [Cookie(name, value, [])];
    }
  }

  /** `clear_cookies`: the jar emptied, then the file removed; when removal fails the jar is
      already empty but the login state is untouched. On success the manager is logged out. */
  function ClearCookies(m: Manager, removable: bool): (r: (Manager, bool))
    ensures r.0.jar == []
    ensures r.1 <==> m.file.None? || removable
    ensures r.1 ==> r.0.file.None? && !r.0.loggedIn && r.0.userInfo == []
    ensures !r.1 ==> r.0 == m.(jar := [])
  {
    var cleared := m.(jar := []);
    if m.file.Some? && !removable then (cleared, false)
    else (SetLoggedOut(cleared.(file := None)), true)
  }

  /** The module-level `logout`: clear the cookies, then log out regardless. */
  function Logout(m: Manager, removable: bool): (r: Manager)
    ensures r.jar == [] && !r.loggedIn && r.userInfo == []
    ensures removable ==> r.file.None?
  {
    SetLoggedOut(ClearCookies(m, removable).0)
  }

  // ---------------------------------------------------------------------------------------
  // Probing the session
  // ---------------------------------------------------------------------------------------

  /** What the `xsMain.jsp` request produced: an exception, or the response after
      redirects; either way, the cookies the responses received so far set. */
  datatype Probe =
    | Raised(received: seq<Cookie>)
    | Response(status: int, url: String, text: String, received: seq<Cookie>)

  /** The response is the login page (or its captcha): `login` in the lower-cased URL, or
      `verifycode` in the URL as is. */
  predicate RedirectedToLogin(url: String) {
    Contains(Lower(url), "login") || Contains(url, "verifycode")
  }

  /** The response is the student's main page: the text shows `姓名：` and the URL is still
      `xsMain.jsp`. */
  predicate ShowsMainPage(url: String, text: String) {
    Contains(text, "姓名：") && Contains(url, "xsMain.jsp")
  }

  /** `is_session_valid`: the session first stores the cookies the responses set; then a
      non-200 status answers false and changes nothing more; a login page logs out; the main
      page logs in (with empty user information); anything else, an exception included, logs
      out. */
  function IsSessionValid(m: Manager, probe: Probe, now: int): (r: (Manager, bool))
    ensures r.1 <==> (probe.Response? && probe.status == 200 && !RedirectedToLogin(probe.url)
      && ShowsMainPage(probe.url, probe.text))
    ensures r.0.jar == Receive(m.jar, probe.received) && r.0.file == m.file
    ensures r.1 ==> r.0 == SetLoggedIn(m.(jar := r.0.jar), None, now)
    ensures probe.Response? && probe.status != 200 ==> r.0 == m.(jar := r.0.jar)
    ensures !r.1 && !(probe.Response? && probe.status != 200) ==> r.0 == SetLoggedOut(m.(jar := r.0.jar))
  {
    var m0 := m.(jar := Receive(m.jar, probe.received));
    match probe
    case Raised(_) => (SetLoggedOut(m0), false)
    case Response(status, url, text, _) =>
      if status != 200 then (m0, false)
      else if RedirectedToLogin(url) then (SetLoggedOut(m0), false)
      else if ShowsMainPage(url, text) then (SetLoggedIn(m0, None, now), true)
      else (SetLoggedOut(m0), false)
  }

  /** The probe changes the cookies only by what its responses set: every cookie afterwards
      was there before or was received, a cookie no received one replaces keeps its place, a
      probe that set nothing leaves the jar as it was, and the cookie file is left alone. It
      is logged in afterwards exactly when the probe said valid or a non-200 status left an
      existing login in place. */
  lemma ProbeAddsOnlyReceived(m: Manager, probe: Probe, now: int)
    ensures var (m1, ok) := IsSessionValid(m, probe, now);
      && m1.file == m.file
      && (forall c :: c in m1.jar ==> c in m.jar || c in probe.received)
      && (forall i :: 0 <= i < |m.jar| && (forall c :: c in probe.received ==> !SameSlot(m.jar[i], c)) ==>
            m1.jar[i] == m.jar[i])
      && (probe.received == [] ==> m1.jar == m.jar)
      && (m1.loggedIn <==> ok || (probe.Response? && probe.status != 200 && m.loggedIn))
  {
    ReceiveFrame(m.jar, probe.received);
  }

  // ---------------------------------------------------------------------------------------
  // Ensuring a login
  // ---------------------------------------------------------------------------------------

  /** Which step of `ensure_logged_in` succeeded. */
  datatype Route = CurrentSession | StoredCookies | FreshLogin | Failed

  /** The outside world as `ensure_logged_in` meets it: the probe of the current session,
      the probe after loading cookies (asked only when loading succeeded), the credentials
      found, and the cookies of the session `login` returns (none when it fails). */
  datatype World = World(probe1: Probe, probe2: Probe, creds: Option<Credentials.Creds>,
                         loginJar: Option<Jar>, createdAt: String, writable: bool)

  /** Credentials `ensure_logged_in` will try: both parts non-empty. */
  predicate Usable(creds: Option<Credentials.Creds>) {
    creds.Some? && creds.value.username != [] && creds.value.password != []
  }

  /** `ensure_logged_in`: the current session if the probe says valid; else the stored
      cookies if they load and a second probe says valid; else a login with usable
      credentials, which replaces the session, records the username and saves the cookies;
      else failure. */
  function EnsureLoggedIn(m: Manager, w: World, now: int): (r: (Manager, Route))
    ensures r.1 == CurrentSession <==> IsSessionValid(m, w.probe1, now).1
    ensures var (m1, ok1) := IsSessionValid(m, w.probe1, now);
      var (m2, loaded) := LoadCookies(m1, now);
      var stored := !ok1 && loaded && IsSessionValid(m2, w.probe2, now).1;
      var login := Usable(w.creds) && w.loginJar.Some?;
      && (r.1 == StoredCookies <==> stored)
      && (r.1 == FreshLogin <==> !ok1 && !stored && login)
      && (r.1 == Failed <==> !ok1 && !stored && !login)
    ensures r.1 == FreshLogin ==>
      && r.0.jar == w.loginJar.value
      && r.0.userInfo == [("username", w.creds.value.username)]
    ensures r.1 != Failed ==> r.0.loggedIn
  {
    var (m1, ok1) := IsSessionValid(m, w.probe1, now);
    if ok1 then (m1, CurrentSession)
    else
      var (m2, loaded) := LoadCookies(m1, now);
      var (m3, ok2) := if loaded then IsSessionValid(m2, w.probe2, now) else (m2, false);
      if ok2 then (m3, StoredCookies)
      else if Usable(w.creds) && w.loginJar.Some? then
        var m4 := SetLoggedIn(m3.(jar := w.loginJar.value), Some([("username", w.creds.value.username)]), now);
        (SaveCookies(m4, now, w.createdAt, w.writable).0, FreshLogin)
      else (m3, Failed)
  }

  /** A failed `ensure_logged_in` leaves the manager logged out, unless its first probe met
      a non-200 status: that probe changes nothing but the cookies, so an earlier login flag
      can stand. */
  lemma FailedLogsOut(m: Manager, w: World, now: int)
    requires EnsureLoggedIn(m, w, now).1 == Failed
    requires !(w.probe1.Response? && w.probe1.status != 200)
    ensures !EnsureLoggedIn(m, w, now).0.loggedIn
  {
  }

  /** A login is attempted only after both the current session and the stored cookies
      failed, and only with usable credentials. */
  lemma LoginIsLastResort(m: Manager, w: World, now: int)
    requires EnsureLoggedIn(m, w, now).1 == FreshLogin
    ensures !IsSessionValid(m, w.probe1, now).1
    ensures var m1 := IsSessionValid(m, w.probe1, now).0;
      !(LoadCookies(m1, now).1 && IsSessionValid(LoadCookies(m1, now).0, w.probe2, now).1)
    ensures Usable(w.creds)
  {
  }

  /** A fresh login that could be saved leaves a cookie file holding the new session's
      cookies, de-duplicated, with the username. */
  lemma FreshLoginSaves(m: Manager, w: World, now: int)
    requires EnsureLoggedIn(m, w, now).1 == FreshLogin && w.writable
    ensures var f := EnsureLoggedIn(m, w, now).0.file;
      f == Some(Stamped(Dedupe(w.loginJar.value), Some(now), w.createdAt, [("username", w.creds.value.username)]))
  {
  }
}
