/** The `SessionUIMS` client: the outcome of the login handshake, the cookie
    set it stores, and the memoized attendance list. Every HTTP exchange is
    a parameter: the login replies that decide the outcome, and a `Portal`
    standing for the attendance page and the GetReport endpoint. */
module Session {
  import opened Exceptions
  import opened Report

  /** A cookie jar, by cookie name. */
  type Cookies = map<string, string>

  /** A decoded JSON value. `Null` is also Python's `None`. */
  datatype Json =
    | Null
    | Bool(b: bool)
    | Number(n: int)
    | Text(s: string)
    | Array(items: seq<Json>)
    | Object(fields: map<string, Json>)

  /** What the handshake's replies contribute to its outcome: the cookies of
      the password page, the status code of the password submission and the
      cookies it sets. */
  datatype LoginReplies = LoginReplies(loginCookies: Cookies, passwordStatus: int, sessionCookies: Cookies)

  /** The portal as seen by the attendance fetch: the attendance page's text
      for the cookies sent, and the doubly decoded GetReport reply for a
      request body (that request carries no cookies). Either exchange may
      raise instead, which `Err` stands for. */
  datatype Portal = Portal(attendancePage: Option<Cookies> -> Result<string>, getReport: string -> Result<Json>)

  /** `requests.cookies.merge_cookies`, assumed to be a union in which the
      second jar wins on a name present in both. */
  function MergeCookies(jar: Cookies, extra: Cookies): (m: Cookies)
    ensures m.Keys == jar.Keys + extra.Keys
    ensures forall k :: k in extra ==> m[k] == extra[k]
    ensures forall k :: k in jar && k !in extra ==> m[k] == jar[k]
  {
    jar + extra
  }

  /** `_login`'s decision: a 200 on the password submission means the
      credentials were refused; any other status yields the merged cookies. */
  function Login(replies: LoginReplies): (r: Result<Cookies>)
    ensures r.Err? <==> replies.passwordStatus == 200
    ensures r.Err? ==> r.error == IncorrectCredentials
    ensures r.Ok? ==> r.value == MergeCookies(replies.loginCookies, replies.sessionCookies)
  {
    if replies.passwordStatus == 200 then Err(IncorrectCredentials)
    else Ok(MergeCookies(replies.loginCookies, replies.sessionCookies))
  }

  /** A successful login keeps every session cookie and every login cookie
      that the session step did not replace, and nothing else. */
  lemma LoginCookies(replies: LoginReplies, name: string)
    requires replies.passwordStatus != 200
    ensures name in Login(replies).value <==> name in replies.loginCookies || name in replies.sessionCookies
    ensures name in replies.sessionCookies ==> Login(replies).value[name] == replies.sessionCookies[name]
    ensures name in replies.loginCookies && name !in replies.sessionCookies ==>
      Login(replies).value[name] == replies.loginCookies[name]
  {
  }

  /** What `_get_attendance` returns, or raises, for the given cookies. */
  function FetchAttendance(cookies: Option<Cookies>, portal: Portal): (r: Result<Json>)
  {
    match portal.attendancePage(cookies)
    case Err(e) => Err(e)
    case Ok(text) => portal.getReport(RequestBody(ReportId(text)))
  }

  /** The cache after one read of the `attendance` property, given what a
      fetch would return or raise. */
  function CacheAfter(cache: Json, fetched: Result<Json>): (next: Json)
  {
    if cache == Null && fetched.Ok? then fetched.value else cache
  }

  /** What one read of the `attendance` property returns or raises. */
  function ReadResult(cache: Json, fetched: Result<Json>): (r: Result<Json>)
  {
    if cache == Null then fetched else Ok(cache)
  }

  /** The caches after successive reads from cache `cache`, where
      `fetches[i]` is what a fetch at the `i`-th read would return or raise. */
  function Caches(cache: Json, fetches: seq<Result<Json>>): (cs: seq<Json>)
    ensures |cs| == |fetches|
    decreases |fetches|
  {
    if fetches == [] then []
    else
      var next := CacheAfter(cache, fetches[0]);
      [next] + Caches(next, fetches[1..])
  }

  /** What successive reads from cache `cache` return or raise. */
  function Reads(cache: Json, fetches: seq<Result<Json>>): (rs: seq<Result<Json>>)
    ensures |rs| == |fetches|
    decreases |fetches|
  {
    if fetches == [] then []
    else [ReadResult(cache, fetches[0])] + Reads(CacheAfter(cache, fetches[0]), fetches[1..])
  }

  /** The cache before the `i`-th read. */
  function CacheBefore(cache: Json, fetches: seq<Result<Json>>, i: nat): (c: Json)
    requires i <= |fetches|
  {
    if i == 0 then cache else Caches(cache, fetches)[i - 1]
  }

  /** The first fetched value that was returned and is not `None`, or `None`. */
  function FirstNonNull(s: seq<Result<Json>>): (v: Json)
  {
    if s == [] then Null
    else if s[0].Ok? && s[0].value != Null then s[0].value
    else FirstNonNull(s[1..])
  }

  /** The `i`-th read returns the cached value if there is one, and otherwise
      returns or raises what its fetch does. */
  lemma {:induction false} ReadsAt(cache: Json, fetches: seq<Result<Json>>, i: nat)
    requires i < |fetches|
    ensures Reads(cache, fetches)[i] == ReadResult(CacheBefore(cache, fetches, i), fetches[i])
    decreases i
  {
    if i > 0 {
      var next := CacheAfter(cache, fetches[0]);
      ReadsAt(next, fetches[1..], i - 1);
      if i > 1 {
        assert Caches(cache, fetches)[i - 1] == Caches(next, fetches[1..])[i - 2];
      }
    }
  }

  /** Before each read the cache holds the value it started with, if any, and
      otherwise the first non-`None` value fetched so far. */
  lemma {:induction false} ReadsMemoize(cache: Json, fetches: seq<Result<Json>>, i: nat)
    requires i <= |fetches|
    ensures CacheBefore(cache, fetches, i) == if cache != Null then cache else FirstNonNull(fetches[..i])
    decreases i
  {
    if i > 0 {
      var next := CacheAfter(cache, fetches[0]);
      ReadsMemoize(next, fetches[1..], i - 1);
      assert fetches[1..][..i - 1] == fetches[..i][1..];
    }
  }

  /** Once a value other than `None` is cached, every later read returns that
      same value. */
  lemma {:induction false} ReadsStable(cache: Json, fetches: seq<Result<Json>>, i: nat, j: nat)
    requires i <= j < |fetches| && CacheBefore(cache, fetches, i) != Null
    ensures Reads(cache, fetches)[j] == Ok(CacheBefore(cache, fetches, i))
  {
    ReadsMemoize(cache, fetches, i);
    ReadsMemoize(cache, fetches, j);
    ReadsAt(cache, fetches, j);
    if cache == Null {
      assert fetches[..j][..i] == fetches[..i];
      FirstNonNullPrefix(fetches[..j], i);
    }
  }

  /** The first non-`None` value of a prefix is that of the whole. */
  lemma {:induction false} FirstNonNullPrefix(s: seq<Result<Json>>, n: nat)
    requires n <= |s| && FirstNonNull(s[..n]) != Null
    ensures FirstNonNull(s) == FirstNonNull(s[..n])
  {
    if !(s[0].Ok? && s[0].value != Null) {
      assert s[..n][1..] == s[1..][..n - 1];
      FirstNonNullPrefix(s[1..], n - 1);
    }
  }

  /** The `i`-th read fetches exactly when there was no cached value to begin
      with and no earlier fetch returned a value other than `None`. */
  lemma ReadFetches(cache: Json, fetches: seq<Result<Json>>, i: nat)
    requires i <= |fetches|
    ensures CacheBefore(cache, fetches, i) == Null <==> cache == Null && FirstNonNull(fetches[..i]) == Null
  {
    ReadsMemoize(cache, fetches, i);
  }

  class SessionUIMS {
    const uid: string
    const password: string
    var cookies: Option<Cookies>
    var attendanceCache: Json
    /** How many times `_get_attendance` has run on this session, that is,
        how many times the portal was asked for attendance. */
    ghost var fetchCount: nat

    /** The session holds the cookies of a login. */
    ghost predicate LoggedIn()
      reads this
    {
      cookies.Some?
    }

    /** The fields `__init__` sets before it logs in. */
    constructor Init(uid: string, password: string)
      ensures this.uid == uid && this.password == password
      ensures cookies == None && attendanceCache == Null && fetchCount == 0
    {
      this.uid := uid;
      this.password := password;
      cookies := None;
      attendanceCache := Null;
      fetchCount := 0;
    }

    /** `SessionUIMS(uid, password)`: a failed login raises before the cache
        is assigned; a successful one yields a session holding the login's
        cookies and no cached attendance. */
    static method Open(uid: string, password: string, replies: LoginReplies) returns (r: Result<SessionUIMS>)
      ensures r.Err? <==> replies.passwordStatus == 200
      ensures r.Err? ==> r.error == IncorrectCredentials
      ensures r.Ok? ==> fresh(r.value) && r.value.LoggedIn()
      ensures r.Ok? ==> r.value.uid == uid && r.value.password == password
      ensures r.Ok? ==> r.value.cookies == Some(MergeCookies(replies.loginCookies, replies.sessionCookies))
      ensures r.Ok? ==> r.value.attendanceCache == Null && r.value.fetchCount == 0
    {
      var s := new SessionUIMS.Init(uid, password);
      var raised := s.RefreshSession(replies);
      if raised.Some? {
        return Err(raised.value);
      }
      s.attendanceCache := Null;
      return Ok(s);
    }

    /** `refresh_session`: either raises and keeps the cookies, or replaces
        them by the new login's; the cached attendance is never touched. */
    method RefreshSession(replies: LoginReplies) returns (raised: Option<Error>)
      modifies this`cookies
      ensures raised.Some? <==> replies.passwordStatus == 200
      ensures raised.Some? ==> raised.value == IncorrectCredentials && cookies == old(cookies)
      ensures raised.None? ==> cookies == Some(Login(replies).value)
      ensures attendanceCache == old(attendanceCache) && fetchCount == old(fetchCount)
      ensures old(LoggedIn()) ==> LoggedIn()
    {
      var outcome := Login(replies);
      match outcome
      case Err(e) =>
        raised := Some(e);
      case Ok(jar) =>
        cookies := Some(jar);
        raised := None;
    }

    /** `_get_attendance`: the request body built from the report id scraped
        off the attendance page, and the decoded reply to it; no body when
        fetching the page raises. */
    method GetAttendance(portal: Portal) returns (body: Option<string>, attendance: Result<Json>)
      modifies this`fetchCount
      ensures fetchCount == old(fetchCount) + 1
      ensures portal.attendancePage(cookies).Err? ==>
        body == None && attendance == Err(portal.attendancePage(cookies).error)
      ensures portal.attendancePage(cookies).Ok? ==>
        && body.Some?
        && UidValue(body.value) == Some(ReportId(portal.attendancePage(cookies).value))
        && SessionValueOf(body.value) == Some(SessionValue)
        && ParseBody(body.value) == Some(ReportId(portal.attendancePage(cookies).value))
        && attendance == portal.getReport(body.value)
      ensures attendance == FetchAttendance(cookies, portal)
    {
      fetchCount := fetchCount + 1;
      var page := portal.attendancePage(cookies);
      match page
      case Err(e) =>
        body, attendance := None, Err(e);
      case Ok(text) =>
        var reportId := ReportId(text);
        var data := RequestBody(reportId);
        ScrapedIdReadsBack(text);
        BodyRoundTrip(reportId);
        body, attendance := Some(data), portal.getReport(data);
    }

    /** The `attendance` property: asks the portal only while nothing is
        cached, keeps the first value that is not `None`, and leaves the cache
        as it was when the fetch raises. */
    method Attendance(portal: Portal) returns (value: Result<Json>, fetched: bool)
      modifies this`attendanceCache, this`fetchCount
      ensures fetchCount == old(fetchCount) + (if old(attendanceCache) == Null then 1 else 0)
      ensures fetched <==> fetchCount != old(fetchCount)
      ensures fetched <==> old(attendanceCache) == Null
      ensures old(attendanceCache) != Null ==> value == Ok(old(attendanceCache))
      ensures fetched ==> value == FetchAttendance(cookies, portal)
      ensures value == ReadResult(old(attendanceCache), FetchAttendance(cookies, portal))
      ensures attendanceCache == CacheAfter(old(attendanceCache), FetchAttendance(cookies, portal))
      ensures value.Err? ==> attendanceCache == old(attendanceCache)
      ensures value.Ok? ==> value.value == attendanceCache
      ensures cookies == old(cookies)
    {
      fetched := attendanceCache == Null;
      if fetched {
        var _, attendance := GetAttendance(portal);
        if attendance.Err? {
          return attendance, fetched;
        }
        attendanceCache := attendance.value;
      }
      value := Ok(attendanceCache);
    }
  }
}
