/** The login session both variants keep in a global `SESSION` object: the
    `Cookie` header assembled from the login response's `Set-Cookie` values,
    the time of the last login, and the rule that decides when to log in again.
    The HTTP exchange itself is abstracted to a `Reply`. */
module Session {
  import opened Options

  /** A session is re-established after 24 hours (server.js's literal, index.js's `COOKIE_MAX_AGE`). */
  const CookieMaxAge: int := 86400000

  /** `SESSION`: the cookie header (`null` until the first login) and `Date.now()` of that login. */
  datatype Session = Session(cookie: Option<string>, lastLogin: int)

  /** The session both variants start with: no cookie, never logged in. */
  const Initial: Session := Session(None, 0)

  /** `SESSION.cookie` is truthy: present and not the empty string. */
  predicate HasCookie(s: Session) {
    s.cookie.Some? && s.cookie.value != []
  }

  /** `!SESSION.cookie || now - lastLogin > COOKIE_MAX_AGE`: the session must
      be renewed when it has no usable cookie, and a cookie lasts 24 hours. */
  function Expired(s: Session, now: int): (r: bool)
    ensures s.cookie.None? || s.cookie.value == [] ==> r
    ensures HasCookie(s) ==> (r <==> now - s.lastLogin > CookieMaxAge)
  {
    !HasCookie(s) || now - s.lastLogin > CookieMaxAge
  }

  /** server.js logs in before a check only when its site needs a login at all. */
  function ServerShouldLogin(loginRequired: bool, s: Session, now: int): (r: bool)
    ensures !loginRequired ==> !r
    ensures loginRequired ==> (r <==> Expired(s, now))
  {
    loginRequired && Expired(s, now)
  }

  /** Once a session needs renewing it stays so until the next login. */
  lemma ExpiryMonotone(s: Session, now: int, later: int)
    requires Expired(s, now) && now <= later
    ensures Expired(s, later)
  {
  }

  /** At start-up there is no cookie, so the first cycle logs in whenever
      the site requires it. */
  lemma StartupLogsIn(now: int)
    ensures Expired(Initial, now)
    ensures ServerShouldLogin(true, Initial, now)
    ensures !ServerShouldLogin(false, Initial, now)
  {
  }

  /** The first index of `c` in `s`, or |s|. */
  function IndexOf(s: string, c: char): (i: nat)
    ensures i <= |s|
    ensures forall k :: 0 <= k < i ==> s[k] != c
    ensures i < |s| ==> s[i] == c
  {
    if |s| == 0 then 0 else if s[0] == c then 0 else 1 + IndexOf(s[1..], c)
  }

  predicate Free(s: string, c: char) {
    forall k :: 0 <= k < |s| ==> s[k] != c
  }

  /** `s.split(c)` for a one-character separator: always at least one piece. */
  function Split(s: string, c: char): (r: seq<string>)
    ensures |r| > 0 && r[0] == s[..IndexOf(s, c)]
    decreases |s|
  {
    var i := IndexOf(s, c);
    if i == |s| then [s] else [s[..i]] + Split(s[i + 1..], c)
  }

  /** `parts.join(sep)`. */
  function Join(parts: seq<string>, sep: string): string
    decreases |parts|
  {
    if |parts| == 0 then []
    else if |parts| == 1 then parts[0]
    else parts[0] + sep + Join(parts[1..], sep)
  }

  /** Splitting loses nothing: joining the pieces with the separator gives
      the string back, so the pieces determine the string. */
  lemma {:induction false} SplitInverse(s: string, c: char)
    ensures Join(Split(s, c), [c]) == s
    decreases |s|
  {
    var i := IndexOf(s, c);
    if i < |s| {
      var rest := Split(s[i + 1..], c);
      SplitInverse(s[i + 1..], c);
      assert ([s[..i]] + rest)[1..] == rest;
      assert s == s[..i] + [c] + s[i + 1..];
    }
  }

  /** `c.split(';')[0]`: the `name=value` part of one `Set-Cookie` value. */
  function Pair(setCookie: string): (r: string)
    ensures Free(r, ';')
    ensures |r| <= |setCookie| && r == setCookie[..|r|]
    ensures |r| == |setCookie| || setCookie[|r|] == ';'
  {
    Split(setCookie, ';')[0]
  }

  function Pairs(setCookies: seq<string>): (r: seq<string>)
    ensures |r| == |setCookies|
    ensures forall i :: 0 <= i < |r| ==> r[i] == Pair(setCookies[i])
  {
    if |setCookies| == 0 then [] else [Pair(setCookies[0])] + Pairs(setCookies[1..])
  }


  /** Drop one leading space, if there is one. */
  function Unpad(p: string): string {
    if |p| > 0 && p[0] == ' ' then p[1..] else p
  }

  function UnpadAll(ps: seq<string>): (r: seq<string>)
    ensures |r| == |ps|
  {
    if |ps| == 0 then [] else [Unpad(ps[0])] + UnpadAll(ps[1..])
  }

  /** Each piece with one space in front: how the pieces after the first
      come out of splitting a header joined with `"; "`. */
  function PadAll(ps: seq<string>): (r: seq<string>)
    ensures |r| == |ps|
  {
    if |ps| == 0 then [] else [" " + ps[0]] + PadAll(ps[1..])
  }

  lemma {:induction false} UnpadPad(ps: seq<string>)
    ensures UnpadAll(PadAll(ps)) == ps
  {
    if |ps| > 0 {
      assert (" " + ps[0])[1..] == ps[0];
      UnpadPad(ps[1..]);
    }
  }

  /** Reading a `Cookie` header back into its pairs, as the site does: split on
      `;` and drop the one space the join put after each separator. */
  function ParseCookieHeader(header: string): seq<string> {
    var parts := Split(header, ';');
    [parts[0]] + UnpadAll(parts[1..])
  }

  lemma SplitAfterFree(x: string, y: string, c: char)
    requires Free(x, c)
    ensures Split(x + [c] + y, c) == [x] + Split(y, c)
  {
    var s := x + [c] + y;
    assert forall k :: 0 <= k < |x| ==> s[k] == x[k];
    assert s[|x|] == c;
    assert IndexOf(s, c) == |x|;
    assert s[..|x|] == x;
    assert s[|x| + 1..] == y;
  }

  lemma {:induction false} SplitJoin(ps: seq<string>, pre: string)
    requires |ps| > 0 && Free(pre, ';')
    requires forall i :: 0 <= i < |ps| ==> Free(ps[i], ';')
    ensures Split(pre + Join(ps, "; "), ';') == [pre + ps[0]] + PadAll(ps[1..])
    decreases |ps|
  {
    var first := pre + ps[0];
    assert Free(first, ';');
    if |ps| == 1 {
      assert IndexOf(first, ';') == |first|;
      assert pre + Join(ps, "; ") == first;
    } else {
      var rest := Join(ps[1..], "; ");
      assert pre + Join(ps, "; ") == first + [';'] + (" " + rest);
      SplitAfterFree(first, " " + rest, ';');
      SplitJoin(ps[1..], " ");
    }
  }

  lemma SplitJoinHead(ps: seq<string>)
    requires |ps| > 0
    requires forall i :: 0 <= i < |ps| ==> Free(ps[i], ';')
    ensures Split(Join(ps, "; "), ';') == [ps[0]] + PadAll(ps[1..])
  {
    SplitJoin(ps, "");
    assert "" + Join(ps, "; ") == Join(ps, "; ");
    assert "" + ps[0] == ps[0];
  }

  /** A header that splits into the first pair and the padded rest parses back to the pairs. */
  lemma ParsePadded(header: string, ps: seq<string>)
    requires |ps| > 0 && Split(header, ';') == [ps[0]] + PadAll(ps[1..])
    ensures ParseCookieHeader(header) == ps
  {
    UnpadPad(ps[1..]);
    assert Split(header, ';')[1..] == PadAll(ps[1..]);
    assert [ps[0]] + ps[1..] == ps;
  }

  lemma JoinRoundTrip(ps: seq<string>)
    requires |ps| > 0
    requires forall i :: 0 <= i < |ps| ==> Free(ps[i], ';')
    ensures ParseCookieHeader(Join(ps, "; ")) == ps
  {
    SplitJoinHead(ps);
    ParsePadded(Join(ps, "; "), ps);
  }

  /** `setCookies.map(c => c.split(';')[0]).join('; ')`. The header keeps
      every cookie's pair, in order, separated by "; ": splitting it on `;`
      gives the first pair and then each further pair behind one space, which
      fixes the header, and parsing it back gives exactly the pairs, provided
      there was at least one cookie. It is empty exactly when there is no
      cookie, or a single one whose pair is empty. */
  function CookieHeader(setCookies: seq<string>): (r: string)
    ensures |setCookies| > 0 ==> Split(r, ';') == [Pairs(setCookies)[0]] + PadAll(Pairs(setCookies)[1..])
    ensures |setCookies| > 0 ==> ParseCookieHeader(r) == Pairs(setCookies)
    ensures r == [] <==> |setCookies| == 0 || (|setCookies| == 1 && Pair(setCookies[0]) == [])
  {
    var ps := Pairs(setCookies);
    if |ps| == 0 then []
    else
      SplitJoinHead(ps);
      JoinRoundTrip(ps);
      assert |ps| > 1 ==> |Join(ps, "; ")| >= 2;
      Join(ps, "; ")
  }

  /** Any header that splits on `;` as the assembled one does is that header. */
  lemma CookieHeaderDetermined(setCookies: seq<string>, header: string)
    requires |setCookies| > 0
    requires Split(header, ';') == [Pairs(setCookies)[0]] + PadAll(Pairs(setCookies)[1..])
    ensures header == CookieHeader(setCookies)
  {
    SplitInverse(header, ';');
    SplitInverse(CookieHeader(setCookies), ';');
  }

  /** The login request's fate: no usable response (network error or a non-2xx
      status, which axios throws on), or a response with or without `Set-Cookie`. */
  datatype Reply = NoReply | Replied(setCookie: Option<seq<string>>)

  /** server.js `login`: success with any `Set-Cookie` header, even an empty one. */
  function ServerLogin(loginRequired: bool, s: Session, reply: Reply, now: int): (r: (bool, Session))
    ensures !loginRequired ==> r == (true, s)
    ensures loginRequired ==> (r.0 <==> reply.Replied? && reply.setCookie.Some?)
    ensures loginRequired && r.0 ==> reply.Replied? && reply.setCookie.Some?
                                     && r.1 == Session(Some(CookieHeader(reply.setCookie.value)), now)
    ensures !r.0 ==> r.1 == s
  {
    if !loginRequired then (true, s)
    else match reply
      case Replied(Some(cs)) => (true, Session(Some(CookieHeader(cs)), now))
      case _ => (false, s)
  }

  /** index.js `performLogin`: needs both credentials and a non-empty `Set-Cookie` list. */
  function TaskLogin(haveCredentials: bool, s: Session, reply: Reply, now: int): (r: (bool, Session))
    ensures r.0 <==> haveCredentials && reply.Replied? && reply.setCookie.Some? && |reply.setCookie.value| > 0
    ensures r.0 ==> r.1 == Session(Some(CookieHeader(reply.setCookie.value)), now)
    ensures !r.0 ==> r.1 == s
  {
    if !haveCredentials then (false, s)
    else match reply
      case Replied(Some(cs)) => if |cs| > 0 then (true, Session(Some(CookieHeader(cs)), now)) else (false, s)
      case _ => (false, s)
  }

  /** After a successful server.js login at `at`, the next check logs in
      again exactly when the stored header is empty or more than 24 hours
      have passed. */
  lemma ServerLoginRenews(s: Session, reply: Reply, at: int, now: int)
    requires ServerLogin(true, s, reply, at).0
    ensures ServerShouldLogin(true, ServerLogin(true, s, reply, at).1, now) <==>
              CookieHeader(reply.setCookie.value) == [] || now - at > CookieMaxAge
  {
  }

  /** After a successful index.js login at `at`, the session needs renewing
      exactly when more than 24 hours have passed, unless the only cookie had
      an empty pair, in which case it needs renewing at once. */
  lemma TaskLoginRenews(haveCredentials: bool, s: Session, reply: Reply, at: int, now: int)
    requires TaskLogin(haveCredentials, s, reply, at).0
    ensures var cs := reply.setCookie.value;
            Expired(TaskLogin(haveCredentials, s, reply, at).1, now) <==>
              (|cs| == 1 && Pair(cs[0]) == []) || now - at > CookieMaxAge
  {
  }

  /** server.js accepts an empty `Set-Cookie` list as a successful login, but
      the empty header it stores counts as no cookie: the next check logs in again. */
  lemma EmptySetCookieForcesRelogin(s: Session, now: int, later: int)
    ensures ServerLogin(true, s, Replied(Some([])), now).0
    ensures ServerShouldLogin(true, ServerLogin(true, s, Replied(Some([])), now).1, later)
  {
  }
}
