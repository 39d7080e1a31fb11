/** The gateway's filter pipeline over time: login issues a token, the bearer filter checks it, logout
    puts it on the blacklist for 7200 seconds. One clock serves the gateway, the tokens and the store;
    the store forgets an entry only when its time is over. */
module GatewayPipelines {
  import opened Bytes

  const NANOS := 1_000_000_000
  const LIFETIME := 7200 * NANOS

  const LOGIN := "login "
  const BEARER := "Bearer "
  const BLACKLIST := "BL:"

  /** Token dates are whole seconds. */
  datatype Claims = Claims(iat: int, exp: int)

  /** `claims` is what decoding and the checks of algorithm, signature and issuer make of a token;
      `keepsLastInstant` tells whether the store still reports an entry at the very end of its time. */
  datatype Config = Config(claims: string -> Option<Claims>, keepsLastInstant: bool)

  datatype State = State(clock: int, blacklist: map<string, int>)

  /** One request, with what the outside contributes: whether the database accepts the user, the token
      that signing yields, whether the store can be read and written, and the clock at each use. */
  datatype Request = Request(
    input: string,
    accepted: bool, token: string, issuedAt: int, expiresFrom: int,
    readable: bool, checkedAt: int, verifiedAt: int,
    writable: bool, loggedOutAt: int)

  datatype Reply =
    | LoggedIn(token: string)
    | LoginRefused
    | NoTicket
    | Forbidden
    | LoggedOut
    | StoreFailed
    | Passed(question: string)

  function Seconds(t: int): (s: int)
  {
    t / NANOS
  }

  predicate StartsWith(s: string, prefix: string)
  {
    prefix <= s
  }

  /** The index of the first space from `from` on, or the length. */
  function FindSpace(s: string, from: nat): (k: nat)
    requires from <= |s|
    ensures from <= k <= |s| && ' ' !in s[from..k] && (k < |s| ==> s[k] == ' ')
    decreases |s| - from
  {
    if from == |s| || s[from] == ' ' then from
    else
      assert s[from..] == [s[from]] + s[from + 1..];
      FindSpace(s, from + 1)
  }

  /** "Bearer <token> <content>", or nothing. */
  function Ticket(input: string): (r: Option<(string, string)>)
  {
    if !StartsWith(input, BEARER) then None
    else
      var k := FindSpace(input, 7);
      if k == |input| then None else Some((input[7..k], input[k + 1..]))
  }

  /** The parts of a request are found again, whatever the content. */
  lemma TicketOf(token: string, content: string)
    requires ' ' !in token
    ensures Ticket(BEARER + token + " " + content) == Some((token, content))
  {
    var input := BEARER + token + " " + content;
    assert input[|BEARER| + |token|] == ' ';
    var k := FindSpace(input, 7);
    forall j | 7 <= j < 7 + |token| ensures input[j] != ' ' { assert input[j] == token[j - 7]; }
    forall j | 7 <= j < k ensures input[j] != ' ' { assert input[j] == input[7..k][j - 7]; }
    assert input[7..k] == token && input[k + 1..] == content;
  }

  predicate Present(c: Config, s: State, token: string, now: int)
  {
    BLACKLIST + token in s.blacklist &&
    (now < s.blacklist[BLACKLIST + token] || (c.keepsLastInstant && now == s.blacklist[BLACKLIST + token]))
  }

  /** The library rejects before `iat` and strictly after `exp`. */
  predicate Verified(c: Config, token: string, now: int)
  {
    c.claims(token).Some? &&
    c.claims(token).value.iat * NANOS <= now <= c.claims(token).value.exp * NANOS
  }

  /** A reader error counts as "not on the list". */
  predicate Admits(c: Config, s: State, r: Request, token: string)
  {
    !(r.readable && Present(c, s, token, r.checkedAt)) && Verified(c, token, r.verifiedAt)
  }

  /** What that comes to. */
  lemma AdmitsExactly(c: Config, s: State, r: Request, token: string)
    ensures Admits(c, s, r, token) <==>
              (c.claims(token).Some?
               && c.claims(token).value.iat * 1_000_000_000 <= r.verifiedAt <= c.claims(token).value.exp * 1_000_000_000
               && (r.readable && "BL:" + token in s.blacklist ==>
                     r.checkedAt > s.blacklist["BL:" + token]
                     || (r.checkedAt == s.blacklist["BL:" + token] && !c.keepsLastInstant)))
  {
  }

  function Serve(c: Config, s: State, r: Request): (res: (State, Reply))
  {
    if StartsWith(r.input, LOGIN) then
      (s.(clock := r.expiresFrom), if r.accepted then LoggedIn(r.token) else LoginRefused)
    else if !StartsWith(r.input, BEARER) then (s, NoTicket)
    else if Ticket(r.input).None? then (s, Forbidden)
    else
      var (token, content) := Ticket(r.input).value;
      if !Admits(c, s, r, token) then (s.(clock := r.verifiedAt), Forbidden)
      else if content == "logout" then
        if r.writable then
          (State(r.loggedOutAt, s.blacklist[BLACKLIST + token := r.loggedOutAt + LIFETIME]), LoggedOut)
        else (s.(clock := r.loggedOutAt), StoreFailed)
      else (s.(clock := r.verifiedAt), Passed(content))
  }

  /** The clock does not run back, and a token says when it was issued and when it expires. */
  predicate Enabled(c: Config, s: State, r: Request)
  {
    && s.clock <= r.issuedAt <= r.expiresFrom
    && s.clock <= r.checkedAt <= r.verifiedAt <= r.loggedOutAt
    && (StartsWith(r.input, LOGIN) && r.accepted ==>
          c.claims(r.token) == Some(Claims(Seconds(r.issuedAt), Seconds(r.expiresFrom + LIFETIME))))
  }

  ghost predicate Reaches(c: Config, before: State, run: seq<Request>, after: State)
    decreases |run|
  {
    if run == [] then after == before
    else Enabled(c, before, run[0]) && Reaches(c, Serve(c, before, run[0]).0, run[1..], after)
  }

  /** The token was given out by a login before `s`. */
  predicate Issued(c: Config, s: State, token: string)
  {
    c.claims(token).Some? && c.claims(token).value.exp * NANOS <= s.clock + LIFETIME
  }

  lemma LoginIssues(c: Config, s: State, r: Request)
    requires Enabled(c, s, r) && Serve(c, s, r).1.LoggedIn?
    ensures Issued(c, Serve(c, s, r).0, Serve(c, s, r).1.token)
  {
  }

  // ---------- Who gets past the filters ----------

  /** Nothing about a bearer request but its token's dates and the blacklist decides whether it passes the bearer
      filter: the token decodes and verifies, the time is not before its issue nor past its expiry, and the store
      does not report the token as logged out. Only then is it answered by anything but a refusal. */
  lemma PassedExactly(c: Config, s: State, r: Request, token: string, content: string)
    requires r.input == "Bearer " + token + " " + content && ' ' !in token
    ensures Serve(c, s, r).1 != Forbidden <==>
              (c.claims(token).Some?
               && c.claims(token).value.iat * 1_000_000_000 <= r.verifiedAt <= c.claims(token).value.exp * 1_000_000_000
               && (r.readable && "BL:" + token in s.blacklist ==>
                     r.checkedAt > s.blacklist["BL:" + token]
                     || (r.checkedAt == s.blacklist["BL:" + token] && !c.keepsLastInstant)))
    ensures Serve(c, s, r).1 != Forbidden ==>
              Serve(c, s, r).1 == (if content != "logout" then Passed(content)
                                   else if r.writable then LoggedOut else StoreFailed)
    ensures Serve(c, s, r).0.blacklist
         == if Serve(c, s, r).1 == LoggedOut then s.blacklist["BL:" + token := r.loggedOutAt + 7200_000_000_000]
            else s.blacklist
  {
    TicketOf(token, content);
    BearerText(token, content);
    AdmitsExactly(c, s, r, token);
    hide Ticket, StartsWith, Admits;
  }

  /** The ticket of a request is its two parts. */
  lemma TicketParts(input: string)
    requires Ticket(input).Some?
    ensures var (token, content) := Ticket(input).value;
            input == "Bearer " + token + " " + content && ' ' !in token
  {
    var k := FindSpace(input, 7);
    assert input == "Bearer " + input[7..k] + " " + input[k + 1..];
  }

  lemma BearerText(token: string, content: string)
    ensures StartsWith("Bearer " + token + " " + content, BEARER)
    ensures !StartsWith("Bearer " + token + " " + content, LOGIN)
  {
    var input := "Bearer " + token + " " + content;
    assert input[..7] == BEARER && input[0] != LOGIN[0];
  }

  /** What is not of that form passes no filter: a login is answered for what the database says, "Bearer " without
      a second space is refused, anything else has no ticket. */
  lemma OthersStopped(c: Config, s: State, r: Request)
    ensures "login " <= r.input ==> Serve(c, s, r).1 == if r.accepted then LoggedIn(r.token) else LoginRefused
    ensures !("login " <= r.input) && !("Bearer " <= r.input) ==> Serve(c, s, r).1 == NoTicket
    ensures "Bearer " <= r.input && ' ' !in r.input[7..] ==> Serve(c, s, r).1 == Forbidden
    ensures "Bearer " <= r.input && ' ' in r.input[7..] ==>
              exists token: string, content: string :: ' ' !in token && r.input == "Bearer " + token + " " + content
    ensures !("Bearer " <= r.input && ' ' in r.input[7..]) ==> Serve(c, s, r).0.blacklist == s.blacklist
  {
    var input := r.input;
    assert "login "[0] != "Bearer "[0];
    if "Bearer " <= input {
      var k := FindSpace(input, 7);
      if k < |input| {
        assert input == "Bearer " + input[7..k] + " " + input[k + 1..];
        assert input[7..][k - 7] == ' ';
      } else {
        assert input[7..k] == input[7..];
      }
    }
  }

  // ---------- A token that was issued is good until it expires or is logged out ----------

  /** The clock never runs back over a run. */
  lemma {:induction false} ClockForward(c: Config, before: State, run: seq<Request>, after: State)
    requires Reaches(c, before, run, after)
    ensures before.clock <= after.clock
    decreases |run|
  {
    if run != [] {
      ServeForward(c, before, run[0]);
      hide Serve, Enabled;
      ClockForward(c, Serve(c, before, run[0]).0, run[1..], after);
    }
  }

  lemma ServeForward(c: Config, s: State, r: Request)
    requires Enabled(c, s, r)
    ensures s.clock <= Serve(c, s, r).0.clock
  {
    hide Ticket, Admits, StartsWith;
  }

  /** The blacklist entry of a token that no request of the run asks to log out stays as it was. */
  lemma {:induction false} EntryStays(c: Config, before: State, run: seq<Request>, after: State, token: string)
    requires Reaches(c, before, run, after) && forall q :: q in run ==> !AsksLogout(q, token)
    ensures "BL:" + token in before.blacklist <==> "BL:" + token in after.blacklist
    decreases |run|
  {
    if run != [] {
      var q := run[0];
      assert q in run;
      EntryStaysOnce(c, before, q, token);
      hide Serve, AsksLogout;
      EntryStays(c, Serve(c, before, q).0, run[1..], after, token);
    }
  }

  lemma EntryStaysOnce(c: Config, s: State, q: Request, token: string)
    requires !AsksLogout(q, token)
    ensures "BL:" + token in s.blacklist <==> "BL:" + token in Serve(c, s, q).0.blacklist
  {
    hide Ticket, StartsWith, Admits;
    if Ticket(q.input).Some? {
      var other := Ticket(q.input).value.0;
      assert (BLACKLIST + other)[3..] == other && (BLACKLIST + token)[3..] == token;
    }
  }

  /** A token given out by a login gets every request past the bearer filter, from its issue through the last whole
      second of its 7200 and not longer, in every run without a logout of its text - if no logout of the same text
      came before that login. */
  lemma IssuedIsGood(c: Config, s0: State, login: Request, run: seq<Request>, s: State, r: Request, token: string,
                     content: string)
    requires Enabled(c, s0, login) && Serve(c, s0, login).1 == LoggedIn(token) && "BL:" + token !in s0.blacklist
    requires Reaches(c, Serve(c, s0, login).0, run, s) && forall q :: q in run ==> !AsksLogout(q, token)
    requires Enabled(c, s, r) && r.input == "Bearer " + token + " " + content && ' ' !in token
    ensures Serve(c, s, r).1 != Forbidden
       <==> r.verifiedAt <= (login.expiresFrom + 7200_000_000_000) / 1_000_000_000 * 1_000_000_000
  {
    LoginClaims(c, s0, login, token);
    ClockForward(c, Serve(c, s0, login).0, run, s);
    EntryStays(c, Serve(c, s0, login).0, run, s, token);
    PassedExactly(c, s, r, token, content);
    hide Serve, AsksLogout, StartsWith, Reaches;
  }

  lemma LoginClaims(c: Config, s: State, login: Request, token: string)
    requires Enabled(c, s, login) && Serve(c, s, login).1 == LoggedIn(token)
    ensures c.claims(token).Some? && c.claims(token).value.iat * 1_000_000_000 <= login.issuedAt <= Serve(c, s, login).0.clock
    ensures c.claims(token).value.exp == (login.expiresFrom + 7200_000_000_000) / 1_000_000_000
    ensures Serve(c, s, login).0.blacklist == s.blacklist
  {
    hide Ticket, Admits;
  }

  predicate Dead(c: Config, s: State, token: string)
  {
    && c.claims(token).Some? && BLACKLIST + token in s.blacklist
    && c.claims(token).value.exp * NANOS <= s.blacklist[BLACKLIST + token] <= s.clock + LIFETIME
  }

  lemma StepKeeps(c: Config, s: State, r: Request, token: string)
    requires Enabled(c, s, r)
    ensures Issued(c, s, token) ==> Issued(c, Serve(c, s, r).0, token)
    ensures Dead(c, s, token) ==> Dead(c, Serve(c, s, r).0, token)
  {
  }

  lemma {:induction false} RunKeeps(c: Config, before: State, run: seq<Request>, after: State, token: string)
    requires Reaches(c, before, run, after)
    ensures Issued(c, before, token) ==> Issued(c, after, token)
    ensures Dead(c, before, token) ==> Dead(c, after, token)
    decreases |run|
  {
    if run != [] {
      hide Issued, Dead, Serve, Enabled;
      StepKeeps(c, before, run[0], token);
      RunKeeps(c, Serve(c, before, run[0]).0, run[1..], after, token);
    }
  }

  lemma LogoutKills(c: Config, s: State, r: Request, token: string)
    requires Enabled(c, s, r) && Issued(c, s, token)
    requires Ticket(r.input).Some? && Ticket(r.input).value.0 == token && Serve(c, s, r).1.LoggedOut?
    ensures Dead(c, Serve(c, s, r).0, token)
  {
  }

  /** When a dead token is let through all the same: only if the store cannot be read, or at the one
      instant at which it expires and its entry lapses together - the library rejects after `exp`, where
      section 4.1.4 of RFC 7519 asks for "on or after". */
  lemma DeadAdmittedExactly(c: Config, s: State, r: Request, token: string)
    requires Enabled(c, s, r) && Dead(c, s, token)
    ensures Admits(c, s, r, token) <==>
            Verified(c, token, r.verifiedAt) &&
            (!r.readable ||
             (!c.keepsLastInstant &&
              r.checkedAt == r.verifiedAt == c.claims(token).value.exp * NANOS == s.blacklist[BLACKLIST + token]))
  {
  }

  /** The token's history: a login gives it out, then anything, a successful logout, anything again. */
  ghost predicate LoggedOutBefore(c: Config, token: string, s: State)
  {
    exists s0: State, login: Request, run: seq<Request>, s1: State, logout: Request, rest: seq<Request> ::
      LogoutStory(c, token, s0, login, run, s1, logout, rest, s)
  }

  ghost predicate LogoutStory(c: Config, token: string, s0: State, login: Request, run: seq<Request>, s1: State,
                              logout: Request, rest: seq<Request>, s: State)
  {
    && Enabled(c, s0, login) && Serve(c, s0, login).1 == LoggedIn(token)
    && Reaches(c, Serve(c, s0, login).0, run, s1)
    && Enabled(c, s1, logout) && Ticket(logout.input).Some? && Ticket(logout.input).value.0 == token
    && Serve(c, s1, logout).1 == LoggedOut
    && Reaches(c, Serve(c, s1, logout).0, rest, s)
  }

  lemma LoggedOutIsDead(c: Config, token: string, s: State)
    requires LoggedOutBefore(c, token, s)
    ensures Dead(c, s, token)
  {
    hide Issued, Dead, Serve, Enabled, Ticket;
    var s0, login, run, s1, logout, rest :| LogoutStory(c, token, s0, login, run, s1, logout, rest, s);
    LoginIssues(c, s0, login);
    RunKeeps(c, Serve(c, s0, login).0, run, s1, token);
    LogoutKills(c, s1, logout, token);
    RunKeeps(c, Serve(c, s1, logout).0, rest, s, token);
  }

  /** Logout is permanent: in every run, a token that was issued and logged out gets a request past the
      bearer filter only in the two cases above, and never if the store answers and keeps an entry
      through its last instant. */
  lemma LogoutIsPermanent(c: Config, token: string, s: State, r: Request)
    requires LoggedOutBefore(c, token, s) && Enabled(c, s, r)
    requires Ticket(r.input).Some? && Ticket(r.input).value.0 == token && !StartsWith(r.input, LOGIN)
    ensures Serve(c, s, r).1 != Forbidden <==>
            Verified(c, token, r.verifiedAt) &&
            (!r.readable ||
             (!c.keepsLastInstant &&
              BLACKLIST + token in s.blacklist &&
              r.checkedAt == r.verifiedAt == c.claims(token).value.exp * NANOS == s.blacklist[BLACKLIST + token]))
    ensures r.readable && c.keepsLastInstant ==> Serve(c, s, r).1 == Forbidden
  {
    LoggedOutIsDead(c, token, s);
    DeadAdmittedExactly(c, s, r, token);
    hide Admits, Verified, Present, Ticket, LoggedOutBefore;
  }

  /** The request asks for this token text to be logged out. */
  predicate AsksLogout(r: Request, token: string)
  {
    Ticket(r.input) == Some((token, "logout"))
  }

  /** The blacklist goes by the token's text: a run without a logout of this very text leaves the filter's
      verdict on it as it was, whatever other texts - even of the same claims - were logged out. */
  lemma {:induction false} OtherTextsStay(c: Config, before: State, run: seq<Request>, after: State, token: string,
                                          r: Request)
    requires Reaches(c, before, run, after) && forall q :: q in run ==> !AsksLogout(q, token)
    ensures Admits(c, after, r, token) == Admits(c, before, r, token)
    decreases |run|
  {
    if run != [] {
      assert run[0] in run;
      OtherTextStays(c, before, run[0], token, r);
      hide Admits, Serve, AsksLogout;
      OtherTextsStay(c, Serve(c, before, run[0]).0, run[1..], after, token, r);
    }
  }

  lemma OtherTextStays(c: Config, s: State, q: Request, token: string, r: Request)
    requires !AsksLogout(q, token)
    ensures Admits(c, Serve(c, s, q).0, r, token) == Admits(c, s, r, token)
  {
    hide Ticket, StartsWith;
    if Ticket(q.input).Some? {
      var other := Ticket(q.input).value.0;
      assert (BLACKLIST + other)[3..] == other && (BLACKLIST + token)[3..] == token;
    }
  }

  /** In the last case the token must have been logged out in the nanosecond in which it was issued. */
  lemma GapNeedsInstantLogout(expiresFrom: int, loggedOutAt: int)
    requires expiresFrom <= loggedOutAt
    ensures Seconds(expiresFrom + LIFETIME) * NANOS == loggedOutAt + LIFETIME
       <==> expiresFrom == loggedOutAt && expiresFrom % NANOS == 0
  {
  }

  function BearerRequest(content: string, t: int): (r: Request)
  {
    Request(BEARER + "t" + " " + content, false, "", t, t, true, t, t, true, t)
  }

  lemma BearerIs(content: string, t: int)
    ensures Ticket(BearerRequest(content, t).input) == Some(("t", content))
    ensures StartsWith(BearerRequest(content, t).input, BEARER) && !StartsWith(BearerRequest(content, t).input, LOGIN)
  {
    TicketOf("t", content);
    hide Ticket;
    var input := BearerRequest(content, t).input;
    assert input[..7] == BEARER && input[0] != LOGIN[0];
  }

  /** With a store stricter than that - one that no longer reports an entry at its last instant - the claim
      fails: issued and logged out at time 0, passed at its expiry. */
  lemma LogoutGap()
    ensures (var c := Config(_ => Some(Claims(0, 7200)), false);
             var login := Request(LOGIN + "u p", true, "t", 0, 0, true, 0, 0, true, 0);
             var logout, late := BearerRequest("logout", 0), BearerRequest("hello", LIFETIME);
             var s0 := State(0, map[]);
             var s1 := Serve(c, s0, login).0;
             var s2 := Serve(c, s1, logout).0;
             && Enabled(c, s0, login) && Serve(c, s0, login).1 == LoggedIn("t")
             && Enabled(c, s1, logout) && Serve(c, s1, logout).1 == LoggedOut
             && Enabled(c, s2, late) && Serve(c, s2, late).1 == Passed("hello"))
  {
    BearerIs("logout", 0);
    BearerIs("hello", LIFETIME);
    hide Ticket, StartsWith;
    assert StartsWith(LOGIN + "u p", LOGIN) by { LoginStarts("u p"); }
  }

  lemma LoginStarts(rest: string)
    ensures StartsWith(LOGIN + rest, LOGIN)
  {
  }

  // ---------- The filters ----------

  class RequestContext {
    var rawInput: string
    var realQuestion: string
    var responseMsg: Option<Reply>
    var isHandled: bool

    constructor (input: string)
      ensures rawInput == input && realQuestion == "" && responseMsg == None && !isHandled
    {
      rawInput, realQuestion, responseMsg, isHandled := input, "", None, false;
    }
  }

  /** Answered with the refusal of the bearer filter. */
  predicate Refused(ctx: RequestContext)
    reads ctx
  {
    ctx.isHandled && ctx.responseMsg == Some(Forbidden)
  }

  class GatewayPipeline {
    const config: Config
    var clock: int
    var store: map<string, int>

    function Value(): (s: State)
      reads this
    {
      State(clock, store)
    }

    constructor (config: Config)
      ensures this.config == config && store == map[]
    {
      this.config, store := config, map[];
    }

    method LoginFilter(ctx: RequestContext, r: Request) returns (pass: bool)
      modifies this, ctx
      ensures ctx.rawInput == old(ctx.rawInput) && ctx.realQuestion == old(ctx.realQuestion) && store == old(store)
      ensures pass <==> !StartsWith(ctx.rawInput, LOGIN)
      ensures pass ==> clock == old(clock) && ctx.responseMsg == old(ctx.responseMsg) && ctx.isHandled == old(ctx.isHandled)
      ensures !pass ==> clock == r.expiresFrom && ctx.isHandled
                        && ctx.responseMsg == Some(if r.accepted then LoggedIn(r.token) else LoginRefused)
    {
      if StartsWith(ctx.rawInput, LOGIN) {
        clock := r.expiresFrom;
        ctx.responseMsg := Some(if r.accepted then LoggedIn(r.token) else LoginRefused);
        ctx.isHandled := true;
        return false;
      }
      return true;
    }

    /** On success the token takes the place of the input, for the next filter. */
    method JwtAuthFilter(ctx: RequestContext, r: Request) returns (pass: bool)
      modifies this`clock, ctx
      ensures pass <==> Ticket(old(ctx.rawInput)).Some?
                        && Admits(config, old(Value()), r, Ticket(old(ctx.rawInput)).value.0)
      ensures pass ==> (var token := Ticket(old(ctx.rawInput)).value.0;
                        config.claims(token).Some? && config.claims(token).value.iat * 1_000_000_000 <= r.verifiedAt
                        && r.verifiedAt <= config.claims(token).value.exp * 1_000_000_000
                        && (r.readable && "BL:" + token in old(store) ==> r.checkedAt >= old(store)["BL:" + token]))
      ensures pass ==> (ctx.rawInput, ctx.realQuestion) == Ticket(old(ctx.rawInput)).value
                       && ctx.responseMsg == old(ctx.responseMsg) && ctx.isHandled == old(ctx.isHandled)
      ensures !pass ==> ctx.isHandled && ctx.realQuestion == old(ctx.realQuestion)
      ensures !pass ==> ctx.responseMsg == Some(if StartsWith(old(ctx.rawInput), BEARER) then Forbidden else NoTicket)
      ensures clock == if Ticket(old(ctx.rawInput)).None? then old(clock) else r.verifiedAt
    {
      if !StartsWith(ctx.rawInput, BEARER) {
        ctx.responseMsg := Some(NoTicket);
        ctx.isHandled := true;
        return false;
      }
      var firstSpace := FindSpace(ctx.rawInput, 7);
      if firstSpace == |ctx.rawInput| {
        ctx.responseMsg := Some(Forbidden);
        ctx.isHandled := true;
        return false;
      }
      var token := ctx.rawInput[7..firstSpace];
      var content := ctx.rawInput[firstSpace + 1..];
      var ok := !(r.readable && Present(config, Value(), token, r.checkedAt)) && Verified(config, token, r.verifiedAt);
      clock := r.verifiedAt;
      if !ok {
        ctx.responseMsg := Some(Forbidden);
        ctx.isHandled := true;
        return false;
      }
      ctx.realQuestion := content;
      ctx.rawInput := token;
      return true;
    }

    method LogoutFilter(ctx: RequestContext, r: Request) returns (pass: bool)
      modifies this, ctx
      ensures ctx.rawInput == old(ctx.rawInput) && ctx.realQuestion == old(ctx.realQuestion)
      ensures pass <==> ctx.realQuestion != "logout"
      ensures pass ==> Value() == old(Value()) && ctx.responseMsg == old(ctx.responseMsg)
                       && ctx.isHandled == old(ctx.isHandled)
      ensures !pass ==> ctx.isHandled && clock == r.loggedOutAt
      ensures !pass && r.writable ==> ctx.responseMsg == Some(LoggedOut)
      ensures !pass && r.writable ==> store == old(store)[BLACKLIST + ctx.rawInput := r.loggedOutAt + LIFETIME]
      ensures !pass && !r.writable ==> ctx.responseMsg == Some(StoreFailed) && store == old(store)
    {
      if ctx.realQuestion == "logout" {
        var token := ctx.rawInput;
        if r.writable { store := store[BLACKLIST + token := r.loggedOutAt + LIFETIME]; }
        clock := r.loggedOutAt;
        ctx.responseMsg := Some(if r.writable then LoggedOut else StoreFailed);
        ctx.isHandled := true;
        return false;
      }
      return true;
    }

    /** Runs the filters in order until one stops. */
    method Process(ctx: RequestContext, r: Request)
      requires ctx.rawInput == r.input && ctx.responseMsg == None && !ctx.isHandled
      modifies this, ctx
      ensures Value() == Serve(config, old(Value()), r).0
      ensures ctx.isHandled <==> !Serve(config, old(Value()), r).1.Passed?
      ensures ctx.isHandled ==> ctx.responseMsg == Some(Serve(config, old(Value()), r).1)
      ensures !ctx.isHandled ==> ctx.realQuestion == Serve(config, old(Value()), r).1.question
      ensures Ticket(r.input).Some? && !Refused(ctx) ==>
                var token := Ticket(r.input).value.0;
                && config.claims(token).Some?
                && config.claims(token).value.iat * 1_000_000_000 <= r.verifiedAt
                && r.verifiedAt <= config.claims(token).value.exp * 1_000_000_000
                && (r.readable && "BL:" + token in old(store) ==>
                      r.checkedAt > old(store)["BL:" + token]
                      || (r.checkedAt == old(store)["BL:" + token] && !config.keepsLastInstant))
    {
      hide Ticket, Admits;
      TicketIsBearer(r.input);
      if Ticket(r.input).Some? {
        TicketParts(r.input);
        PassedExactly(config, Value(), r, Ticket(r.input).value.0, Ticket(r.input).value.1);
      }
      var pass := LoginFilter(ctx, r);
      if !pass { return; }
      pass := JwtAuthFilter(ctx, r);
      if !pass { return; }
      pass := LogoutFilter(ctx, r);
    }
  }

  lemma TicketIsBearer(input: string)
    ensures Ticket(input).Some? ==> StartsWith(input, BEARER)
  {
  }
}
