/**
 * The recursion of `send`, `send_`, `handle_request` and `redirect` of the client: what it does for every
 * server. A server is what each successive attempt to exchange a request meets.
 */
module ClientRedirect {
  import opened Wrappers

  datatype Error = Success | SSLPeerCouldBeClosed | ExceedRedirectCount | Connection | Unknown | Failure(code: nat)

  /** Whether `path` and `body` are empty, whether the method is GET or HEAD, `redirect_count_`, `authorization_count_`. */
  datatype Request = Request(
    pathEmpty: bool, bodyEmpty: bool, getOrHead: bool, redirects: nat, authorizations: nat)

  /** The `Location` header: absent, of no use, on this server, or on another one. */
  datatype Location = NoLocation | Unusable | Here(pathEmpty: bool) | Elsewhere(pathEmpty: bool)

  /** `challenge`: a header that digest authentication can answer; `closes`: the server closes the connection. */
  datatype Reply = Reply(status: nat, location: Location, challenge: bool, closes: bool)

  datatype Outcome = Fails(error: Error) | Replies(reply: Reply)

  /**
   * What one `send_` meets: whether an open socket is alive, whether connecting works, what is exchanged,
   * and whether `stop` was called meanwhile.
   */
  datatype Attempt = Attempt(alive: bool, connected: bool, connectError: Option<Error>, outcome: Outcome, stopped: bool)

  type Server = nat -> Attempt

  datatype Settings = Settings(follow: bool, keepAlive: bool, digest: bool)

  /**
   * After a call: the next attempt's number, the result, the error, the request (passed by reference), the
   * response, whether the socket is open, whether `send`'s assertions held, and how deep `send` was nested.
   */
  datatype Sent = Sent(
    k: nat, ret: bool, error: Error, req: Request, status: nat, challenge: bool, open: bool,
    asserts: bool, depth: nat)

  /** How many nested requests are still allowed. */
  function Budget(req: Request): nat {
    req.redirects + if req.authorizations < 5 then 5 - req.authorizations else 0
  }

  function Max(a: nat, b: nat): nat {
    if a < b then b else a
  }

  /** What a call keeps of the request's budget, and how deep it may go. */
  predicate Bounded(r: Sent, req: Request) {
    Budget(r.req) <= Budget(req) && r.depth <= Budget(req) + 1
  }

  /** `send`: a second try if the peer may have closed the connection before. */
  function Send(server: Server, s: Settings, k: nat, open: bool, req: Request, error: Error): (r: Sent)
    ensures Bounded(r, req)
    decreases Budget(req), 3
  {
    var first := SendOnce(server, s, k, open, req, error);
    if first.error == SSLPeerCouldBeClosed then
      var second := SendOnce(server, s, first.k, first.open, first.req, first.error);
      second.(asserts := first.asserts && !first.ret && second.asserts, depth := 1 + Max(first.depth, second.depth))
    else first.(depth := 1 + first.depth)
  }

  /** `send_` */
  function SendOnce(server: Server, s: Settings, k: nat, open: bool, req: Request, error: Error): (r: Sent)
    ensures Budget(r.req) <= Budget(req) && r.depth <= Budget(req)
    decreases Budget(req), 2
  {
    var a := server(k);
    var isAlive := open && a.alive;
    if !isAlive && !a.connected then
      Sent(k + 1, false, ConnectError(a.connectError, error), req, 0, false, false, true, 0)
    else
      var r := HandleRequest(server, s, k, req, if isAlive then error else Success);
      r.(open := r.open && !a.stopped && s.keepAlive && r.ret,
         error := if !r.ret && r.error == Success then Unknown else r.error)
  }

  /** An error that connecting did not set stays, unless it says success. */
  function ConnectError(e: Option<Error>, error: Error): Error {
    match e
    case Some(c) => if c == Success || c == SSLPeerCouldBeClosed then Connection else c
    case None => if error == Success then Connection else error
  }

  /**
   * Writing a request without a body goes through the content provider's loop, which sets the error to
   * success also when there is nothing to provide; a body is written without touching the error.
   */
  function ErrorAfterWriting(req: Request, error: Error): Error {
    if req.bodyEmpty then Success else error
  }

  /** The request that follows a redirect; after a 303 it is a GET without a body, unless it was a GET or HEAD. */
  function Redirected(req: Request, status: nat, pathEmpty: bool): (r: Request)
    requires req.redirects > 0
    ensures Budget(r) == Budget(req) - 1 && r.redirects == req.redirects - 1 && r.pathEmpty == pathEmpty
  {
    var next := req.(pathEmpty := pathEmpty, redirects := req.redirects - 1);
    if status == 303 && !req.getOrHead then next.(getOrHead := true, bodyEmpty := true) else next
  }

  /** `handle_request`: a redirect, and then digest authentication of whatever came out of that. */
  function HandleRequest(server: Server, s: Settings, k: nat, req: Request, error: Error): (r: Sent)
    ensures Budget(r.req) <= Budget(req) && r.depth <= Budget(req)
    decreases Budget(req), 1
  {
    if req.pathEmpty then Sent(k + 1, false, Connection, req, 0, false, true, true, 0)
    else
      match server(k).outcome
      case Fails(e) => Sent(k + 1, false, e, req, 0, false, true, true, 0)
      case Replies(reply) =>
        var got := Sent(k + 1, true, ErrorAfterWriting(req, error), req,
                        reply.status, reply.challenge, !reply.closes, true, 0);
        var redirected := if 300 < reply.status < 400 && s.follow then Redirect(server, s, got, reply.location) else got;
        if (redirected.status == 401 || redirected.status == 407)
           && redirected.req.authorizations < 5 && s.digest && redirected.challenge then
          Authorize(server, s, redirected)
        else redirected
  }

  /** `redirect`: only a redirect that succeeds replaces the request and the response. */
  function Redirect(server: Server, s: Settings, got: Sent, location: Location): (r: Sent)
    requires got.depth == 0
    ensures Budget(r.req) <= Budget(got.req) && r.depth <= Budget(got.req)
    ensures r.status != got.status ==> Budget(r.req) < Budget(got.req)
    ensures r.ret ==> Budget(r.req) < Budget(got.req)
    decreases Budget(got.req), 0
  {
    if got.req.redirects == 0 then got.(ret := false, error := ExceedRedirectCount)
    else if location.NoLocation? || location.Unusable? then got.(ret := false)
    else
      var next := Redirected(got.req, got.status, location.pathEmpty);
      var r := Replaced(got, Send(server, s, got.k, location.Here? && got.open, next, got.error));
      if location.Here? then r else r.(open := got.open)
  }

  function Replaced(got: Sent, inner: Sent): Sent {
    var r := got.(k := inner.k, ret := inner.ret, error := inner.error, open := inner.open,
                  asserts := got.asserts && inner.asserts, depth := Max(got.depth, inner.depth));
    if inner.ret then r.(req := inner.req, status := inner.status, challenge := inner.challenge) else r
  }

  /** The request again, with credentials; the request itself is not replaced. */
  function Authorize(server: Server, s: Settings, got: Sent): (r: Sent)
    requires got.req.authorizations < 5
    ensures r.req == got.req
    ensures r.depth <= Max(got.depth, Budget(got.req))
    decreases Budget(got.req), 0
  {
    var next := got.req.(authorizations := got.req.authorizations + 1);
    var inner := Send(server, s, got.k, got.open, next, got.error);
    Replaced(got, inner).(req := got.req)
  }

  // ---------- the assertion in send ----------

  /** An error that asks for a second try is never left behind by a success, and no assertion failed. */
  predicate Safe(r: Sent) {
    r.asserts && (r.error == SSLPeerCouldBeClosed ==> !r.ret)
  }

  /** A request that replaces the error it was given in any case. */
  predicate Clears(req: Request) {
    req.pathEmpty || req.bodyEmpty
  }

  lemma {:induction false} SendSafe(server: Server, s: Settings, k: nat, open: bool, req: Request, error: Error)
    requires error == SSLPeerCouldBeClosed && open ==> Clears(req)
    ensures Safe(Send(server, s, k, open, req, error))
    decreases Budget(req), 3
  {
    hide SendOnce;
    OnceSafe(server, s, k, open, req, error);
    var first := SendOnce(server, s, k, open, req, error);
    if first.error == SSLPeerCouldBeClosed {
      OnceSafe(server, s, first.k, first.open, first.req, first.error);
    }
  }

  lemma {:induction false} OnceSafe(server: Server, s: Settings, k: nat, open: bool, req: Request, error: Error)
    requires error == SSLPeerCouldBeClosed && open ==> Clears(req)
    ensures var r := SendOnce(server, s, k, open, req, error); Safe(r) && (r.error == SSLPeerCouldBeClosed ==> !r.open)
    decreases Budget(req), 2
  {
    hide HandleRequest;
    var isAlive := open && server(k).alive;
    if isAlive || server(k).connected {
      HandleSafe(server, s, k, req, if isAlive then error else Success);
    }
  }

  lemma {:induction false} HandleSafe(server: Server, s: Settings, k: nat, req: Request, error: Error)
    requires error == SSLPeerCouldBeClosed ==> Clears(req)
    ensures Safe(HandleRequest(server, s, k, req, error))
    decreases Budget(req), 1
  {
    hide Redirect, Authorize;
    if !req.pathEmpty && server(k).outcome.Replies? {
      var reply := server(k).outcome.reply;
      var got := Sent(k + 1, true, ErrorAfterWriting(req, error), req,
                      reply.status, reply.challenge, !reply.closes, true, 0);
      if 300 < reply.status < 400 && s.follow {
        RedirectSafe(server, s, got, reply.location);
        var r := Redirect(server, s, got, reply.location);
        if (r.status == 401 || r.status == 407) && r.req.authorizations < 5 && s.digest && r.challenge {
          AuthorizeSafe(server, s, r);
        }
      } else if (got.status == 401 || got.status == 407) && req.authorizations < 5 && s.digest && got.challenge {
        AuthorizeSafe(server, s, got);
      }
    }
  }

  lemma {:induction false} RedirectSafe(server: Server, s: Settings, got: Sent, location: Location)
    requires got.depth == 0 && got.error != SSLPeerCouldBeClosed && got.asserts
    ensures var r := Redirect(server, s, got, location); Safe(r) && (!r.ret ==> r.status == got.status)
    decreases Budget(got.req), 0
  {
    hide Send;
    if got.req.redirects > 0 && (location.Here? || location.Elsewhere?) {
      var next := Redirected(got.req, got.status, location.pathEmpty);
      SendSafe(server, s, got.k, location.Here? && got.open, next, got.error);
    }
  }

  lemma {:induction false} AuthorizeSafe(server: Server, s: Settings, got: Sent)
    requires got.req.authorizations < 5 && got.error != SSLPeerCouldBeClosed && got.asserts
    ensures Safe(Authorize(server, s, got))
    decreases Budget(got.req), 0
  {
    hide Send;
    SendSafe(server, s, got.k, got.open, got.req.(authorizations := got.req.authorizations + 1), got.error);
  }

  /** A server that answers every request at once on the connection there is. */
  function Obliging(): Server {
    (k: nat) => Attempt(true, true, None, Replies(Reply(200, NoLocation, false, false)), false)
  }

  /**
   * The assertions of `send` hold for every server, unless the caller passes in the error that is meant for
   * internal use, over a socket that is open, for a request that has a path and a body.
   */
  lemma AssertsExactly(s: Settings, k: nat, open: bool, req: Request, error: Error)
    ensures (forall server: Server :: Send(server, s, k, open, req, error).asserts)
            <==> !(error == SSLPeerCouldBeClosed && open && !req.pathEmpty && !req.bodyEmpty)
  {
    hide Send;
    if error == SSLPeerCouldBeClosed && open && !Clears(req) {
      ObligingFails(s, k, req);
    } else {
      forall server: Server ensures Send(server, s, k, open, req, error).asserts {
        SendSafe(server, s, k, open, req, error);
      }
    }
  }

  lemma HandleObliging(s: Settings, k: nat, req: Request, error: Error)
    requires !Clears(req)
    ensures HandleRequest(Obliging(), s, k, req, error) == Sent(k + 1, true, error, req, 200, false, true, true, 0)
  {
  }

  lemma OnceObliging(s: Settings, k: nat, req: Request)
    requires !Clears(req)
    ensures var r := SendOnce(Obliging(), s, k, true, req, SSLPeerCouldBeClosed); r.ret && r.error == SSLPeerCouldBeClosed
  {
    hide HandleRequest;
    HandleObliging(s, k, req, SSLPeerCouldBeClosed);
    assert Obliging()(k).alive;
  }

  lemma ObligingFails(s: Settings, k: nat, req: Request)
    requires !Clears(req)
    ensures !Send(Obliging(), s, k, true, req, SSLPeerCouldBeClosed).asserts
  {
    hide SendOnce;
    OnceObliging(s, k, req);
  }

  // ---------- how far it goes ----------

  /** A server that redirects to itself for ever. */
  ghost predicate RedirectsForEver(server: Server) {
    forall k: nat :: Circular(server(k))
  }

  predicate Circular(a: Attempt) {
    a.connected && a.outcome.Replies? && 300 < a.outcome.reply.status < 400 && a.outcome.reply.location == Here(false)
  }

  /** Against such a server the client sends one request more than the redirects allowed and reports why it stopped. */
  lemma {:induction false} EndlessRedirects(server: Server, s: Settings, k: nat, open: bool, req: Request)
    requires RedirectsForEver(server) && s.follow && !req.pathEmpty
    ensures var r := Send(server, s, k, open, req, Success);
            RanOut(r, k + req.redirects + 1, req.redirects + 1)
    decreases req.redirects
  {
    hide Send, Authorize;
    assert Circular(server(k));
    var reply := server(k).outcome.reply;
    if req.redirects > 0 {
      EndlessRedirects(server, s, k + 1, !reply.closes, Redirected(req, reply.status, false));
    }
    OneRedirect(server, s, k, open, req);
  }

  /** The result of a request whose redirects ran out. */
  predicate RanOut(r: Sent, k: nat, depth: nat) {
    !r.ret && r.error == ExceedRedirectCount && r.k == k && r.depth == depth
  }

  lemma RedirectRunsOut(server: Server, s: Settings, got: Sent)
    requires got.depth == 0
    requires got.req.redirects > 0 ==>
               RanOut(Send(server, s, got.k, got.open,
                           Redirected(got.req, got.status, false), got.error),
                      got.k + got.req.redirects, got.req.redirects)
    ensures var r := Redirect(server, s, got, Here(false));
            RanOut(r, got.k + got.req.redirects, got.req.redirects) && r.status == got.status
  {
    hide Send;
  }

  lemma HandleRunsOut(server: Server, s: Settings, k: nat, req: Request)
    requires Circular(server(k)) && s.follow && !req.pathEmpty
    requires req.redirects > 0 ==>
               RanOut(Send(server, s, k + 1, !server(k).outcome.reply.closes,
                           Redirected(req, server(k).outcome.reply.status, false), Success),
                      k + 1 + req.redirects, req.redirects)
    ensures RanOut(HandleRequest(server, s, k, req, Success), k + 1 + req.redirects, req.redirects)
  {
    hide Send, Redirect, Authorize, RanOut;
    var reply := server(k).outcome.reply;
    var got := Sent(k + 1, true, Success, req, reply.status, reply.challenge, !reply.closes, true, 0);
    RedirectRunsOut(server, s, got);
  }

  lemma OneRedirect(server: Server, s: Settings, k: nat, open: bool, req: Request)
    requires Circular(server(k)) && s.follow && !req.pathEmpty
    requires req.redirects > 0 ==>
               RanOut(Send(server, s, k + 1, !server(k).outcome.reply.closes,
                           Redirected(req, server(k).outcome.reply.status, false), Success),
                      k + 1 + req.redirects, req.redirects)
    ensures RanOut(Send(server, s, k, open, req, Success), k + req.redirects + 1, req.redirects + 1)
  {
    HandleRunsOut(server, s, k, req);
    hide HandleRequest;
    var r := SendOnce(server, s, k, open, req, Success);
    assert RanOut(r, k + 1 + req.redirects, req.redirects);
  }

  /** A bound on the requests that one `send_` leads to, second tries included. */
  function Attempts(budget: nat): nat {
    if budget == 0 then 1
    else if budget == 1 then 1 + 2 * Attempts(0)
    else 1 + 2 * Attempts(budget - 1) + 2 * Attempts(budget - 2)
  }

  lemma {:induction false} AttemptsGrow(a: nat, b: nat)
    requires a <= b
    ensures Attempts(a) <= Attempts(b)
    decreases b - a
  {
    if a < b {
      AttemptsGrow(a, b - 1);
    }
  }

  /** However the servers behave, a request comes to an end after so many exchanges. */
  lemma {:induction false} SendEnds(server: Server, s: Settings, k: nat, open: bool, req: Request, error: Error)
    ensures k <= Send(server, s, k, open, req, error).k <= k + 2 * Attempts(Budget(req))
    decreases Budget(req), 3
  {
    hide SendOnce, Attempts;
    OnceEnds(server, s, k, open, req, error);
    var first := SendOnce(server, s, k, open, req, error);
    if first.error == SSLPeerCouldBeClosed {
      OnceEnds(server, s, first.k, first.open, first.req, first.error);
      AttemptsGrow(Budget(first.req), Budget(req));
    }
  }

  lemma {:induction false} OnceEnds(server: Server, s: Settings, k: nat, open: bool, req: Request, error: Error)
    ensures k <= SendOnce(server, s, k, open, req, error).k <= k + Attempts(Budget(req))
    decreases Budget(req), 2
  {
    hide HandleRequest, Redirect, Authorize, Attempts;
    var isAlive := open && server(k).alive;
    AttemptsPositive(Budget(req));
    if isAlive || server(k).connected {
      HandleEnds(server, s, k, req, if isAlive then error else Success);
    }
  }

  lemma AttemptsPositive(b: nat)
    ensures Attempts(b) >= 1
  {
  }

  lemma {:induction false} HandleEnds(server: Server, s: Settings, k: nat, req: Request, error: Error)
    ensures k <= HandleRequest(server, s, k, req, error).k <= k + Attempts(Budget(req))
    decreases Budget(req), 1
  {
    hide Redirect, Authorize, Attempts;
    AttemptsPositive(Budget(req));
    if !req.pathEmpty && server(k).outcome.Replies? {
      var reply := server(k).outcome.reply;
      var got := Sent(k + 1, true, ErrorAfterWriting(req, error), req,
                      reply.status, reply.challenge, !reply.closes, true, 0);
      if 300 < reply.status < 400 && s.follow {
        RedirectEnds(server, s, got, reply.location);
        var r := Redirect(server, s, got, reply.location);
        if (r.status == 401 || r.status == 407) && r.req.authorizations < 5 {
          AuthorizeEnds(server, s, r);
          BothFit(Budget(req), Budget(r.req));
        }
        OneFits(Budget(req), req.redirects);
      } else if req.authorizations < 5 {
        AuthorizeEnds(server, s, got);
        OneFits(Budget(req), Budget(req));
      }
    }
  }

  lemma BothFit(b: nat, rest: nat)
    requires 0 < rest < b
    ensures 1 + 2 * Attempts(b - 1) + 2 * Attempts(rest - 1) <= Attempts(b)
  {
    hide Attempts;
    AttemptsGrow(rest - 1, b - 2);
    AttemptsUnfold(b);
  }

  lemma OneFits(b: nat, n: nat)
    ensures b > 0 && n > 0 ==> 1 + 2 * Attempts(b - 1) <= Attempts(b)
    ensures 1 <= Attempts(b)
  {
    hide Attempts;
    AttemptsPositive(b);
    AttemptsUnfold(b);
  }

  lemma AttemptsUnfold(b: nat)
    ensures b == 1 ==> Attempts(b) == 1 + 2 * Attempts(0)
    ensures b >= 2 ==> Attempts(b) == 1 + 2 * Attempts(b - 1) + 2 * Attempts(b - 2)
  {
  }

  lemma {:induction false} RedirectEnds(server: Server, s: Settings, got: Sent, location: Location)
    requires got.depth == 0
    ensures var r := Redirect(server, s, got, location);
            got.k <= r.k <= got.k + if got.req.redirects > 0 then 2 * Attempts(Budget(got.req) - 1) else 0
    decreases Budget(got.req), 0
  {
    hide Send, Attempts;
    if got.req.redirects > 0 && (location.Here? || location.Elsewhere?) {
      var next := Redirected(got.req, got.status, location.pathEmpty);
      SendEnds(server, s, got.k, location.Here? && got.open, next, got.error);
    }
  }

  lemma {:induction false} AuthorizeEnds(server: Server, s: Settings, got: Sent)
    requires got.req.authorizations < 5
    ensures got.k <= Authorize(server, s, got).k <= got.k + 2 * Attempts(Budget(got.req) - 1)
    decreases Budget(got.req), 0
  {
    hide Send, Attempts;
    SendEnds(server, s, got.k, got.open, got.req.(authorizations := got.req.authorizations + 1), got.error);
  }
}
