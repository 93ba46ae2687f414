/**
  Following upstream redirects. One run of `Send` issues a chain of requests; the lemmas
  state what holds of every request of every run, whatever the upstreams reply.
*/
module Redirects {
  import opened Wrappers

  const MAX_REDIRECTS: nat := 5

  datatype Host = Domain(name: string) | Address(text: string) | NoHost

  /** A parsed URL; `port` is absent when it is the scheme's default. */
  datatype Url = Url(scheme: string, username: string, password: Option<string>, host: Host, port: Option<nat>, rest: string)

  datatype Client = Trusted | TokenTrusted | Public

  type Headers = map<string, string>

  const CREDENTIALS: set<string> := {"authorization", "proxy-authorization", "cookie"}

  /** One request: where it goes, what it carries, and through which client. */
  datatype Hop = Hop(url: Url, headers: Headers, client: Client)

  /** A `Location` value is text or undecodable bytes. */
  datatype Location = Text(value: string) | Undecodable

  datatype Reply = TransportFailure | Response(status: nat, locations: seq<Location>)

  datatype RedirectError =
    | NotPublic | TransportFailed | NoLocation | RepeatedLocation | Malformed
    | UnsupportedScheme | Userinfo | Downgrade | LimitExceeded

  /** The URL library's reference resolution, and the host names that count as public. */
  datatype Library = Library(join: (Url, string) -> Option<Url>, publicName: string -> bool)

  /** Only these schemes have an origin two URLs can share. */
  predicate HasOrigin(scheme: string) {
    scheme == "http" || scheme == "https" || scheme == "ftp" || scheme == "ws" || scheme == "wss"
  }

  predicate SameOrigin(a: Url, b: Url) {
    HasOrigin(a.scheme) && a.scheme == b.scheme && a.host == b.host && a.port == b.port
  }

  predicate NoUserinfo(url: Url) {
    url.username == "" && url.password.None?
  }

  predicate PublicHttps(url: Url, library: Library) {
    url.scheme == "https" && NoUserinfo(url) && url.host.Domain? && library.publicName(url.host.name)
  }

  predicate RedirectStatus(status: nat) {
    status == 301 || status == 302 || status == 303 || status == 307 || status == 308
  }

  /** The request a redirect leads to. */
  function Redirect(hop: Hop, locations: seq<Location>, library: Library): Result<Hop, RedirectError> {
    if locations == [] then Err(NoLocation)
    else if |locations| > 1 then Err(RepeatedLocation)
    else if locations[0].Undecodable? then Err(Malformed)
    else
      match library.join(hop.url, locations[0].value)
      case None => Err(Malformed)
      case Some(target) =>
        if target.scheme != "http" && target.scheme != "https" then Err(UnsupportedScheme)
        else if !NoUserinfo(target) then Err(Userinfo)
        else if hop.url.scheme == "https" && target.scheme != "https" then Err(Downgrade)
        else if SameOrigin(hop.url, target) then Ok(hop.(url := target))
        else if !PublicHttps(target, library) then Err(NotPublic)
        else Ok(Hop(target, hop.headers - CREDENTIALS, Public))
  }

  /** The headers and client of a request, updated in place from hop to hop. */
  class Context {
    var headers: Headers
    var client: Client

    constructor (headers: Headers, client: Client)
      ensures this.headers == headers && this.client == client
    {
      this.headers, this.client := headers, client;
    }

    /** A refused redirect changes nothing. */
    method RedirectTarget(current: Url, locations: seq<Location>, library: Library) returns (r: Result<Url, RedirectError>)
      modifies this
      ensures var before := Hop(current, old(headers), old(client));
              match Redirect(before, locations, library)
              case Err(e) => r == Err(e) && headers == old(headers) && client == old(client)
              case Ok(hop) => r == Ok(hop.url) && Hop(hop.url, headers, client) == hop
    {
      if locations == [] {
        return Err(NoLocation);
      }
      if |locations| > 1 {
        return Err(RepeatedLocation);
      }
      if locations[0].Undecodable? {
        return Err(Malformed);
      }
      var joined := library.join(current, locations[0].value);
      if joined.None? {
        return Err(Malformed);
      }
      var target := joined.value;
      if target.scheme != "http" && target.scheme != "https" {
        return Err(UnsupportedScheme);
      }
      if !NoUserinfo(target) {
        return Err(Userinfo);
      }
      if current.scheme == "https" && target.scheme != "https" {
        return Err(Downgrade);
      }
      if !SameOrigin(current, target) {
        if !PublicHttps(target, library) {
          return Err(NotPublic);
        }
        headers := headers - CREDENTIALS;
        client := Public;
      }
      return Ok(target);
    }
  }

  datatype Outcome = Delivered(reply: Reply) | Failed(error: RedirectError)

  /** The requests of a run, in order, and how it ended. */
  datatype Trail = Trail(sent: seq<Hop>, outcome: Outcome)

  /** The upstreams may answer the n-th request with anything. */
  type Upstreams = nat -> Reply

  function Follow(hop: Hop, followed: nat, follow: bool, upstreams: Upstreams, library: Library): Trail
    requires followed <= MAX_REDIRECTS
    decreases MAX_REDIRECTS - followed
  {
    match upstreams(followed)
    case TransportFailure => Trail([hop], Failed(TransportFailed))
    case Response(status, locations) =>
      if !follow || !RedirectStatus(status) then Trail([hop], Delivered(upstreams(followed)))
      else if followed == MAX_REDIRECTS then Trail([hop], Failed(LimitExceeded))
      else
        match Redirect(hop, locations, library)
        case Err(e) => Trail([hop], Failed(e))
        case Ok(next) =>
          var later := Follow(next, followed + 1, follow, upstreams, library);
          Trail([hop] + later.sent, later.outcome)
  }

  function RunOf(start: Hop, follow: bool, upstreams: Upstreams, library: Library): Trail {
    if start.client == Public && !PublicHttps(start.url, library) then Trail([], Failed(NotPublic))
    else Follow(start, 0, follow, upstreams, library)
  }

  /** A redirect that is followed puts the request in front of what follows. */
  lemma {:induction false} FollowOn(hop: Hop, followed: nat, follow: bool, upstreams: Upstreams, library: Library, sent: seq<Hop>)
    requires followed < MAX_REDIRECTS && follow && upstreams(followed).Response?
    requires RedirectStatus(upstreams(followed).status)
    requires Redirect(hop, upstreams(followed).locations, library).Ok?
    ensures var now := Follow(hop, followed, follow, upstreams, library);
            var next := Redirect(hop, upstreams(followed).locations, library).value;
            var later := Follow(next, followed + 1, follow, upstreams, library);
            Trail(sent + now.sent, now.outcome) == Trail((sent + [hop]) + later.sent, later.outcome)
  {
    hide Redirect;
  }

  method Send(start: Hop, follow: bool, upstreams: Upstreams, library: Library) returns (outcome: Outcome, sent: seq<Hop>)
    ensures Trail(sent, outcome) == RunOf(start, follow, upstreams, library)
  {
    hide Redirect, PublicHttps;
    sent := [];
    if start.client == Public && !PublicHttps(start.url, library) {
      return Failed(NotPublic), sent;
    }
    var url := start.url;
    var context := new Context(start.headers, start.client);
    var followed := 0;
    while true
      invariant followed <= MAX_REDIRECTS && fresh(context)
      invariant var later := Follow(Hop(url, context.headers, context.client), followed, follow, upstreams, library);
                RunOf(start, follow, upstreams, library) == Trail(sent + later.sent, later.outcome)
      decreases MAX_REDIRECTS - followed
    {
      var hop := Hop(url, context.headers, context.client);
      sent := sent + [hop];
      var reply := upstreams(followed);
      if reply.TransportFailure? {
        return Failed(TransportFailed), sent;
      }
      if !follow || !RedirectStatus(reply.status) {
        return Delivered(reply), sent;
      }
      if followed == MAX_REDIRECTS {
        return Failed(LimitExceeded), sent;
      }
      var target := context.RedirectTarget(url, reply.locations, library);
      if target.Err? {
        return Failed(target.error), sent;
      }
      FollowOn(hop, followed, follow, upstreams, library, sent[..|sent| - 1]);
      url := target.value;
      followed := followed + 1;
    }
  }

  /* ---- Which redirects are followed ---- */

  /** Over HTTPS to a public DNS name, without userinfo. */
  predicate IsPublicTarget(url: Url, library: Library) {
    && url.scheme == "https" && url.username == "" && url.password == None
    && match url.host
       case Domain(name) => library.publicName(name)
       case _ => false
  }

  /** Where a single `Location` text leads from `current`, if it leads anywhere. */
  function Destination(current: Url, reply: Reply, library: Library): Option<Url> {
    if reply.Response? && |reply.locations| == 1 && reply.locations[0].Text?
    then library.join(current, reply.locations[0].value) else None
  }

  /** A target that may be requested after `current`. */
  predicate Permitted(current: Url, target: Url, library: Library) {
    && target.scheme in {"http", "https"} && target.username == "" && target.password == None
    && (current.scheme == "https" ==> target.scheme == "https")
    && ((current.scheme, current.host, current.port) == (target.scheme, target.host, target.port) || IsPublicTarget(target, library))
  }

  /** A redirect is taken exactly to the one permitted destination, and its origin decides what it carries. */
  lemma {:induction false} RedirectExactly(hop: Hop, status: nat, locations: seq<Location>, library: Library)
    ensures var destination := Destination(hop.url, Response(status, locations), library);
            var next := Redirect(hop, locations, library);
            && (next.Ok? <==> destination.Some? && Permitted(hop.url, destination.value, library))
            && (next.Ok? ==>
                  var target := destination.value;
                  next.value ==
                  if (hop.url.scheme, hop.url.host, hop.url.port) == (target.scheme, target.host, target.port)
                  then Hop(target, hop.headers, hop.client)
                  else Hop(target, hop.headers - {"authorization", "proxy-authorization", "cookie"}, Public))
  {
  }

  /** What a refused redirect is refused for; earlier reasons come first. */
  lemma {:induction false} RefusalExactly(hop: Hop, locations: seq<Location>, library: Library)
    requires Redirect(hop, locations, library).Err?
    ensures Redirect(hop, locations, library).error ==
            if |locations| == 0 then NoLocation
            else if |locations| >= 2 then RepeatedLocation
            else if Destination(hop.url, Response(302, locations), library) == None then Malformed
            else
              var target := Destination(hop.url, Response(302, locations), library).value;
              if target.scheme !in {"http", "https"} then UnsupportedScheme
              else if target.username != "" || target.password != None then Userinfo
              else if hop.url.scheme == "https" && target.scheme == "http" then Downgrade
              else NotPublic
  {
  }

  /** The reply asks for a redirect that is followed from `current`. */
  predicate IsFollowed(current: Url, reply: Reply, follow: bool, library: Library) {
    && follow && reply.Response? && reply.status in {301, 302, 303, 307, 308}
    && var destination := Destination(current, reply, library);
       destination.Some? && Permitted(current, destination.value, library)
  }

  /** There is a request after the i-th exactly if its reply is followed, and it goes where that says. */
  predicate IsExplained(sent: seq<Hop>, i: nat, follow: bool, upstreams: Upstreams, library: Library)
    requires i < |sent|
  {
    && (i + 1 < |sent| <==> i < 5 && IsFollowed(sent[i].url, upstreams(i), follow, library))
    && (i + 1 < |sent| ==> Some(sent[i + 1].url) == Destination(sent[i].url, upstreams(i), library))
  }

  lemma {:induction false} FollowExactly(hop: Hop, followed: nat, follow: bool, upstreams: Upstreams, library: Library, i: nat)
    requires followed <= MAX_REDIRECTS && i < |Follow(hop, followed, follow, upstreams, library).sent|
    ensures var sent := Follow(hop, followed, follow, upstreams, library).sent;
            && (i + 1 < |sent| <==> followed + i < 5 && IsFollowed(sent[i].url, upstreams(followed + i), follow, library))
            && (i + 1 < |sent| ==> Some(sent[i + 1].url) == Destination(sent[i].url, upstreams(followed + i), library))
    decreases i
  {
    hide Redirect, Permitted, Destination;
    var reply := upstreams(followed);
    if reply.Response? {
      assert RedirectStatus(reply.status) <==> reply.status in {301, 302, 303, 307, 308};
      RedirectExactly(hop, reply.status, reply.locations, library);
      assert Response(reply.status, reply.locations) == reply;
      if follow && RedirectStatus(reply.status) && followed < MAX_REDIRECTS && Redirect(hop, reply.locations, library).Ok? {
        var next := Redirect(hop, reply.locations, library).value;
        var later := Follow(next, followed + 1, follow, upstreams, library);
        FollowStarts(next, followed + 1, follow, upstreams, library);
        if i > 0 {
          FollowExactly(next, followed + 1, follow, upstreams, library, i - 1);
        }
      }
    }
  }

  lemma {:induction false} FollowStarts(hop: Hop, followed: nat, follow: bool, upstreams: Upstreams, library: Library)
    requires followed <= MAX_REDIRECTS
    ensures var sent := Follow(hop, followed, follow, upstreams, library).sent; sent != [] && sent[0] == hop
  {
    hide Redirect;
  }

  /**
    Main result: what every run requests. It starts with the given request, unless that is
    a public one to a target that is not. After the i-th request there is another exactly
    if fewer than five redirects were followed and the reply asks for one that is
    permitted, and it goes to what the URL library makes of the one `Location`.
  */
  lemma {:induction false} RequestsFollowReplies(start: Hop, follow: bool, upstreams: Upstreams, library: Library)
    ensures var sent := RunOf(start, follow, upstreams, library).sent;
            && (sent == [] <==> start.client == Public && !IsPublicTarget(start.url, library))
            && (sent != [] ==> sent[0] == start)
            && forall i | 0 <= i < |sent| :: IsExplained(sent, i, follow, upstreams, library)
  {
    hide Follow, IsFollowed, Destination;
    if start.client != Public || PublicHttps(start.url, library) {
      FollowStarts(start, 0, follow, upstreams, library);
      var sent := Follow(start, 0, follow, upstreams, library).sent;
      assert RunOf(start, follow, upstreams, library).sent == sent;
      forall i | 0 <= i < |sent|
        ensures IsExplained(sent, i, follow, upstreams, library)
      {
        FollowExactly(start, 0, follow, upstreams, library, i);
      }
    }
  }

  lemma {:induction false} FollowEnds(hop: Hop, followed: nat, follow: bool, upstreams: Upstreams, library: Library)
    requires followed <= MAX_REDIRECTS
    ensures var trail := Follow(hop, followed, follow, upstreams, library);
            var last, n := trail.sent[|trail.sent| - 1], followed + |trail.sent| - 1;
            var reply := upstreams(n);
            trail.outcome ==
            if reply.TransportFailure? then Failed(TransportFailed)
            else if !follow || reply.status !in {301, 302, 303, 307, 308} then Delivered(reply)
            else if n == 5 then Failed(LimitExceeded)
            else match Redirect(last, reply.locations, library)
                 case Err(e) => Failed(e)
                 case Ok(_) => trail.outcome
    decreases MAX_REDIRECTS - followed
  {
    hide Redirect;
    var reply := upstreams(followed);
    if reply.Response? {
      assert RedirectStatus(reply.status) <==> reply.status in {301, 302, 303, 307, 308};
      if follow && RedirectStatus(reply.status) && followed < MAX_REDIRECTS && Redirect(hop, reply.locations, library).Ok? {
        var next := Redirect(hop, reply.locations, library).value;
        FollowEnds(next, followed + 1, follow, upstreams, library);
      }
    }
  }

  /**
    How every run ends, read off the reply to its last request: a reply that asks for no
    redirect is delivered, a redirect too many or one that is refused is an error.
  */
  lemma {:induction false} OutcomeIsTheLastReply(start: Hop, follow: bool, upstreams: Upstreams, library: Library)
    requires RunOf(start, follow, upstreams, library).sent != []
    ensures var trail := RunOf(start, follow, upstreams, library);
            var n := |trail.sent| - 1;
            var reply := upstreams(n);
            && (trail.outcome == Delivered(reply) <==> reply.Response? && (!follow || reply.status !in {301, 302, 303, 307, 308}))
            && (trail.outcome.Delivered? ==> trail.outcome == Delivered(reply))
            && (trail.outcome == Failed(TransportFailed) <==> reply.TransportFailure?)
            && (trail.outcome == Failed(LimitExceeded) <==>
                  reply.Response? && follow && reply.status in {301, 302, 303, 307, 308} && n == 5)
            && (trail.outcome.Failed? && reply.Response? && n < 5 ==>
                  Redirect(trail.sent[n], reply.locations, library) == Err(trail.outcome.error))
  {
    hide Follow, Redirect, Destination, IsFollowed, PublicHttps;
    FollowStarts(start, 0, follow, upstreams, library);
    FollowEnds(start, 0, follow, upstreams, library);
    RequestsFollowReplies(start, follow, upstreams, library);
    var trail := RunOf(start, follow, upstreams, library);
    var n := |trail.sent| - 1;
    RunIsBounded(start, follow, upstreams, library);
    assert IsExplained(trail.sent, n, follow, upstreams, library);
    var reply := upstreams(n);
    if reply.Response? {
      LastIsRefused(trail.sent[n], reply, follow, library);
    }
  }

  /** A redirect that is asked for and not followed is refused, for a reason of its own. */
  lemma {:induction false} LastIsRefused(last: Hop, reply: Reply, follow: bool, library: Library)
    requires reply.Response?
    ensures follow && reply.status in {301, 302, 303, 307, 308} && !IsFollowed(last.url, reply, follow, library) ==>
            && Redirect(last, reply.locations, library).Err?
            && Redirect(last, reply.locations, library).error != LimitExceeded
            && Redirect(last, reply.locations, library).error != TransportFailed
  {
    hide Redirect, Destination, Permitted;
    assert Response(reply.status, reply.locations) == reply;
    RedirectExactly(last, reply.status, reply.locations, library);
    RedirectNeverExceeds(last, reply.locations, library);
  }

  /* ---- What holds of every run ---- */

  /** `b` is the request some redirect of `a` leads to. */
  ghost predicate Follows(a: Hop, b: Hop, library: Library) {
    exists locations :: Redirect(a, locations, library) == Ok(b)
  }

  ghost predicate Chain(sent: seq<Hop>, library: Library) {
    forall i | 0 <= i < |sent| - 1 :: Follows(sent[i], sent[i + 1], library)
  }

  lemma {:induction false} ChainOne(hop: Hop, library: Library)
    ensures Chain([hop], library)
  {
  }

  lemma {:induction false} ChainPrepend(hop: Hop, later: seq<Hop>, library: Library)
    requires later != [] && Follows(hop, later[0], library) && Chain(later, library)
    ensures Chain([hop] + later, library)
  {
    var sent := [hop] + later;
    forall i | 0 <= i < |sent| - 1
      ensures Follows(sent[i], sent[i + 1], library)
    {
      if i > 0 {
        assert Follows(later[i - 1], later[i], library);
      }
    }
  }

  lemma {:induction false} RedirectNeverExceeds(hop: Hop, locations: seq<Location>, library: Library)
    ensures Redirect(hop, locations, library) != Err(LimitExceeded) && Redirect(hop, locations, library) != Err(TransportFailed)
  {
  }

  lemma {:induction false} FollowIsChain(hop: Hop, followed: nat, follow: bool, upstreams: Upstreams, library: Library)
    requires followed <= MAX_REDIRECTS
    ensures var trail := Follow(hop, followed, follow, upstreams, library);
            && 1 <= |trail.sent| <= MAX_REDIRECTS + 1 - followed
            && trail.sent[0] == hop
            && Chain(trail.sent, library)
            && (trail.outcome == Failed(LimitExceeded) ==> |trail.sent| == MAX_REDIRECTS + 1 - followed)
            && (trail.outcome.Delivered? ==>
                  && trail.outcome.reply == upstreams(followed + |trail.sent| - 1)
                  && trail.outcome.reply.Response?
                  && (follow ==> !RedirectStatus(trail.outcome.reply.status)))
    decreases MAX_REDIRECTS - followed
  {
    hide Redirect, Chain, PublicHttps, SameOrigin;
    ChainOne(hop, library);
    var reply := upstreams(followed);
    if reply.Response? && follow && RedirectStatus(reply.status) && followed < MAX_REDIRECTS {
      RedirectNeverExceeds(hop, reply.locations, library);
      var redirected := Redirect(hop, reply.locations, library);
      if redirected.Ok? {
        var next := redirected.value;
        FollowIsChain(next, followed + 1, follow, upstreams, library);
        var later := Follow(next, followed + 1, follow, upstreams, library).sent;
        assert Follows(hop, next, library);
        ChainPrepend(hop, later, library);
      }
    }
  }

  /** At most six requests, and a delivered reply is never a redirect that should be followed. */
  lemma {:induction false} RunIsBounded(start: Hop, follow: bool, upstreams: Upstreams, library: Library)
    ensures var trail := RunOf(start, follow, upstreams, library);
            && |trail.sent| <= 6
            && (trail.outcome == Failed(LimitExceeded) ==> |trail.sent| == 6)
            && Chain(trail.sent, library)
            && (trail.sent != [] ==> trail.sent[0] == start)
            && (trail.outcome.Delivered? ==> trail.sent != [] && trail.outcome.reply == upstreams(|trail.sent| - 1))
            && (trail.outcome.Delivered? && follow ==> !RedirectStatus(trail.outcome.reply.status))
  {
    if start.client != Public || PublicHttps(start.url, library) {
      FollowIsChain(start, 0, follow, upstreams, library);
    }
  }

  /** Same URL, or one of the same origin. */
  predicate AtHome(home: Url, url: Url) {
    url == home || SameOrigin(home, url)
  }

  /** What a request keeps from the first request of its chain. */
  ghost predicate Keeps(start: Hop, hop: Hop, library: Library) {
    && (hop.client == Public ==> PublicHttps(hop.url, library))
    && (hop.client != Public ==> hop.client == start.client && AtHome(start.url, hop.url))
    && (start.url.scheme == "https" ==> hop.url.scheme == "https")
    && (hop.headers == start.headers - CREDENTIALS || (hop.headers == start.headers && AtHome(start.url, hop.url)))
  }

  lemma {:induction false} KeepsNext(start: Hop, a: Hop, b: Hop, library: Library)
    requires Keeps(start, a, library) && Follows(a, b, library)
    ensures Keeps(start, b, library)
  {
    assert start.headers - CREDENTIALS - CREDENTIALS == start.headers - CREDENTIALS;
  }

  lemma {:induction false} ChainKeeps(sent: seq<Hop>, library: Library, i: nat)
    requires Chain(sent, library) && i < |sent|
    requires sent[0].client == Public ==> PublicHttps(sent[0].url, library)
    ensures Keeps(sent[0], sent[i], library)
  {
    if i > 0 {
      ChainKeeps(sent, library, i - 1);
      assert Follows(sent[i - 1], sent[i], library);
      KeepsNext(sent[0], sent[i - 1], sent[i], library);
    }
  }

  /**
    Main result, for every request of every run. The public client only ever requests
    public HTTPS without userinfo. Any other client is the initial one, still at the
    initial origin. A credential header is only ever sent to the initial origin, and every
    other header is sent unchanged each time.
  */
  lemma {:induction false} EveryRequestIsSafe(start: Hop, follow: bool, upstreams: Upstreams, library: Library, i: nat)
    requires i < |RunOf(start, follow, upstreams, library).sent|
    ensures var hop := RunOf(start, follow, upstreams, library).sent[i];
            var credentials := {"authorization", "proxy-authorization", "cookie"};
            var home := hop.url == start.url ||
                        (hop.url.scheme, hop.url.host, hop.url.port) == (start.url.scheme, start.url.host, start.url.port);
            && (hop.client == Public ==> IsPublicTarget(hop.url, library))
            && (hop.client != Public ==> hop.client == start.client && home)
            && (forall name | name in hop.headers && name in credentials :: home)
            && hop.headers - credentials == start.headers - credentials
            && (forall name | name in hop.headers :: name in start.headers && hop.headers[name] == start.headers[name])
  {
    RunIsBounded(start, follow, upstreams, library);
    var sent := RunOf(start, follow, upstreams, library).sent;
    ChainKeeps(sent, library, i);
    assert start.headers - CREDENTIALS - CREDENTIALS == start.headers - CREDENTIALS;
  }

  /** Once stripped, always stripped; once HTTPS, always HTTPS. */
  lemma {:induction false} LaterHopsKeep(sent: seq<Hop>, library: Library, i: nat, j: nat)
    requires Chain(sent, library) && i <= j < |sent|
    ensures sent[i].url.scheme == "https" ==> sent[j].url.scheme == "https"
    ensures sent[i].headers.Keys !! CREDENTIALS ==> sent[j].headers.Keys !! CREDENTIALS
    ensures sent[i].client == Public ==> sent[j].client == Public
    decreases j
  {
    if i < j {
      LaterHopsKeep(sent, library, i, j - 1);
      assert Follows(sent[j - 1], sent[j], library);
    }
  }

  /**
    Main result: no run goes back from HTTPS to HTTP, and after one change of origin no
    later request carries a credential or uses a trusted client, not even one that
    returns to the first origin.
  */
  lemma {:induction false} OriginChangeIsForGood(start: Hop, follow: bool, upstreams: Upstreams, library: Library, i: nat, j: nat)
    requires i < j < |RunOf(start, follow, upstreams, library).sent|
    ensures var sent := RunOf(start, follow, upstreams, library).sent;
            && (sent[i].url.scheme == "https" ==> sent[j].url.scheme == "https")
            && ((sent[i].url.scheme, sent[i].url.host, sent[i].url.port) !=
                (sent[i + 1].url.scheme, sent[i + 1].url.host, sent[i + 1].url.port) ==>
                  && sent[j].client == Public
                  && forall name | name in {"authorization", "proxy-authorization", "cookie"} :: name !in sent[j].headers)
  {
    hide RunOf, Follow;
    RunIsBounded(start, follow, upstreams, library);
    var sent := RunOf(start, follow, upstreams, library).sent;
    LaterHopsKeep(sent, library, i, j);
    assert Follows(sent[i], sent[i + 1], library);
    LaterHopsKeep(sent, library, i + 1, j);
  }
}
